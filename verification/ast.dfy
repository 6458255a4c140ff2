/** The parsed-module vocabulary the generator rewrites: type-path segments,
    top-level items, the fixed names of src/bin/gen_spec.rs, and the failure
    outcomes of a run. Parsing and pretty-printing are outside the model; a
    module is given directly as its item sequence. */
module Ast {

  datatype Option<+T> = None | Some(value: T)

  /** Why a (source module, fork) run aborts. */
  datatype GenError =
    | NoInsertionPoint     // `iter.next().unwrap()` on an exhausted iterator
    | SentinelMissing      // `target_index[0]` on an empty vector
    | SentinelDuplicated   // the explicit "more than one 'spec import'" panic

  datatype Result<+T> = Ok(value: T) | Err(error: GenError)

  /** One segment of a type path: `ident` (no arguments) or `ident<args>`
      (angle-bracketed arguments). Each argument is itself a single
      segment. */
  datatype Seg = Bare(ident: string) | Angle(ident: string, args: seq<Seg>)

  /** A type path such as `spec::BeaconBlock<A, B>`. */
  type Path = seq<Seg>

  /** A declaration of a module.
      - `Fn`: its name, the other identifiers in its signature and block
        (generic parameter names, locals), the type paths it mentions, and
        the items declared inside its block.
      - `Use`: visibility, the `::`-separated path and the optional
        `as` alias.
      - `Other`: any other declaration, with its identifiers, type paths,
        and the items a default syntax walk reaches inside it (the contents
        of an inline `mod`, for one). */
  datatype Item =
    | Fn(name: string, idents: seq<string>, types: seq<Path>, body: seq<Item>)
    | Use(isPub: bool, path: seq<string>, alias: Option<string>)
    | Other(idents: seq<string>, types: seq<Path>, inner: seq<Item>)

  const AttestationBound: string := "PENDING_ATTESTATIONS_BOUND"
  const SyncCommitteeSize: string := "SYNC_COMMITTEE_SIZE"
  /** Segments whose identifier contains this receive an extra argument. */
  const BlockTrigger: string := "BeaconBlock"
  /** Base functions whose name starts with this are always dropped. */
  const ExpirePrefix: string := "get_matching_"
  /** The module every fork is derived from. */
  const BaseFork: string := "phase0"

  /** The argument appended to a triggering argument list. */
  const SyncArg: Seg := Bare(SyncCommitteeSize)

  /** `use crate::phase0 as spec;` */
  const Sentinel: Item := Use(false, ["crate", BaseFork], Some("spec"))

  /** `use crate::<fork> as spec;` */
  function ForkImport(fork: string): (r: Item)
    ensures r.Use? && !r.isPub
    ensures r == Sentinel <==> fork == BaseFork
  {
    Use(false, ["crate", fork], Some("spec"))
  }

  /** `pub use crate::<fork>::<src>_<fork>::<name> as <name>;` */
  function OverrideImport(fork: string, src: string, name: string): (r: Item)
    ensures r.Use? && r.isPub && r.alias == Some(name)
    ensures r != Sentinel
  {
    Use(true, ["crate", fork, src + "_" + fork, name], Some(name))
  }

  predicate StartsWith(s: string, prefix: string) {
    |prefix| <= |s| && s[..|prefix|] == prefix
  }

  /** `str::contains`: `needle` occurs somewhere in `s`. */
  predicate Contains(s: string, needle: string)
    decreases |s|
  {
    StartsWith(s, needle) || (|s| > 0 && Contains(s[1..], needle))
  }

  /** Every character of a contained needle occurs in the haystack. */
  lemma {:induction false} ContainsChar(s: string, needle: string, k: nat)
    requires Contains(s, needle)
    requires k < |needle|
    ensures needle[k] in s
    decreases |s|
  {
    if StartsWith(s, needle) {
      assert s[k] == needle[k];
    } else {
      ContainsChar(s[1..], needle, k);
    }
  }

  /** Nesting depth of angle-bracketed lists; every rewrite preserves it,
      which is what makes the generic-argument walk terminate. */
  function Depth(s: Seg): nat {
    match s
    case Bare(_) => 0
    case Angle(_, a) => 1 + MaxDepth(a)
  }

  function MaxDepth(a: seq<Seg>): nat {
    if |a| == 0 then 0
    else
      var d := Depth(a[0]);
      var rest := MaxDepth(a[1..]);
      if d < rest then rest else d
  }
}
