/** The ImportOverrides pass (src/bin/gen_spec.rs:122-140): find the first
    item that is not a `use` after the first run of `use` items, and insert
    there one `pub use crate::<fork>::<src>_<fork>::<name> as <name>;` per
    override name, in the order the `HashSet` yields them. That order is
    randomly seeded per process, so it is a parameter here: any enumeration
    of the set without repetition. */
module ImportPass {
  import opened Ast

  /** The first `skip_while` (line 127): the first position at or after
      `from` holding a `use` item, or the length if there is none. */
  function SkipNonUse(items: seq<Item>, from: nat): (r: nat)
    requires from <= |items|
    ensures from <= r <= |items|
    ensures forall j :: from <= j < r ==> !items[j].Use?
    ensures r < |items| ==> items[r].Use?
    decreases |items| - from
  {
    if from == |items| || items[from].Use? then from else SkipNonUse(items, from + 1)
  }

  /** The second `skip_while` (line 128): the first position at or after
      `from` holding anything but a `use` item, or the length. */
  function SkipUse(items: seq<Item>, from: nat): (r: nat)
    requires from <= |items|
    ensures from <= r <= |items|
    ensures forall j :: from <= j < r ==> items[j].Use?
    ensures r < |items| ==> !items[r].Use?
    decreases |items| - from
  {
    if from == |items| || !items[from].Use? then from else SkipUse(items, from + 1)
  }

  /** `p` is just past the first run of `use` items, on an item that is
      not a `use`: no `use` item before `p` is followed (before `p`) by a
      non-`use` one. */
  predicate SplicePoint(items: seq<Item>, p: nat) {
    && 0 < p < |items|
    && items[p - 1].Use?
    && !items[p].Use?
    && forall a, b :: 0 <= a < b < p && items[a].Use? ==> items[b].Use?
  }

  /** No splice point exists: there is no `use` item, or the first run of
      `use` items lasts to the end of the module. */
  predicate UsesRunToEnd(items: seq<Item>) {
    forall a, b :: 0 <= a < b < |items| && items[a].Use? ==> items[b].Use?
  }

  /** Lines 123-129: the insertion index, `None` where `unwrap` panics. */
  function InsertionPoint(items: seq<Item>): (p: Option<nat>)
    ensures p.Some? ==> SplicePoint(items, p.value)
    ensures forall q: nat :: SplicePoint(items, q) ==> p == Some(q)
    ensures p.None? <==> UsesRunToEnd(items)
  {
    var u := SkipNonUse(items, 0);
    var j := SkipUse(items, u);
    assert j < |items| ==> items[j - 1].Use?;
    if j < |items| then Some(j) else None
  }

  /** The inserted imports, one per name, in the given order. */
  function Imports(fork: string, src: string, order: seq<string>): (r: seq<Item>)
    ensures |r| == |order|
    ensures forall i :: 0 <= i < |r| ==> r[i].Use? && r[i].isPub && r[i].alias == Some(order[i])
  {
    seq(|order|, i requires 0 <= i < |order| => OverrideImport(fork, src, order[i]))
  }

  /** `order` lists every name of the set exactly once: one possible
      iteration order of a `HashSet`. */
  ghost predicate IsEnumeration(order: seq<string>, names: set<string>) {
    && (forall i, j :: 0 <= i < j < |order| ==> order[i] != order[j])
    && (forall n :: n in order <==> n in names)
  }

  /** Every set has at least one iteration order. */
  lemma {:induction false} EnumerationExists(names: set<string>)
    ensures exists order :: IsEnumeration(order, names)
    decreases |names|
  {
    if names == {} {
      assert IsEnumeration([], names);
    } else {
      var x :| x in names;
      EnumerationExists(names - {x});
      var rest :| IsEnumeration(rest, names - {x});
      var order := [x] + rest;
      forall i, j | 0 <= i < j < |order|
        ensures order[i] != order[j]
      {
        assert order[j] == rest[j - 1];
        if i > 0 {
          assert order[i] == rest[i - 1];
        }
      }
      assert IsEnumeration(order, names);
    }
  }

  /** An enumeration is as long as the set it enumerates. */
  lemma {:induction false} EnumerationLength(order: seq<string>, names: set<string>)
    requires IsEnumeration(order, names)
    ensures |order| == |names|
    decreases |order|
  {
    if |order| > 0 {
      var rest := order[1..];
      forall n
        ensures n in rest <==> n in names - {order[0]}
      {
        if n in rest {
          var j :| 0 <= j < |rest| && rest[j] == n;
          assert order[j + 1] == n;
        }
        if n in order && n != order[0] {
          var j :| 0 <= j < |order| && order[j] == n;
          assert rest[j - 1] == n;
        }
      }
      assert IsEnumeration(rest, names - {order[0]});
      EnumerationLength(rest, names - {order[0]});
    } else {
      assert forall n :: n !in names;
      assert names == {};
    }
  }

  /** The imports for an enumeration of the override set: one per
      override name and exactly one for each, all public re-exports of the
      fork's override module, and nothing else. */
  lemma ImportsExact(fork: string, src: string, order: seq<string>, names: set<string>)
    requires IsEnumeration(order, names)
    ensures |Imports(fork, src, order)| == |names|
    ensures forall n :: n in names ==>
      exists i :: 0 <= i < |order| && Imports(fork, src, order)[i] == OverrideImport(fork, src, n)
    ensures forall n, i, j ::
      (&& 0 <= i < |order| && 0 <= j < |order|
       && Imports(fork, src, order)[i] == OverrideImport(fork, src, n)
       && Imports(fork, src, order)[j] == OverrideImport(fork, src, n)) ==> i == j
    ensures forall i :: 0 <= i < |order| ==>
      order[i] in names && Imports(fork, src, order)[i] == OverrideImport(fork, src, order[i])
  {
    EnumerationLength(order, names);
    forall n | n in names
      ensures exists i :: 0 <= i < |order| && Imports(fork, src, order)[i] == OverrideImport(fork, src, n)
    {
      assert n in order;
      var i :| 0 <= i < |order| && order[i] == n;
      assert Imports(fork, src, order)[i] == OverrideImport(fork, src, n);
    }
  }

  /** Reference form of the pass: the splice in one step. Fails, whatever
      the override set, exactly when the module has no splice point;
      otherwise the original items sit unchanged around the imports. */
  function Splice(items: seq<Item>, fork: string, src: string, order: seq<string>): (r: Result<seq<Item>>)
    ensures r.Err? <==> UsesRunToEnd(items)
    ensures r.Err? ==> r.error == NoInsertionPoint
    ensures r.Ok? ==> |r.value| == |items| + |order|
    ensures r.Ok? ==>
      exists p: nat :: SplicePoint(items, p)
        && r.value[..p] == items[..p]
        && r.value[p..p + |order|] == Imports(fork, src, order)
        && r.value[p + |order|..] == items[p..]
  {
    match InsertionPoint(items)
    case None => Err(NoInsertionPoint)
    case Some(p) =>
      var r := items[..p] + Imports(fork, src, order) + items[p..];
      assert r[..p] == items[..p];
      assert r[p..p + |order|] == Imports(fork, src, order);
      assert r[p + |order|..] == items[p..];
      Ok(r)
  }

  /** The source's loop (lines 129-139): the index is computed first, so
      the pass fails even with no override; then each import goes in at
      `insertion_index + offset`. */
  method ImportOverrides(items: seq<Item>, fork: string, src: string, order: seq<string>)
    returns (r: Result<seq<Item>>)
    ensures r == Splice(items, fork, src, order)
  {
    var point := InsertionPoint(items);
    if point.None? {
      return Err(NoInsertionPoint);
    }
    var index := point.value;
    var out := items;
    for offset := 0 to |order|
      invariant out == items[..index] + Imports(fork, src, order[..offset]) + items[index..]
    {
      var done := Imports(fork, src, order[..offset]);
      var next := OverrideImport(fork, src, order[offset]);
      assert out[..index + offset] == items[..index] + done;
      assert out[index + offset..] == items[index..];
      assert Imports(fork, src, order[..offset + 1]) == done + [next];
      out := out[..index + offset] + [next] + out[index + offset..];
    }
    assert order[..|order|] == order;
    return Ok(out);
  }
}
