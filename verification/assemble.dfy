/** `assemble` (src/bin/gen_spec.rs:169-206): collect the override names,
    then run RemoveOverrides, FixGenerics, ImportOverrides and Finalize, in
    that order, on the base module. FixGenerics runs for every fork; nothing
    at lines 193-195 looks at the fork. */
module GenSpec {
  import opened Ast
  import opened SymbolCollector
  import opened RemovePass
  import opened GenericsPass
  import opened ImportPass
  import opened FinalizePass

  /** The four passes composed as pure functions. */
  function Pipeline(fork: string, src: string, base: seq<Item>,
                    overridesFile: Option<seq<Item>>, order: seq<string>): (r: Result<seq<Item>>)
    ensures r.Ok? ==> |r.value| == |Retain(base, Overrides(overridesFile))| + |order|
  {
    var fixed := FixGenerics(Retain(base, Overrides(overridesFile)));
    match Splice(fixed, fork, src, order)
    case Err(e) => Err(e)
    case Ok(spliced) => Finalize(spliced, fork)
  }

  /** The driver as the source writes it: the collector, then the loops of
      the removal and import passes, the generic walk, and Finalize. `order`
      is the iteration order the override `HashSet` happens to have. */
  method Assemble(fork: string, src: string, base: seq<Item>,
                  overridesFile: Option<seq<Item>>, order: seq<string>)
    returns (r: Result<seq<Item>>)
    requires IsEnumeration(order, Overrides(overridesFile))
    ensures r == Pipeline(fork, src, base, overridesFile, order)
    ensures r.Ok? ==> forall n :: n in Overrides(overridesFile) ==> OverrideImport(fork, src, n) in r.value
    ensures r.Ok? && fork != BaseFork ==> Sentinel !in r.value && ForkImport(fork) in r.value
  {
    var names := Overrides(overridesFile);
    var removed := RemoveOverrides(base, names);
    var fixed := FixGenerics(removed);
    var spliced := ImportOverrides(fixed, fork, src, order);
    if spliced.Err? {
      return Err(spliced.error);
    }
    r := Finalize(spliced.value, fork);
    PipelineReexports(fork, src, base, overridesFile, order);
  }

  /** FixGenerics keeps every item's kind in place, so the splice point of
      its output is that of its input. */
  lemma FixGenericsKeepsSplicePoint(items: seq<Item>)
    ensures |FixGenerics(items)| == |items|
    ensures forall j :: 0 <= j < |items| ==> FixGenerics(items)[j].Use? == items[j].Use?
    ensures InsertionPoint(FixGenerics(items)) == InsertionPoint(items)
  {
    var fixed := FixGenerics(items);
    FixGenericsRewrites(items);
    assert forall j :: 0 <= j < |items| ==> ItemGrows(items[j], fixed[j]);
    assert forall p: nat :: SplicePoint(fixed, p) <==> SplicePoint(items, p);
    assert UsesRunToEnd(fixed) <==> UsesRunToEnd(items);
  }

  /** The sentinel count survives removal (only functions go), the generic
      walk, and the splice (the inserted imports are public). */
  lemma SentinelsReachFinalize(fixed: seq<Item>, fork: string, src: string, order: seq<string>, p: nat)
    requires p <= |fixed|
    ensures multiset(fixed[..p] + Imports(fork, src, order) + fixed[p..])[Sentinel] ==
            multiset(fixed)[Sentinel]
  {
    var imports := Imports(fork, src, order);
    assert Sentinel !in imports;
    assert fixed == fixed[..p] + fixed[p..];
  }

  /** The run fails exactly when one pass's precondition is broken, in pass
      order: no splice point in the module left after removal (whether or
      not there are overrides), then no sentinel in the base, then several. */
  lemma PipelineErrors(fork: string, src: string, base: seq<Item>,
                       overridesFile: Option<seq<Item>>, order: seq<string>)
    ensures var r := Pipeline(fork, src, base, overridesFile, order);
      var removed := Retain(base, Overrides(overridesFile));
      && (r == Err(NoInsertionPoint) <==> UsesRunToEnd(removed))
      && (r == Err(SentinelMissing) <==> !UsesRunToEnd(removed) && Sentinel !in base)
      && (r == Err(SentinelDuplicated) <==> !UsesRunToEnd(removed) && multiset(base)[Sentinel] > 1)
  {
    var names := Overrides(overridesFile);
    var removed := Retain(base, names);
    var fixed := FixGenerics(removed);
    FixGenericsKeepsSplicePoint(removed);
    RetainContents(base, names, Sentinel);
    FixGenericsKeepsSentinels(removed);
    match InsertionPoint(fixed)
    case None =>
    case Some(p) =>
      SentinelsReachFinalize(fixed, fork, src, order, p);
  }

  /** After a successful run every override name is re-exported from the
      fork's override module. */
  lemma PipelineReexports(fork: string, src: string, base: seq<Item>,
                          overridesFile: Option<seq<Item>>, order: seq<string>)
    requires IsEnumeration(order, Overrides(overridesFile))
    ensures var r := Pipeline(fork, src, base, overridesFile, order);
      r.Ok? ==> forall n :: n in Overrides(overridesFile) ==> OverrideImport(fork, src, n) in r.value
  {
    var names := Overrides(overridesFile);
    var fixed := FixGenerics(Retain(base, names));
    match InsertionPoint(fixed)
    case None =>
    case Some(p) =>
      var imports := Imports(fork, src, order);
      var spliced := fixed[..p] + imports + fixed[p..];
      var r := Finalize(spliced, fork);
      ImportsExact(fork, src, order, names);
      if r.Ok? {
        forall n | n in names
          ensures OverrideImport(fork, src, n) in r.value
        {
          var i :| 0 <= i < |order| && imports[i] == OverrideImport(fork, src, n);
          SplicedImportKept(fixed, imports, p, i, fork);
        }
      }
  }

  /** An inserted import is public, so Finalize leaves it where the splice
      put it. */
  lemma SplicedImportKept(fixed: seq<Item>, imports: seq<Item>, p: nat, i: nat, fork: string)
    requires p <= |fixed| && i < |imports|
    requires imports[i].Use? && imports[i].isPub
    requires Finalize(fixed[..p] + imports + fixed[p..], fork).Ok?
    ensures imports[i] in Finalize(fixed[..p] + imports + fixed[p..], fork).value
  {
    var spliced := fixed[..p] + imports + fixed[p..];
    var r := Finalize(spliced, fork).value;
    assert spliced[p + i] == imports[i];
    assert imports[i] != Sentinel;
    assert r[p + i] == imports[i];
  }

  /** After a successful run no top-level function is one the override
      module redefines or one with the `get_matching_` prefix. The one
      exception is a function the rename itself called `SYNC_COMMITTEE_SIZE`
      (a base function named `PENDING_ATTESTATIONS_BOUND`): removal looked
      at its old name. */
  lemma PipelineRemovesOverridden(fork: string, src: string, base: seq<Item>,
                                  overridesFile: Option<seq<Item>>, order: seq<string>)
    ensures var r := Pipeline(fork, src, base, overridesFile, order);
      r.Ok? ==> forall i :: 0 <= i < |r.value| && r.value[i].Fn? && r.value[i].name != SyncCommitteeSize ==>
        r.value[i].name !in Overrides(overridesFile) && !StartsWith(r.value[i].name, ExpirePrefix)
  {
    var names := Overrides(overridesFile);
    var removed := Retain(base, names);
    var fixed := FixGenerics(removed);
    match InsertionPoint(fixed)
    case None =>
    case Some(p) =>
      var imports := Imports(fork, src, order);
      var spliced := fixed[..p] + imports + fixed[p..];
      var r := Finalize(spliced, fork);
      if r.Ok? {
        forall i | 0 <= i < |r.value| && r.value[i].Fn? && r.value[i].name != SyncCommitteeSize
          ensures r.value[i].name !in names && !StartsWith(r.value[i].name, ExpirePrefix)
        {
          assert r.value[i] == spliced[i];
          SplicedFunctionSurvived(base, names, fixed, imports, p, i);
        }
      }
  }

  /** A function of the spliced module comes from the walked module left
      after removal, so under its old name it was not dropped. */
  lemma SplicedFunctionSurvived(base: seq<Item>, names: set<string>, fixed: seq<Item>,
                                imports: seq<Item>, p: nat, i: nat)
    requires fixed == FixGenerics(Retain(base, names))
    requires p <= |fixed|
    requires forall k :: 0 <= k < |imports| ==> imports[k].Use?
    requires i < |fixed| + |imports|
    requires var x := (fixed[..p] + imports + fixed[p..])[i];
      x.Fn? && x.name != SyncCommitteeSize
    ensures var x := (fixed[..p] + imports + fixed[p..])[i];
      x.name !in names && !StartsWith(x.name, ExpirePrefix)
  {
    var removed := Retain(base, names);
    var x := (fixed[..p] + imports + fixed[p..])[i];
    var j := SplicedSource(fixed, imports, p, i);
    FixGenericsAt(removed, j);
    var orig := removed[j];
    assert x == FixItem(orig);
    assert orig.Fn? && orig.name == x.name;
    RetainContents(base, names, orig);
    assert orig in removed;
  }

  /** An item of the spliced module that is not one of the imports is the
      item of the original module at the returned position. */
  lemma SplicedSource(fixed: seq<Item>, imports: seq<Item>, p: nat, i: nat) returns (j: nat)
    requires p <= |fixed|
    requires forall k :: 0 <= k < |imports| ==> imports[k].Use?
    requires i < |fixed| + |imports|
    requires !(fixed[..p] + imports + fixed[p..])[i].Use?
    ensures j < |fixed| && fixed[j] == (fixed[..p] + imports + fixed[p..])[i]
  {
    var spliced := fixed[..p] + imports + fixed[p..];
    if i < p {
      j := i;
      assert spliced[i] == fixed[..p][i];
    } else if i < p + |imports| {
      assert false;
    } else {
      j := i - |imports|;
      assert spliced[i] == fixed[p..][i - p - |imports|];
    }
  }

  /** Without an override module (whose only iteration order is the empty
      one) nothing is imported: a successful run yields, position by
      position, the rewritten items of the base minus its `get_matching_`
      functions, with the sentinel alone replaced by the fork's import. */
  lemma NoOverridesImportsNothing(fork: string, src: string, base: seq<Item>)
    ensures var r := Pipeline(fork, src, base, None, []);
      var removed := Retain(base, {});
      r.Ok? ==>
        && |r.value| == |removed|
        && forall i :: 0 <= i < |removed| ==>
             r.value[i] == if removed[i] == Sentinel then ForkImport(fork) else FixItem(removed[i])
  {
    var removed := Retain(base, {});
    var fixed := FixGenerics(removed);
    SpliceNothing(fixed, fork, src);
    forall i | 0 <= i < |removed|
      ensures fixed[i] == FixItem(removed[i])
      ensures fixed[i] == Sentinel <==> removed[i] == Sentinel
    {
      FixGenericsAt(removed, i);
      FixItemSentinel(removed[i]);
    }
  }

  /** Splicing in no imports leaves the module as it is. */
  lemma SpliceNothing(items: seq<Item>, fork: string, src: string)
    ensures Splice(items, fork, src, []).Ok? ==> Splice(items, fork, src, []).value == items
  {
    match InsertionPoint(items)
    case None =>
    case Some(p) =>
      assert Imports(fork, src, []) == [];
      assert items[..p] + [] + items[p..] == items;
  }

  /** The splice point is taken after removal, not in the base module: a
      base whose only item after its `use` run is an expired helper has a
      splice point, yet the run fails because removal empties that spot. */
  lemma SplicePointTakenAfterRemoval(fork: string, src: string)
    ensures var helper := Fn("get_matching_source_attestations", [], [], []);
      var base := [Sentinel, helper];
      && InsertionPoint(base) == Some(1)
      && Pipeline(fork, src, base, None, []) == Err(NoInsertionPoint)
  {
    var helper := Fn("get_matching_source_attestations", [], [], []);
    var base := [Sentinel, helper];
    assert StartsWith(helper.name, ExpirePrefix);
    assert Dropped(helper, {});
    assert base[1..] == [helper] && [helper][1..] == [];
    assert Retain([helper], {}) == [];
    assert Retain(base, {}) == [Sentinel];
    assert SplicePoint(base, 1);
    assert UsesRunToEnd([Sentinel]);
    PipelineErrors(fork, src, base, None, []);
  }

  /** A whole run on a small module: the base imports one name, holds the
      sentinel, an expired helper, `get_total_balance` and one other
      declaration; the override module redefines `get_total_balance`. Both
      functions go, the sentinel is retargeted, and the re-export lands just
      after the `use` run. */
  lemma OverrideScenario(fork: string, src: string)
    ensures
      var gwei := Use(false, ["crate", "primitives", "Gwei"], None);
      var other := Other([], [], []);
      var base := [gwei, Sentinel,
                   Fn("get_matching_source_attestations", [], [], []),
                   Fn("get_total_balance", [], [], []),
                   other];
      var overrides := Some([Fn("get_total_balance", [], [], [])]);
      Pipeline(fork, src, base, overrides, ["get_total_balance"]) ==
        Ok([gwei, ForkImport(fork), OverrideImport(fork, src, "get_total_balance"), other])
  {
    ScenarioNames();
    ScenarioRemoval();
    ScenarioWalk();
    ScenarioSplice(fork, src);
    ScenarioFinalize(fork, src);
  }

  /** The override set in that run. */
  lemma ScenarioNames()
    ensures Overrides(Some([Fn("get_total_balance", [], [], [])])) == {"get_total_balance"}
  {
    var total := Fn("get_total_balance", [], [], []);
    assert [total][1..] == [];
    assert CollectItems([total]) == CollectItem(total) + CollectItems([]);
  }

  /** Removal in that run: the expired helper and the override go. */
  lemma ScenarioRemoval()
    ensures
      var gwei := Use(false, ["crate", "primitives", "Gwei"], None);
      var other := Other([], [], []);
      var base := [gwei, Sentinel,
                   Fn("get_matching_source_attestations", [], [], []),
                   Fn("get_total_balance", [], [], []),
                   other];
      Retain(base, {"get_total_balance"}) == [gwei, Sentinel, other]
  {
    var gwei := Use(false, ["crate", "primitives", "Gwei"], None);
    var other := Other([], [], []);
    var expired := Fn("get_matching_source_attestations", [], [], []);
    var total := Fn("get_total_balance", [], [], []);
    var base := [gwei, Sentinel, expired, total, other];
    var names := {"get_total_balance"};
    assert StartsWith(expired.name, ExpirePrefix);
    assert Dropped(expired, names) && Dropped(total, names);
    assert !Dropped(gwei, names) && !Dropped(Sentinel, names) && !Dropped(other, names);
    assert base == [gwei, Sentinel] + [expired, total] + [other];
    RetainAppend([gwei, Sentinel] + [expired, total], [other], names);
    RetainAppend([gwei, Sentinel], [expired, total], names);
    RetainNoneDropped([gwei, Sentinel], names);
    RetainNoneDropped([other], names);
    assert [expired, total][1..] == [total] && [total][1..] == [];
    assert Retain([total], names) == [];
    assert Retain([expired, total], names) == [];
  }

  /** The splice in that run: the re-export goes right after the `use` run. */
  lemma ScenarioSplice(fork: string, src: string)
    ensures
      var gwei := Use(false, ["crate", "primitives", "Gwei"], None);
      var other := Other([], [], []);
      var imported := OverrideImport(fork, src, "get_total_balance");
      Splice([gwei, Sentinel, other], fork, src, ["get_total_balance"]) ==
        Ok([gwei, Sentinel, imported, other])
  {
    var gwei := Use(false, ["crate", "primitives", "Gwei"], None);
    var other := Other([], [], []);
    var removed := [gwei, Sentinel, other];
    assert SplicePoint(removed, 2);
    var imported := OverrideImport(fork, src, "get_total_balance");
    assert Imports(fork, src, ["get_total_balance"]) == [imported];
    assert removed[..2] + [imported] + removed[2..] == [gwei, Sentinel, imported, other];
  }

  /** Finalize in that run: the one sentinel is retargeted. */
  lemma ScenarioFinalize(fork: string, src: string)
    ensures
      var gwei := Use(false, ["crate", "primitives", "Gwei"], None);
      var other := Other([], [], []);
      var imported := OverrideImport(fork, src, "get_total_balance");
      Finalize([gwei, Sentinel, imported, other], fork) ==
        Ok([gwei, ForkImport(fork), imported, other])
  {
    var gwei := Use(false, ["crate", "primitives", "Gwei"], None);
    var other := Other([], [], []);
    var imported := OverrideImport(fork, src, "get_total_balance");
    var spliced := [gwei, Sentinel, imported, other];
    assert gwei != Sentinel && imported != Sentinel && other != Sentinel;
    assert multiset(spliced) == multiset{gwei, Sentinel, imported, other};
    assert multiset(spliced)[Sentinel] == 1;
    var r := Finalize(spliced, fork);
    assert r.Ok?;
    assert r.value == [gwei, ForkImport(fork), imported, other];
  }

  /** The generic walk in that run changes nothing. */
  lemma ScenarioWalk()
    ensures
      var removed := [Use(false, ["crate", "primitives", "Gwei"], None), Sentinel, Other([], [], [])];
      FixGenerics(removed) == removed
  {
    var gwei := Use(false, ["crate", "primitives", "Gwei"], None);
    var other := Other([], [], []);
    var removed := [gwei, Sentinel, other];
    FixItemSentinel(Sentinel);
    assert RenameIdents(gwei.path) == gwei.path;
    assert FixItem(gwei) == gwei;
    assert RenameIdents([]) == [] && WalkPaths([]) == [] && FixItems([]) == [];
    assert FixItem(other) == other;
    assert removed[1..] == [Sentinel, other] && [Sentinel, other][1..] == [other];
    assert FixItems([other]) == [other];
    assert FixItems([Sentinel, other]) == [Sentinel, other];
  }
}
