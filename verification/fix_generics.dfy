/** The FixGenerics pass (src/bin/gen_spec.rs:42-91, run by the default
    `visit_file_mut` walk at line 165). Every identifier
    `PENDING_ATTESTATIONS_BOUND` becomes `SYNC_COMMITTEE_SIZE`, and the
    angle-bracketed list of a segment whose name contains `BeaconBlock`
    receives a trailing `SYNC_COMMITTEE_SIZE` argument. The
    `extend_for_block` flag is threaded through the walk as the boolean half
    of each result. */
module GenericsPass {
  import opened Ast

  /** `visit_ident_mut` during this pass (lines 59-71). */
  function RenameIdent(id: string): (r: string)
    ensures r != AttestationBound
    ensures id == AttestationBound ==> r == SyncCommitteeSize
    ensures id != AttestationBound ==> r == id
  {
    if id == AttestationBound then SyncCommitteeSize else id
  }

  /** The test at lines 77-79: a segment name containing `BeaconBlock`
      that carries an angle-bracketed list. */
  predicate Triggers(s: Seg) {
    s.Angle? && Contains(s.ident, BlockTrigger)
  }

  lemma MaxDepthAppendBare(a: seq<Seg>, id: string)
    ensures MaxDepth(a + [Bare(id)]) == MaxDepth(a)
    decreases |a|
  {
    if |a| > 0 {
      assert (a + [Bare(id)])[1..] == a[1..] + [Bare(id)];
      MaxDepthAppendBare(a[1..], id);
    }
  }

  /** `visit_path_segment_mut` (lines 73-91) entered with flag `ext`;
      returns the rewritten segment and the flag afterwards. A triggering
      segment first has its list visited with the flag raised, after which
      the flag is cleared (not restored); then the default walk renames the
      name and visits the (already extended) list again. */
  function VisitSeg(s: Seg, ext: bool): (r: (Seg, bool))
    ensures Depth(r.0) == Depth(s)
    ensures r.0.Angle? == s.Angle?
    ensures !ext ==> !r.1
    decreases Depth(s), 0, 0
  {
    var (s1, e1) :=
      if Triggers(s) then
        var raised := VisitAngle(s.args, true);
        (Angle(s.ident, raised.0), false)
      else (s, ext);
    match s1
    case Bare(id) => (Bare(RenameIdent(id)), e1)
    case Angle(id, a) =>
      var walked := VisitAngle(a, e1);
      (Angle(RenameIdent(id), walked.0), walked.1)
  }

  /** `visit_angle_bracketed_generic_arguments_mut` (lines 42-56): push
      `SYNC_COMMITTEE_SIZE` while the flag is up, then walk every argument,
      the pushed one included. */
  function VisitAngle(a: seq<Seg>, ext: bool): (r: (seq<Seg>, bool))
    ensures MaxDepth(r.0) == MaxDepth(a)
    ensures |r.0| == |a| + (if ext then 1 else 0)
    ensures !ext ==> !r.1
    decreases MaxDepth(a), 2, 0
  {
    var extended := if ext then a + [SyncArg] else a;
    MaxDepthAppendBare(a, SyncCommitteeSize);
    WalkSegs(extended, ext)
  }

  /** The default walk over a punctuated list of segments (the arguments of
      a list, or the segments of a path), threading the flag left to right. */
  function WalkSegs(a: seq<Seg>, ext: bool): (r: (seq<Seg>, bool))
    ensures MaxDepth(r.0) == MaxDepth(a)
    ensures |r.0| == |a|
    ensures !ext ==> !r.1
    decreases MaxDepth(a), 1, |a|
  {
    if |a| == 0 then ([], ext)
    else
      var head := VisitSeg(a[0], ext);
      var tail := WalkSegs(a[1..], head.1);
      ([head.0] + tail.0, tail.1)
  }

  /** The walk of one type path met outside any argument list. The flag is
      false there: it starts false (line 181) and every walk entered with it
      false leaves it false (the last ensures of `WalkSegs`). */
  function WalkPath(p: Path): (q: Path)
    ensures |q| == |p|
  {
    WalkSegs(p, false).0
  }

  function RenameIdents(ids: seq<string>): (r: seq<string>)
    ensures |r| == |ids|
  {
    seq(|ids|, j requires 0 <= j < |ids| => RenameIdent(ids[j]))
  }

  function WalkPaths(ps: seq<Path>): (r: seq<Path>)
    ensures |r| == |ps|
  {
    seq(|ps|, j requires 0 <= j < |ps| => WalkPath(ps[j]))
  }

  function FixItem(it: Item): (r: Item)
    ensures r.Fn? == it.Fn? && r.Use? == it.Use?
  {
    match it
    case Fn(name, ids, ts, body) =>
      Fn(RenameIdent(name), RenameIdents(ids), WalkPaths(ts), FixItems(body))
    case Use(vis, path, alias) =>
      Use(vis, RenameIdents(path),
          match alias case None => None case Some(a) => Some(RenameIdent(a)))
    case Other(ids, ts, inner) =>
      Other(RenameIdents(ids), WalkPaths(ts), FixItems(inner))
  }

  function FixItems(items: seq<Item>): (r: seq<Item>)
    ensures |r| == |items|
    ensures forall j :: 0 <= j < |items| ==> r[j].Fn? == items[j].Fn? && r[j].Use? == items[j].Use?
  {
    if |items| == 0 then [] else [FixItem(items[0])] + FixItems(items[1..])
  }

  /** The whole pass: the default walk of every item of the module. */
  function FixGenerics(items: seq<Item>): (r: seq<Item>)
    ensures |r| == |items|
    ensures forall j :: 0 <= j < |items| ==> r[j].Fn? == items[j].Fn? && r[j].Use? == items[j].Use?
  {
    FixItems(items)
  }

  // ---------------------------------------------------------------------
  // What the pass may change: renaming, and SYNC_COMMITTEE_SIZE appended.
  // ---------------------------------------------------------------------

  /** `y` is `x` with every name renamed and, in any of its lists, zero or
      more `SYNC_COMMITTEE_SIZE` arguments appended after the original ones. */
  predicate SegGrows(x: Seg, y: Seg) {
    && y.ident == RenameIdent(x.ident)
    && y.Angle? == x.Angle?
    && (x.Angle? ==> ArgsGrow(x.args, y.args))
  }

  predicate ArgsGrow(a: seq<Seg>, b: seq<Seg>) {
    && |a| <= |b|
    && (forall j :: 0 <= j < |a| ==> SegGrows(a[j], b[j]))
    && (forall j :: |a| <= j < |b| ==> b[j] == SyncArg)
  }

  predicate PathsGrow(ps: seq<Path>, qs: seq<Path>) {
    && |ps| == |qs|
    && forall j :: 0 <= j < |ps| ==> |ps[j]| == |qs[j]| && ArgsGrow(ps[j], qs[j])
  }

  predicate IdentsRenamed(ids: seq<string>, ids': seq<string>) {
    && |ids| == |ids'|
    && forall j :: 0 <= j < |ids| ==> ids'[j] == RenameIdent(ids[j])
  }

  /** Item-level form: same kind, same visibility, every identifier renamed,
      every path grown, nested items grown likewise. */
  predicate ItemGrows(x: Item, y: Item) {
    match x
    case Fn(name, ids, ts, body) =>
      && y.Fn?
      && y.name == RenameIdent(name)
      && IdentsRenamed(ids, y.idents)
      && PathsGrow(ts, y.types)
      && ItemsGrow(body, y.body)
    case Use(vis, path, alias) =>
      && y.Use?
      && y.isPub == vis
      && IdentsRenamed(path, y.path)
      && y.alias.Some? == alias.Some?
      && (alias.Some? ==> y.alias.value == RenameIdent(alias.value))
    case Other(ids, ts, inner) =>
      && y.Other?
      && IdentsRenamed(ids, y.idents)
      && PathsGrow(ts, y.types)
      && ItemsGrow(inner, y.inner)
  }

  predicate ItemsGrow(a: seq<Item>, b: seq<Item>) {
    && |a| == |b|
    && forall j :: 0 <= j < |a| ==> ItemGrows(a[j], b[j])
  }

  /** `id` occurs nowhere in the segment. */
  predicate SegAvoids(s: Seg, id: string) {
    && s.ident != id
    && (s.Angle? ==> forall j :: 0 <= j < |s.args| ==> SegAvoids(s.args[j], id))
  }

  predicate PathsAvoid(ps: seq<Path>, id: string) {
    forall j, k :: 0 <= j < |ps| && 0 <= k < |ps[j]| ==> SegAvoids(ps[j][k], id)
  }

  /** `id` occurs nowhere in the item, nested items included. */
  predicate ItemAvoids(it: Item, id: string) {
    match it
    case Fn(name, ids, ts, body) =>
      name != id && id !in ids && PathsAvoid(ts, id) && ItemsAvoid(body, id)
    case Use(_, path, alias) =>
      id !in path && alias != Some(id)
    case Other(ids, ts, inner) =>
      id !in ids && PathsAvoid(ts, id) && ItemsAvoid(inner, id)
  }

  predicate ItemsAvoid(items: seq<Item>, id: string) {
    forall j :: 0 <= j < |items| ==> ItemAvoids(items[j], id)
  }

  lemma SyncGrowsToItself(y: Seg)
    requires SegGrows(SyncArg, y)
    ensures y == SyncArg
  {
  }

  lemma {:induction false} SegGrowsTrans(x: Seg, y: Seg, z: Seg)
    requires SegGrows(x, y) && SegGrows(y, z)
    ensures SegGrows(x, z)
    decreases x, 1
  {
    if x.Angle? {
      ArgsGrowTrans(x.args, y.args, z.args);
    }
  }

  lemma {:induction false} ArgsGrowTrans(a: seq<Seg>, b: seq<Seg>, c: seq<Seg>)
    requires ArgsGrow(a, b) && ArgsGrow(b, c)
    ensures ArgsGrow(a, c)
    decreases a, 0
  {
    forall j | 0 <= j < |a|
      ensures SegGrows(a[j], c[j])
    {
      SegGrowsTrans(a[j], b[j], c[j]);
    }
    forall j | |a| <= j < |c|
      ensures c[j] == SyncArg
    {
      if j < |b| {
        SyncGrowsToItself(c[j]);
      }
    }
  }

  lemma {:induction false} VisitSegGrows(s: Seg, ext: bool)
    ensures SegGrows(s, VisitSeg(s, ext).0)
    decreases Depth(s), 0, 0
  {
    if Triggers(s) {
      var raised := VisitAngle(s.args, true);
      VisitAngleGrows(s.args, true);
      VisitAngleGrows(raised.0, false);
      ArgsGrowTrans(s.args, raised.0, VisitAngle(raised.0, false).0);
    } else if s.Angle? {
      VisitAngleGrows(s.args, ext);
    }
  }

  lemma {:induction false} VisitAngleGrows(a: seq<Seg>, ext: bool)
    ensures ArgsGrow(a, VisitAngle(a, ext).0)
    decreases MaxDepth(a), 2, 0
  {
    var extended := if ext then a + [SyncArg] else a;
    MaxDepthAppendBare(a, SyncCommitteeSize);
    WalkSegsGrow(extended, ext);
    var b := VisitAngle(a, ext).0;
    forall j | 0 <= j < |a|
      ensures SegGrows(a[j], b[j])
    {
      assert extended[j] == a[j];
    }
    if ext {
      assert extended[|a|] == SyncArg;
      SyncGrowsToItself(b[|a|]);
    }
  }

  lemma {:induction false} WalkSegsGrow(a: seq<Seg>, ext: bool)
    ensures ArgsGrow(a, WalkSegs(a, ext).0)
    decreases MaxDepth(a), 1, |a|
  {
    if |a| > 0 {
      var head := VisitSeg(a[0], ext);
      VisitSegGrows(a[0], ext);
      WalkSegsGrow(a[1..], head.1);
      var b := WalkSegs(a, ext).0;
      forall j | 0 <= j < |a|
        ensures SegGrows(a[j], b[j])
      {
        if j > 0 {
          assert a[j] == a[1..][j - 1];
        }
      }
    }
  }

  lemma {:induction false} SegGrowsAvoids(x: Seg, y: Seg)
    requires SegGrows(x, y)
    ensures SegAvoids(y, AttestationBound)
    decreases x
  {
    if x.Angle? {
      forall j | 0 <= j < |y.args|
        ensures SegAvoids(y.args[j], AttestationBound)
      {
        if j < |x.args| {
          SegGrowsAvoids(x.args[j], y.args[j]);
        }
      }
    }
  }

  lemma {:induction false} FixItemGrows(it: Item)
    ensures ItemGrows(it, FixItem(it))
    decreases it, 1
  {
    match it
    case Fn(_, _, ts, body) =>
      WalkPathsGrow(ts);
      FixItemsGrow(body);
    case Use(_, _, _) =>
    case Other(_, ts, inner) =>
      WalkPathsGrow(ts);
      FixItemsGrow(inner);
  }

  lemma {:induction false} FixItemsGrow(items: seq<Item>)
    ensures ItemsGrow(items, FixItems(items))
    decreases items, 0
  {
    if |items| > 0 {
      FixItemGrows(items[0]);
      FixItemsGrow(items[1..]);
      var r := FixItems(items);
      forall j | 0 <= j < |items|
        ensures ItemGrows(items[j], r[j])
      {
        if j > 0 {
          assert items[j] == items[1..][j - 1];
        }
      }
    }
  }

  lemma WalkPathsGrow(ps: seq<Path>)
    ensures PathsGrow(ps, WalkPaths(ps))
  {
    forall j | 0 <= j < |ps|
      ensures ArgsGrow(ps[j], WalkPaths(ps)[j])
    {
      WalkSegsGrow(ps[j], false);
    }
  }

  lemma {:induction false} ItemGrowsAvoids(x: Item, y: Item)
    requires ItemGrows(x, y)
    ensures ItemAvoids(y, AttestationBound)
    decreases x, 1
  {
    match x
    case Fn(_, _, ts, body) =>
      PathsGrowAvoid(ts, y.types);
      ItemsGrowAvoid(body, y.body);
    case Use(_, _, _) =>
    case Other(_, ts, inner) =>
      PathsGrowAvoid(ts, y.types);
      ItemsGrowAvoid(inner, y.inner);
  }

  lemma {:induction false} ItemsGrowAvoid(a: seq<Item>, b: seq<Item>)
    requires ItemsGrow(a, b)
    ensures ItemsAvoid(b, AttestationBound)
    decreases a, 0
  {
    forall j | 0 <= j < |b|
      ensures ItemAvoids(b[j], AttestationBound)
    {
      ItemGrowsAvoids(a[j], b[j]);
    }
  }

  lemma PathsGrowAvoid(ps: seq<Path>, qs: seq<Path>)
    requires PathsGrow(ps, qs)
    ensures PathsAvoid(qs, AttestationBound)
  {
    forall j, k | 0 <= j < |qs| && 0 <= k < |qs[j]|
      ensures SegAvoids(qs[j][k], AttestationBound)
    {
      SegGrowsAvoids(ps[j][k], qs[j][k]);
    }
  }

  /** The pass only renames and appends: every item keeps its kind and
      position, each identifier is renamed, each list keeps its original
      arguments (rewritten the same way) followed by zero or more
      `SYNC_COMMITTEE_SIZE`; and afterwards `PENDING_ATTESTATIONS_BOUND`
      occurs nowhere in the module. */
  lemma FixGenericsRewrites(items: seq<Item>)
    ensures ItemsGrow(items, FixGenerics(items))
    ensures ItemsAvoid(FixGenerics(items), AttestationBound)
  {
    FixItemsGrow(items);
    ItemsGrowAvoid(items, FixGenerics(items));
  }

  // ---------------------------------------------------------------------
  // Exact results: trigger-free paths, flat triggering lists, one nesting.
  // ---------------------------------------------------------------------

  /** The rename alone, applied throughout a segment. */
  function RenameSeg(s: Seg): (r: Seg)
    ensures r.Angle? == s.Angle?
  {
    match s
    case Bare(id) => Bare(RenameIdent(id))
    case Angle(id, a) => Angle(RenameIdent(id), RenameSegs(a))
  }

  function RenameSegs(a: seq<Seg>): (r: seq<Seg>)
    ensures |r| == |a|
  {
    if |a| == 0 then [] else [RenameSeg(a[0])] + RenameSegs(a[1..])
  }

  /** No segment anywhere in `s` triggers the append. */
  predicate TriggerFree(s: Seg) {
    && !Triggers(s)
    && (s.Angle? ==> forall j :: 0 <= j < |s.args| ==> TriggerFree(s.args[j]))
  }

  /** An argument list with no nested angle-bracketed list. */
  predicate Flat(a: seq<Seg>) {
    forall j :: 0 <= j < |a| ==> a[j].Bare?
  }

  lemma {:induction false} RenameSegsAppend(a: seq<Seg>, b: seq<Seg>)
    ensures RenameSegs(a + b) == RenameSegs(a) + RenameSegs(b)
    decreases |a|
  {
    if |a| == 0 {
      assert a + b == b;
    } else {
      assert (a + b)[0] == a[0];
      assert (a + b)[1..] == a[1..] + b;
      RenameSegsAppend(a[1..], b);
    }
  }

  lemma {:induction false} RenameFlatIdempotent(a: seq<Seg>)
    requires Flat(a)
    ensures Flat(RenameSegs(a))
    ensures |RenameSegs(a)| == |a|
    ensures RenameSegs(RenameSegs(a)) == RenameSegs(a)
    decreases |a|
  {
    if |a| > 0 {
      RenameFlatIdempotent(a[1..]);
      var r := RenameSegs(a);
      assert r[1..] == RenameSegs(a[1..]);
    }
  }

  /** Outside a triggering list, a path without triggering segments is
      only renamed: no list gains an argument, and the flag stays down. */
  lemma {:induction false} TriggerFreeOnlyRenamed(s: Seg)
    requires TriggerFree(s)
    ensures VisitSeg(s, false) == (RenameSeg(s), false)
    decreases s, 1
  {
    if s.Angle? {
      TriggerFreeWalkOnlyRenames(s.args);
    }
  }

  lemma {:induction false} TriggerFreeWalkOnlyRenames(a: seq<Seg>)
    requires forall j :: 0 <= j < |a| ==> TriggerFree(a[j])
    ensures WalkSegs(a, false) == (RenameSegs(a), false)
    decreases a, 0
  {
    if |a| > 0 {
      TriggerFreeOnlyRenamed(a[0]);
      TriggerFreeWalkOnlyRenames(a[1..]);
    }
  }

  /** Walking a flat list renames each argument and leaves the flag as it
      was, whether it was up or down. */
  lemma {:induction false} WalkFlat(a: seq<Seg>, ext: bool)
    requires Flat(a)
    ensures WalkSegs(a, ext) == (RenameSegs(a), ext)
    decreases |a|
  {
    if |a| > 0 {
      WalkFlat(a[1..], ext);
    }
  }

  lemma TriggerNameKept(s: Seg)
    requires Triggers(s)
    ensures RenameIdent(s.ident) == s.ident
  {
    ContainsChar(s.ident, BlockTrigger, 1);
    assert 'e' !in AttestationBound;
  }

  /** Flat case of lines 77-82: a segment whose name contains `BeaconBlock`
      and whose list holds no nested list comes out with its arguments
      renamed and exactly one `SYNC_COMMITTEE_SIZE` appended, and the flag
      is down afterwards, whatever it was before. */
  lemma FlatTriggerAppendsOnce(s: Seg, ext: bool)
    requires Triggers(s) && Flat(s.args)
    ensures VisitSeg(s, ext) == (Angle(s.ident, RenameSegs(s.args) + [SyncArg]), false)
  {
    var a := s.args;
    var extended := a + [SyncArg];
    assert Flat(extended);
    WalkFlat(extended, true);
    RenameSegsAppend(a, [SyncArg]);
    assert RenameSegs([SyncArg]) == [SyncArg];
    var raised := RenameSegs(a) + [SyncArg];
    assert VisitAngle(a, true) == (raised, true);
    RenameFlatIdempotent(a);
    assert Flat(raised);
    WalkFlat(raised, false);
    RenameSegsAppend(RenameSegs(a), [SyncArg]);
    TriggerNameKept(s);
  }

  /** One level of nesting (lines 55 and 90 together): when the only
      argument of a triggering segment is itself a triggering segment with a
      flat list, the inner list is extended once while the outer list is
      first visited and once more when the default walk revisits it, so it
      ends with two `SYNC_COMMITTEE_SIZE`, while the outer list gets one. */
  lemma NestedTriggerAppendsTwice(outer: Seg, ext: bool)
    requires Triggers(outer) && |outer.args| == 1
    requires Triggers(outer.args[0]) && Flat(outer.args[0].args)
    ensures var inner := outer.args[0];
      VisitSeg(outer, ext) ==
        (Angle(outer.ident,
               [Angle(inner.ident, RenameSegs(inner.args) + [SyncArg, SyncArg]), SyncArg]),
         false)
  {
    var inner := outer.args[0];
    var renamed := RenameSegs(inner.args);
    var inner1 := Angle(inner.ident, renamed + [SyncArg]);
    FlatTriggerAppendsOnce(inner, true);
    assert Flat([SyncArg]);
    WalkFlat([SyncArg], false);
    assert RenameSegs([SyncArg]) == [SyncArg];
    assert outer.args + [SyncArg] == [inner, SyncArg];
    assert [inner, SyncArg][1..] == [SyncArg];
    var w := [inner, SyncArg];
    assert w[0] == inner && w[1..] == [SyncArg];
    assert VisitSeg(w[0], true) == (inner1, false);
    assert WalkSegs(w[1..], false) == ([SyncArg], false);
    assert WalkSegs(w, true) == ([inner1] + [SyncArg], false);
    assert [inner1] + [SyncArg] == [inner1, SyncArg];
    assert VisitAngle(outer.args, true) == ([inner1, SyncArg], false);
    RenameFlatIdempotent(inner.args);
    assert Flat(inner1.args);
    assert Triggers(inner1);
    FlatTriggerAppendsOnce(inner1, false);
    RenameSegsAppend(renamed, [SyncArg]);
    assert RenameSegs([SyncArg]) == [SyncArg];
    assert inner1.args + [SyncArg] == renamed + [SyncArg, SyncArg];
    assert [inner1, SyncArg][1..] == [SyncArg];
    var inner2 := Angle(inner.ident, renamed + [SyncArg, SyncArg]);
    var w1 := [inner1, SyncArg];
    assert w1[0] == inner1 && w1[1..] == [SyncArg];
    assert WalkSegs(w1, false) == ([inner2] + [SyncArg], false);
    assert [inner2] + [SyncArg] == [inner2, SyncArg];
    TriggerNameKept(outer);
  }

  // ---------------------------------------------------------------------
  // What later passes rely on.
  // ---------------------------------------------------------------------

  /** The pass turns an item into the sentinel import exactly when the item
      is that import: none of its names is the renamed identifier. */
  lemma FixItemSentinel(x: Item)
    ensures FixItem(x) == Sentinel <==> x == Sentinel
  {
    if x.Use? && FixItem(x) == Sentinel {
      var path := x.path;
      var renamed := RenameIdents(path);
      assert renamed == FixItem(x).path == ["crate", BaseFork];
      assert |path| == 2;
      assert renamed[0] == RenameIdent(path[0]) == "crate";
      assert renamed[1] == RenameIdent(path[1]) == BaseFork;
      assert path == ["crate", BaseFork];
    }
  }

  /** The pass rewrites each item on its own. */
  lemma {:induction false} FixGenericsAt(items: seq<Item>, i: nat)
    requires i < |items|
    ensures FixGenerics(items)[i] == FixItem(items[i])
    decreases |items|
  {
    if i > 0 {
      FixGenericsAt(items[1..], i - 1);
    }
  }

  /** The module holds as many sentinel imports after the pass as before. */
  lemma {:induction false} FixGenericsKeepsSentinels(items: seq<Item>)
    ensures multiset(FixGenerics(items))[Sentinel] == multiset(items)[Sentinel]
    decreases |items|
  {
    if |items| > 0 {
      FixItemSentinel(items[0]);
      FixGenericsKeepsSentinels(items[1..]);
      assert items == [items[0]] + items[1..];
    }
  }
}
