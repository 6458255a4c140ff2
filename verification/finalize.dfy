/** The Finalize pass (src/bin/gen_spec.rs:141-163): the one top-level
    `use crate::phase0 as spec;` becomes `use crate::<fork> as spec;`.
    Two or more such items hit the explicit panic at line 156; none makes
    the `target_index[0]` at line 158 index out of bounds. */
module FinalizePass {
  import opened Ast

  /** Lines 143-154: the ascending positions, from `from` on, of the items
      equal to `x`. */
  function Positions(items: seq<Item>, x: Item, from: nat): (ps: seq<nat>)
    requires from <= |items|
    ensures |ps| <= |items| - from
    decreases |items| - from
  {
    if from == |items| then []
    else (if items[from] == x then [from] else []) + Positions(items, x, from + 1)
  }

  /** Every listed position holds `x`. */
  lemma {:induction false} PositionsHold(items: seq<Item>, x: Item, from: nat)
    requires from <= |items|
    ensures forall k :: 0 <= k < |Positions(items, x, from)| ==>
      from <= Positions(items, x, from)[k] < |items| && items[Positions(items, x, from)[k]] == x
    decreases |items| - from
  {
    if from < |items| {
      PositionsHold(items, x, from + 1);
      var rest := Positions(items, x, from + 1);
      var ps := Positions(items, x, from);
      var head: seq<nat> := if items[from] == x then [from] else [];
      assert ps == head + rest;
      forall k | 0 <= k < |ps|
        ensures from <= ps[k] < |items| && items[ps[k]] == x
      {
        if k < |head| {
          assert ps[k] == from;
        } else {
          assert ps[k] == rest[k - |head|];
        }
      }
    }
  }

  /** Every position of `x` is listed. */
  lemma {:induction false} PositionsComplete(items: seq<Item>, x: Item, from: nat)
    requires from <= |items|
    ensures forall i :: from <= i < |items| && items[i] == x ==> i in Positions(items, x, from)
    decreases |items| - from
  {
    if from < |items| {
      PositionsComplete(items, x, from + 1);
      var rest := Positions(items, x, from + 1);
      var ps := Positions(items, x, from);
      var head: seq<nat> := if items[from] == x then [from] else [];
      assert ps == head + rest;
      forall i | from <= i < |items| && items[i] == x
        ensures i in ps
      {
        if i == from {
          assert ps[0] == from;
        } else {
          assert i in rest;
          var k :| 0 <= k < |rest| && rest[k] == i;
          assert ps[|head| + k] == i;
        }
      }
    }
  }

  /** The positions are listed in ascending order. */
  lemma {:induction false} PositionsAscend(items: seq<Item>, x: Item, from: nat)
    requires from <= |items|
    ensures forall k :: 0 <= k < |Positions(items, x, from)| ==> from <= Positions(items, x, from)[k]
    ensures forall a, b :: 0 <= a < b < |Positions(items, x, from)| ==>
      Positions(items, x, from)[a] < Positions(items, x, from)[b]
    decreases |items| - from
  {
    if from < |items| {
      PositionsAscend(items, x, from + 1);
      var rest := Positions(items, x, from + 1);
      var ps := Positions(items, x, from);
      var head: seq<nat> := if items[from] == x then [from] else [];
      assert ps == head + rest;
      forall k | 0 <= k < |ps|
        ensures from <= ps[k]
      {
        if k >= |head| {
          assert ps[k] == rest[k - |head|];
        }
      }
      forall a, b | 0 <= a < b < |ps|
        ensures ps[a] < ps[b]
      {
        assert ps[b] == rest[b - |head|];
        if a >= |head| {
          assert ps[a] == rest[a - |head|];
        }
      }
    }
  }

  /** As many positions as occurrences. */
  lemma {:induction false} PositionsCount(items: seq<Item>, x: Item, from: nat)
    requires from <= |items|
    ensures |Positions(items, x, from)| == multiset(items[from..])[x]
    decreases |items| - from
  {
    if from < |items| {
      PositionsCount(items, x, from + 1);
      assert items[from..] == [items[from]] + items[from + 1..];
    }
  }

  /** Fails with `SentinelMissing` exactly when there is no sentinel and
      with `SentinelDuplicated` exactly when there are several; otherwise
      the sentinel is replaced where it stands and every other item, and
      the length, are unchanged. */
  function Finalize(items: seq<Item>, fork: string): (r: Result<seq<Item>>)
    ensures r == Err(SentinelMissing) <==> multiset(items)[Sentinel] == 0
    ensures r == Err(SentinelDuplicated) <==> multiset(items)[Sentinel] > 1
    ensures r.Ok? <==> multiset(items)[Sentinel] == 1
    ensures r.Ok? ==> |r.value| == |items|
    ensures r.Ok? ==> forall i :: 0 <= i < |items| ==>
      r.value[i] == if items[i] == Sentinel then ForkImport(fork) else items[i]
    ensures r.Ok? && fork != BaseFork ==> Sentinel !in r.value && ForkImport(fork) in r.value
  {
    var ps := Positions(items, Sentinel, 0);
    PositionsHold(items, Sentinel, 0);
    PositionsComplete(items, Sentinel, 0);
    PositionsCount(items, Sentinel, 0);
    assert items[0..] == items;
    if |ps| > 1 then
      Err(SentinelDuplicated)
    else if |ps| == 0 then
      Err(SentinelMissing)
    else
      var r := items[ps[0] := ForkImport(fork)];
      assert r[ps[0]] == ForkImport(fork);
      Ok(r)
  }
}
