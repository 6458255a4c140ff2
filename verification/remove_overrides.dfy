/** The RemoveOverrides pass (src/bin/gen_spec.rs:95-120): drop every
    top-level function that the override module redefines or whose name
    starts with `get_matching_` (line 177). The source collects the
    positions to drop and then deletes them one by one at `index - removed`;
    `RemoveOverrides` is that loop and `Retain` the filter it amounts to. */
module RemovePass {
  import opened Ast

  /** The test at lines 100-112: a function is dropped exactly when it is
      overridden or expired; nothing else ever is. */
  predicate Dropped(it: Item, overrides: set<string>): (r: bool)
    ensures r ==> it.Fn?
    ensures it.Fn? && it.name in overrides ==> r
    ensures it.Fn? && StartsWith(it.name, ExpirePrefix) ==> r
    ensures it.Fn? && it.name !in overrides && !StartsWith(it.name, ExpirePrefix) ==> !r
  {
    it.Fn? && (it.name in overrides || StartsWith(it.name, ExpirePrefix))
  }

  /** Reference definition: keep the items that are not dropped, in order. */
  function Retain(items: seq<Item>, overrides: set<string>): (r: seq<Item>)
    ensures |r| <= |items|
  {
    if |items| == 0 then []
    else (if Dropped(items[0], overrides) then [] else [items[0]]) + Retain(items[1..], overrides)
  }

  lemma {:induction false} RetainAppend(a: seq<Item>, b: seq<Item>, overrides: set<string>)
    ensures Retain(a + b, overrides) == Retain(a, overrides) + Retain(b, overrides)
    decreases |a|
  {
    if |a| == 0 {
      assert a + b == b;
    } else {
      var head: seq<Item> := if Dropped(a[0], overrides) then [] else [a[0]];
      assert (a + b)[0] == a[0];
      assert (a + b)[1..] == a[1..] + b;
      RetainAppend(a[1..], b, overrides);
      assert Retain(a + b, overrides) == head + Retain(a[1..] + b, overrides);
      assert Retain(a, overrides) == head + Retain(a[1..], overrides);
      assert head + (Retain(a[1..], overrides) + Retain(b, overrides)) ==
             (head + Retain(a[1..], overrides)) + Retain(b, overrides);
    }
  }

  /** A stretch with nothing to drop is kept whole. */
  lemma {:induction false} RetainNoneDropped(a: seq<Item>, overrides: set<string>)
    requires forall j :: 0 <= j < |a| ==> !Dropped(a[j], overrides)
    ensures Retain(a, overrides) == a
    decreases |a|
  {
    if |a| > 0 {
      RetainNoneDropped(a[1..], overrides);
    }
  }

  /** What the filter keeps: each item keeps its number of occurrences
      unless it is dropped, in which case none remain; in particular no
      `use` or other non-function item is ever removed. */
  lemma {:induction false} RetainContents(items: seq<Item>, overrides: set<string>, x: Item)
    ensures multiset(Retain(items, overrides))[x] ==
            if Dropped(x, overrides) then 0 else multiset(items)[x]
    decreases |items|
  {
    if |items| > 0 {
      RetainContents(items[1..], overrides, x);
      assert items == [items[0]] + items[1..];
    }
  }

  /** Survivors keep their relative order: the filter of a module split
      anywhere is the filter of the front followed by that of the back. */
  lemma RetainKeepsOrder(items: seq<Item>, k: nat, overrides: set<string>)
    requires k <= |items|
    ensures Retain(items, overrides) == Retain(items[..k], overrides) + Retain(items[k..], overrides)
  {
    assert items == items[..k] + items[k..];
    RetainAppend(items[..k], items[k..], overrides);
  }

  /** `indices` lists, in ascending order, exactly the positions of the
      items to drop. */
  ghost predicate DropPositions(items: seq<Item>, overrides: set<string>, indices: seq<nat>) {
    && (forall a, b :: 0 <= a < b < |indices| ==> indices[a] < indices[b])
    && (forall a :: 0 <= a < |indices| ==> indices[a] < |items| && Dropped(items[indices[a]], overrides))
    && (forall j :: 0 <= j < |items| && Dropped(items[j], overrides) ==> j in indices)
  }

  /** Between two consecutive listed positions nothing is dropped. */
  lemma GapKept(items: seq<Item>, overrides: set<string>, indices: seq<nat>, k: nat, j: nat)
    requires DropPositions(items, overrides, indices)
    requires k <= |indices|
    requires (if k == 0 then 0 else indices[k - 1] + 1) <= j
    requires j < (if k < |indices| then indices[k] else |items|)
    ensures !Dropped(items[j], overrides)
  {
    forall m | 0 <= m < |indices|
      ensures indices[m] != j
    {
      if m < k {
        assert indices[m] <= indices[k - 1];
      } else {
        assert indices[k] <= indices[m];
      }
    }
  }

  lemma StepRemoval(items: seq<Item>, overrides: set<string>, q: nat, q': nat)
    requires q < q' <= |items|
    requires Dropped(items[q], overrides)
    requires forall j :: q < j < q' ==> !Dropped(items[j], overrides)
    ensures Retain(items[..q'], overrides) == Retain(items[..q], overrides) + items[q + 1..q']
  {
    assert items[..q'] == items[..q] + [items[q]] + items[q + 1..q'];
    RetainAppend(items[..q] + [items[q]], items[q + 1..q'], overrides);
    RetainAppend(items[..q], [items[q]], overrides);
    RetainNoneDropped(items[q + 1..q'], overrides);
  }

  /** Lines 96-114: the ascending positions of the items to drop. */
  method DropIndices(items: seq<Item>, overrides: set<string>) returns (indices: seq<nat>)
    ensures DropPositions(items, overrides, indices)
  {
    indices := [];
    for i := 0 to |items|
      invariant forall a, b :: 0 <= a < b < |indices| ==> indices[a] < indices[b]
      invariant forall a :: 0 <= a < |indices| ==> indices[a] < i && Dropped(items[indices[a]], overrides)
      invariant forall j :: 0 <= j < i && Dropped(items[j], overrides) ==> j in indices
    {
      if Dropped(items[i], overrides) {
        indices := indices + [i];
      }
    }
  }

  /** The state of the deletion loop after `k` deletions: everything before
      the next listed position `q` is filtered, everything from `q` on is
      still as in the input, and exactly `k` items have gone. */
  ghost predicate Removing(items: seq<Item>, overrides: set<string>, indices: seq<nat>,
                           k: nat, r: seq<Item>)
    requires k <= |indices|
    requires DropPositions(items, overrides, indices)
  {
    var q := if k < |indices| then indices[k] else |items|;
    && r == Retain(items[..q], overrides) + items[q..]
    && |Retain(items[..q], overrides)| == q - k
  }

  lemma RemovingStarts(items: seq<Item>, overrides: set<string>, indices: seq<nat>)
    requires DropPositions(items, overrides, indices)
    ensures Removing(items, overrides, indices, 0, items)
  {
    var q := if 0 < |indices| then indices[0] else |items|;
    forall j | 0 <= j < q
      ensures !Dropped(items[..q][j], overrides)
    {
      GapKept(items, overrides, indices, 0, j);
    }
    RetainNoneDropped(items[..q], overrides);
    assert items == items[..q] + items[q..];
  }

  /** Deleting the element just after `front`. */
  lemma DeleteAfter(front: seq<Item>, rest: seq<Item>)
    requires |rest| > 0
    ensures (front + rest)[|front|] == rest[0]
    ensures (front + rest)[..|front|] + (front + rest)[|front| + 1..] == front + rest[1..]
  {
    assert (front + rest)[..|front|] == front;
    assert (front + rest)[|front| + 1..] == rest[1..];
  }

  /** The deletion of the item at `q`, seen without the position list. */
  lemma Advance(items: seq<Item>, overrides: set<string>, k: nat, q: nat, q': nat, r: seq<Item>)
    requires q < q' <= |items|
    requires Dropped(items[q], overrides)
    requires forall j :: q < j < q' ==> !Dropped(items[j], overrides)
    requires r == Retain(items[..q], overrides) + items[q..]
    requires |Retain(items[..q], overrides)| == q - k
    ensures q - k < |r| && r[q - k] == items[q]
    ensures r[..q - k] + r[q - k + 1..] == Retain(items[..q'], overrides) + items[q'..]
    ensures |Retain(items[..q'], overrides)| == q' - (k + 1)
  {
    var front := Retain(items[..q], overrides);
    var kept := items[q + 1..q'];
    var back := items[q'..];
    StepRemoval(items, overrides, q, q');
    DeleteAfter(front, items[q..]);
    assert items[q..][1..] == kept + back;
    assert front + (kept + back) == (front + kept) + back;
  }

  /** `Vec::remove`: the vector without its element at `i`. */
  function Delete(r: seq<Item>, i: nat): (r': seq<Item>)
    requires i < |r|
    ensures |r'| == |r| - 1
    ensures multiset(r') + multiset{r[i]} == multiset(r)
    ensures forall j :: 0 <= j < i ==> r'[j] == r[j]
    ensures forall j :: i <= j < |r'| ==> r'[j] == r[j + 1]
  {
    assert r == r[..i] + [r[i]] + r[i + 1..];
    r[..i] + r[i + 1..]
  }

  /** Between the k-th listed position and the next one (or the end)
      nothing is dropped. */
  lemma GapAfter(items: seq<Item>, overrides: set<string>, indices: seq<nat>, k: nat)
    requires DropPositions(items, overrides, indices)
    requires k < |indices|
    ensures var q' := if k + 1 < |indices| then indices[k + 1] else |items|;
      && indices[k] < q' <= |items|
      && Dropped(items[indices[k]], overrides)
      && forall j :: indices[k] < j < q' ==> !Dropped(items[j], overrides)
  {
    var q' := if k + 1 < |indices| then indices[k + 1] else |items|;
    forall j | indices[k] < j < q'
      ensures !Dropped(items[j], overrides)
    {
      GapKept(items, overrides, indices, k + 1, j);
    }
  }

  /** One deletion at `index - removed` moves the loop from `k` to `k + 1`. */
  lemma RemovingSteps(items: seq<Item>, overrides: set<string>, indices: seq<nat>,
                      k: nat, r: seq<Item>)
    requires DropPositions(items, overrides, indices)
    requires k < |indices|
    requires Removing(items, overrides, indices, k, r)
    ensures indices[k] - k < |r|
    ensures r[indices[k] - k] == items[indices[k]]
    ensures Removing(items, overrides, indices, k + 1, Delete(r, indices[k] - k))
  {
    var q := indices[k];
    var q' := if k + 1 < |indices| then indices[k + 1] else |items|;
    GapAfter(items, overrides, indices, k);
    Advance(items, overrides, k, q, q', r);
    assert Delete(r, q - k) == r[..q - k] + r[q - k + 1..];
  }

  /** After the last deletion the vector is the whole filter. */
  lemma RemovingDone(items: seq<Item>, overrides: set<string>, indices: seq<nat>, r: seq<Item>)
    requires DropPositions(items, overrides, indices)
    requires Removing(items, overrides, indices, |indices|, r)
    ensures r == Retain(items, overrides)
  {
    assert items[..|items|] == items;
    assert items[|items|..] == [];
  }

  /** The source's loop (lines 96-119): collect the positions to drop, then
      delete each at `index - removed`. The invariant shows that position
      always names the same item in the shrinking vector (so `Vec::remove`
      never panics) and that the outcome is exactly the filter. */
  method RemoveOverrides(items: seq<Item>, overrides: set<string>) returns (r: seq<Item>)
    ensures r == Retain(items, overrides)
  {
    var indices := DropIndices(items, overrides);
    r := items;
    var removed := 0;
    RemovingStarts(items, overrides, indices);
    for k := 0 to |indices|
      invariant removed == k
      invariant Removing(items, overrides, indices, k, r)
    {
      var index := indices[k];
      RemovingSteps(items, overrides, indices, k, r);
      r := Delete(r, index - removed);
      removed := removed + 1;
    }
    RemovingDone(items, overrides, indices, r);
  }
}
