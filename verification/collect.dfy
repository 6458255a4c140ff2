/** Symbol collection (src/bin/gen_spec.rs:34-38, driven at lines 184-187):
    the read-only `Visit` walk of the override module. `visit_item_fn`
    records the function's name and does not call the default walk, so
    nothing inside a function is seen; every other item is walked by
    default, so functions reached inside them (an inline `mod`, say) are
    recorded too. */
module SymbolCollector {
  import opened Ast

  /** A function contributes its own name and nothing from its block. */
  function CollectItem(it: Item): (names: set<string>)
    ensures it.Fn? ==> names == {it.name}
    ensures it.Use? ==> names == {}
  {
    match it
    case Fn(name, _, _, _) => {name}
    case Use(_, _, _) => {}
    case Other(_, _, inner) => CollectItems(inner)
  }

  function CollectItems(items: seq<Item>): (names: set<string>)
    ensures forall j :: 0 <= j < |items| && items[j].Fn? ==> items[j].name in names
  {
    if |items| == 0 then {}
    else
      var rest := CollectItems(items[1..]);
      assert forall j :: 1 <= j < |items| ==> items[j] == items[1..][j - 1];
      CollectItem(items[0]) + rest
  }

  /** The override set: empty when there is no override module. */
  function Overrides(file: Option<seq<Item>>): (names: set<string>)
    ensures file.None? ==> names == {}
  {
    match file
    case None => {}
    case Some(items) => CollectItems(items)
  }

  /** Reference definition: `name` is declared by a function the visitor
      reaches, that is, a top-level one or one nested in a non-function
      item, never one inside a function. */
  ghost predicate ItemDeclares(it: Item, name: string) {
    match it
    case Fn(n, _, _, _) => n == name
    case Use(_, _, _) => false
    case Other(_, _, inner) => Declares(inner, name)
  }

  ghost predicate Declares(items: seq<Item>, name: string) {
    exists j :: 0 <= j < |items| && ItemDeclares(items[j], name)
  }

  lemma {:induction false} CollectItemExact(it: Item, name: string)
    ensures name in CollectItem(it) <==> ItemDeclares(it, name)
    decreases it, 1
  {
    if it.Other? {
      CollectItemsExact(it.inner, name);
    }
  }

  /** The collected set holds exactly the names of the functions the
      visitor reaches. */
  lemma {:induction false} CollectItemsExact(items: seq<Item>, name: string)
    ensures name in CollectItems(items) <==> Declares(items, name)
    decreases items, 0
  {
    if |items| > 0 {
      CollectItemExact(items[0], name);
      CollectItemsExact(items[1..], name);
      if Declares(items, name) {
        var j :| 0 <= j < |items| && ItemDeclares(items[j], name);
        if j > 0 {
          assert items[1..][j - 1] == items[j];
        }
      }
      if Declares(items[1..], name) {
        var j :| 0 <= j < |items[1..]| && ItemDeclares(items[1..][j], name);
        assert items[j + 1] == items[1..][j];
      }
    }
  }

  /** For a module whose non-function items nest nothing, the set is the
      names of its top-level functions. */
  lemma {:induction false} FlatModuleCollectsTopLevel(items: seq<Item>)
    requires forall j :: 0 <= j < |items| && items[j].Other? ==> items[j].inner == []
    ensures CollectItems(items) == set j | 0 <= j < |items| && items[j].Fn? :: items[j].name
  {
    forall name
      ensures name in CollectItems(items) <==>
              exists j :: 0 <= j < |items| && items[j].Fn? && items[j].name == name
    {
      CollectItemsExact(items, name);
      assert !Declares([], name);
      if Declares(items, name) {
        var j :| 0 <= j < |items| && ItemDeclares(items[j], name);
        assert items[j].Fn?;
      }
    }
  }
}
