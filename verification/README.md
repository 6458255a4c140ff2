# gen-spec: the fork-module generator, modelled in Dafny

`gen_spec` derives a fork's consensus-spec module (`altair`, `bellatrix`) from the
`phase0` base module of the same name. It parses the base module and, if there is
one, the fork's override module. It then rewrites the base module's item list in
four passes that always run in the same order:

1. **Symbol collection.** Gather the names of the functions the override module defines.
2. **RemoveOverrides.** Drop every top-level base function that an override redefines,
   and every function whose name starts with `get_matching_`.
3. **FixGenerics.** Rename the identifier `PENDING_ATTESTATIONS_BOUND` to
   `SYNC_COMMITTEE_SIZE` everywhere. Give every angle-bracketed argument list of a path
   segment whose name contains `BeaconBlock` a trailing `SYNC_COMMITTEE_SIZE` argument.
4. **ImportOverrides.** Splice in one `pub use crate::<fork>::<src>_<fork>::<name> as <name>;`
   per override name, just after the first run of `use` items.
5. **Finalize.** Replace the one sentinel `use crate::phase0 as spec;` with
   `use crate::<fork> as spec;`.

The model works on the parsed tree, not on text.

- `Item` is a function, a `use`, or any other item.
  - A function carries its name, its other identifiers, its type paths and the items
    nested in its block.
  - Any other item carries its identifiers, its type paths and the items nested in it.
- A path is a sequence of segments. A segment is bare or carries an angle-bracketed
  list of argument segments.

Each pass is a pure function, or a method that mirrors the source's loop. The
methods are proved equal to a reference definition.

- `ast.dfy` (`Ast`): the tree, the errors, the constants from lines 12-14 and 177,
  and the import items the passes build.
- `collect.dfy` (`SymbolCollector`): symbol collection.
- `remove_overrides.dfy` (`RemovePass`): the index-offset deletion loop, proved equal
  to a filter.
- `fix_generics.dfy` (`GenericsPass`): the generic walk. The `extend_for_block` flag is
  threaded through it as the boolean half of every result.
- `import_overrides.dfy` (`ImportPass`): the insertion point and the splice. The
  `HashSet` iteration order is a parameter: any enumeration of the set without repeats.
- `finalize.dfy` (`FinalizePass`): sentinel replacement.
- `assemble.dfy` (`GenSpec`): the pipeline, and the properties of a whole run.

The source's panics become `Err` results:

- `NoInsertionPoint` is the `unwrap` at line 129.
- `SentinelDuplicated` is the explicit panic at line 156.
- `SentinelMissing` is the out-of-bounds `target_index[0]` at line 158.

Behaviours of the code that the model keeps as they are:

- FixGenerics runs for every fork: nothing at lines 193-195 looks at the fork.
- The insertion point is computed on the module left after removal, not on the
  base. `GenSpec.SplicePointTakenAfterRemoval` exhibits a base where the two differ.
- The code skips any leading non-`use` items before the first `use` run. A module
  fails only if it has no `use` items at all, or if its first `use` run lasts to the
  end. This holds even when there are no overrides.
- Removal is by index with an offset correction, not by a filter.
  `RemovePass.RemoveOverrides` proves that the two agree.
- The `extend_for_block` flag is set to `false` after a triggering list, not restored
  to its old value. The default walk at line 90 visits an already extended list a
  second time. So while the flag is up, nested lists are extended too, and a trigger
  nested in a trigger gets two extra arguments.
  (`GenericsPass.NestedTriggerAppendsTwice`)
- With no override module, the base is still changed by more than the sentinel: its
  `get_matching_` functions go and FixGenerics applies.
  (`GenSpec.NoOverridesImportsNothing`)

## Model

All source paths are in `src/bin/gen_spec.rs`.

| member | source | states |
|---|---|---|
| SymbolCollector.CollectItem | src/bin/gen_spec.rs:34-38 | A function contributes exactly its own name, whatever its block holds. A `use` contributes nothing. |
| SymbolCollector.CollectItems | src/bin/gen_spec.rs:34-38 | Every top-level function's name is in the collected set. |
| SymbolCollector.CollectItemsExact | src/bin/gen_spec.rs:34-38 | A name is collected exactly when a function with that name is reached: at top level, or nested in a non-function item, but never inside a function's block. |
| SymbolCollector.FlatModuleCollectsTopLevel | src/bin/gen_spec.rs:35-38 | For an override module whose other items nest nothing, the set is exactly the names of its top-level functions. |
| SymbolCollector.Overrides | src/bin/gen_spec.rs:184-187 | Without an override module the override set is empty. |
| RemovePass.Dropped | src/bin/gen_spec.rs:100-112 | A function is dropped exactly when it is overridden or its name starts with `get_matching_` (the prefix set at line 177). Nothing but a function is ever dropped. |
| RemovePass.DropIndices | src/bin/gen_spec.rs:96-114 | The collected indices are ascending, each names a function to drop, and every function to drop is listed. |
| RemovePass.Delete | src/bin/gen_spec.rs:117 | `Vec::remove` shortens the vector by one. Items before the index stay in place, and items after it shift left by one, keeping their order. Exactly one occurrence of the removed item goes. |
| RemovePass.RemovingSteps | src/bin/gen_spec.rs:116-118 | At the k-th deletion, `index - removed` is in bounds. It names the very item the index named in the original module, and deleting it advances the loop state: filtered up to the next listed index, untouched after it. |
| RemovePass.RemoveOverrides | src/bin/gen_spec.rs:115-119 | Deleting at `index - removed` for each listed index gives exactly the filter `Retain`. |
| RemovePass.RetainContents | src/bin/gen_spec.rs:100-112 | After removal, a dropped item has no occurrences left. Every other item keeps its number of occurrences, so no `use` or other non-function item is lost. |
| RemovePass.RetainKeepsOrder | src/bin/gen_spec.rs:96-119 | Survivors keep their relative order: filtering a split module is filtering the front, then the back. |
| GenericsPass.RenameIdent | src/bin/gen_spec.rs:59-71 | `PENDING_ATTESTATIONS_BOUND` becomes `SYNC_COMMITTEE_SIZE`, and every other identifier is returned unchanged. No result is `PENDING_ATTESTATIONS_BOUND`, so applying the rename twice changes nothing more. |
| GenericsPass.VisitSeg | src/bin/gen_spec.rs:73-91 | Segment depth and kind are kept. A walk entered with the flag down leaves it down. |
| GenericsPass.VisitAngle | src/bin/gen_spec.rs:42-56 | The list gains exactly one argument when the flag is up and none when it is down. Depth is kept, and a walk entered with the flag down leaves it down. |
| GenericsPass.WalkSegs | src/bin/gen_spec.rs:55 | The default walk over a list keeps its length and depth. Entered with the flag down, it leaves it down. |
| GenericsPass.FixItem | src/bin/gen_spec.rs:165 | Each item keeps its kind: a function stays a function and a `use` stays a `use`. |
| GenericsPass.FixItems | src/bin/gen_spec.rs:165 | The walk of an item list keeps its length and the kind of the item at every position. |
| GenericsPass.FixGenerics | src/bin/gen_spec.rs:193-195 | The whole pass keeps the module's length and the kind of the item at every position. So it never moves the splice point of the next pass. |
| GenericsPass.FixGenericsRewrites | src/bin/gen_spec.rs:42-91 | Every item keeps its kind and position, and every identifier is renamed. Every list keeps its original arguments, rewritten the same way, followed only by `SYNC_COMMITTEE_SIZE`. Afterwards `PENDING_ATTESTATIONS_BOUND` occurs nowhere. |
| GenericsPass.TriggerFreeOnlyRenamed | src/bin/gen_spec.rs:73-91 | A segment with no `BeaconBlock` trigger anywhere in it, visited outside a triggering list, is only renamed, and the flag stays down. |
| GenericsPass.FlatTriggerAppendsOnce | src/bin/gen_spec.rs:77-82 | A triggering segment with a flat list comes out with its arguments renamed and exactly one trailing `SYNC_COMMITTEE_SIZE`, whatever the flag was before. The flag is down afterwards. |
| GenericsPass.NestedTriggerAppendsTwice | src/bin/gen_spec.rs:80-90 | When a trigger's only argument is a trigger with a flat list, the inner list gains two `SYNC_COMMITTEE_SIZE` arguments and the outer list gains one. |
| GenericsPass.FixGenericsKeepsSentinels | src/bin/gen_spec.rs:59-71 | The pass neither creates nor destroys a sentinel import. |
| ImportPass.SkipNonUse | src/bin/gen_spec.rs:127 | Returns the first position at or after the start that holds a `use`, or the length if none does. Everything skipped is not a `use`. |
| ImportPass.SkipUse | src/bin/gen_spec.rs:128 | Returns the first position at or after the start that holds anything but a `use`, or the length if none does. Everything skipped is a `use`. |
| ImportPass.InsertionPoint | src/bin/gen_spec.rs:123-129 | The index found is the unique position just past the first run of `use` items that holds a non-`use` item. There is none exactly when no non-`use` item follows the first `use` run. |
| ImportPass.Imports | src/bin/gen_spec.rs:130-138 | One item per name in the given order, each a public `use` aliased to that name. |
| ImportPass.ImportsExact | src/bin/gen_spec.rs:130-136 | For an enumeration of the override set there is one import per name, exactly one for each name, and no other imports. |
| ImportPass.EnumerationExists | src/bin/gen_spec.rs:130 | Every override set has an iteration order, so the loop's order parameter can always be supplied. |
| ImportPass.Splice | src/bin/gen_spec.rs:122-139 | The pass fails with `NoInsertionPoint` exactly when there is no splice point, whatever the overrides. Otherwise the result is the prefix, then the imports, then the rest of the module, unchanged. |
| ImportPass.ImportOverrides | src/bin/gen_spec.rs:129-139 | Inserting the k-th import at `insertion_index + k` gives exactly `Splice`. |
| FinalizePass.Positions | src/bin/gen_spec.rs:143-154 | At most one position per item from the start index on. What the positions are is stated by `FinalizePass.PositionsHold`, `FinalizePass.PositionsComplete` and `FinalizePass.PositionsAscend`. |
| FinalizePass.PositionsHold | src/bin/gen_spec.rs:143-154 | Every collected position holds the item sought (the sentinel, at line 148). |
| FinalizePass.PositionsComplete | src/bin/gen_spec.rs:143-154 | Every position of the item sought is collected. |
| FinalizePass.PositionsAscend | src/bin/gen_spec.rs:143-154 | The positions are collected in ascending order, from the start index on. |
| FinalizePass.PositionsCount | src/bin/gen_spec.rs:143-155 | The number of positions equals the number of sentinel occurrences. |
| FinalizePass.Finalize | src/bin/gen_spec.rs:141-163 | Succeeds exactly when there is one sentinel. Fails with `SentinelMissing` exactly when there is none, and with `SentinelDuplicated` exactly when there are several. On success the sentinel is replaced in place by the fork's import, and the length and all other items are unchanged. |
| GenSpec.Pipeline | src/bin/gen_spec.rs:189-203 | The four passes composed in source order. A successful result is as long as the module left after removal plus one import per entry of `order` (one per override name when `order` enumerates the set, as `GenSpec.Assemble` requires). |
| GenSpec.Assemble | src/bin/gen_spec.rs:169-206 | The driver runs collection, removal, the generic walk, the splice and Finalize in that order, with no fork check. It equals the composed passes. After success every override is re-exported and the sentinel is gone. |
| GenSpec.PipelineErrors | src/bin/gen_spec.rs:123-158 | Each failure is characterised exactly, in pass order. `NoInsertionPoint` iff the module after removal has no splice point. Otherwise, `SentinelMissing` iff the base has no sentinel, and `SentinelDuplicated` iff it has several. |
| GenSpec.PipelineReexports | src/bin/gen_spec.rs:130-139 | After a successful run, every override name is re-exported from the fork's override module. |
| GenSpec.PipelineRemovesOverridden | src/bin/gen_spec.rs:96-119 | After a successful run, no top-level function is overridden or carries the `get_matching_` prefix. The exception is a function named `SYNC_COMMITTEE_SIZE` by the rename. |
| GenSpec.NoOverridesImportsNothing | src/bin/gen_spec.rs:184-187 | Without an override module nothing is imported. A successful output has, position by position, the rewritten items of the base minus its `get_matching_` functions, with only the sentinel replaced by the fork's import. |
| GenSpec.SplicePointTakenAfterRemoval | src/bin/gen_spec.rs:123-129 | A base whose only item after its `use` run is an expired helper has a splice point, yet the run fails, because removal happens first. |
| GenSpec.OverrideScenario | src/bin/gen_spec.rs:169-206 | A concrete run: an expired helper and an overridden function are both dropped. The sentinel is retargeted, and one re-export is placed right after the `use` run. |

## Left out

- `render` and `main` (lines 208-269) are left out. They do file I/O and path
  building, treat a missing override file as no overrides (modelled as `None`), and
  write the banner.
- `syn::parse_str` and `prettyplease::unparse` are left out, because the model works
  on the parsed tree. Parse failures and the `unwrap`s on fixed strings therefore do
  not arise.
- `HashSet`'s concrete iteration order is left out, because it is randomly seeded. It
  is the `order` parameter, required to enumerate the set.
- Generic arguments are modelled as single path segments. Array, tuple, reference and
  multi-segment argument types are not represented, and neither are const generics or
  lifetimes.
- Items are abstracted:
  - A `use` item is one path plus an optional alias. Braced groups and globs are not
    represented.
  - An item's identifiers, type paths and nested items are separate lists. Their
    interleaving inside the item is not represented. This matters only for the flag,
    and the flag is proved to be down again after each top-level path.
- The default walks of the RemoveOverrides, ImportOverrides and Finalize passes
  (line 165) are left out, because they change nothing: every `VisitMut` override
  falls through to the default when the pass is not FixGenerics.
- `src/bellatrix/presets/mainnet.rs` and `src/ssz/byte_list.rs` are not part of this
  model. The first holds only constants and type aliases. The second delegates to
  library code not shown.
- GenSpec.PipelineReexports: states that each override is re-exported. It does not
  state that each is re-exported exactly once in the whole output. The inserted
  imports are unique (`ImportPass.ImportsExact`), but the base may already contain an
  identical `pub use`.
- FinalizePass.Finalize: states that the fork import is present and the sentinel
  gone. It does not state that the fork import occurs only once, because the base
  may already contain `use crate::<fork> as spec;`. It also states nothing about the
  sentinel when the fork is `phase0`, where the replacement equals the sentinel.
- GenSpec.PipelineRemovesOverridden: exempts functions named `SYNC_COMMITTEE_SIZE`.
  Removal runs before the rename, so a base function named
  `PENDING_ATTESTATIONS_BOUND` survives under the new name.
- GenericsPass.FlatTriggerAppendsOnce: exact argument counts are stated only for flat
  lists and for one level of nesting (`GenericsPass.NestedTriggerAppendsTwice`). For
  deeper nesting only the general shape in `GenericsPass.FixGenericsRewrites` is
  stated.
