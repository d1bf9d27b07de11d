# Context-menu resolver and selection controller

A Dafny model of the two pieces of UI state logic in this repository.

**Context-menu resolver** (`src/composables/useContextMenuNEW.ts`). A WeakMap
(`menuMap`) associates DOM elements with menu lists. `bubble(reference)` walks
from the reference up its `parentElement` chain to the first element that has an
entry. It always walks past `document.body`. An unbound element carrying the
`preventContextMenu` marker stops the walk with `null`. Running off the top of the
chain yields a `{}` sentinel. `getMenu` turns that result into a list, and the
handle returned by `useContextMenuNew` has `set`, `restore` and `update` closures
that rebind the reference.

- `DomTree` abstracts the DOM as a finite parent map, a distinguished `body`,
  and a set of marked nodes. A `depth` rank witnesses acyclicity, and the walk
  terminates on it.
- `ContextMenu` holds `menuMap` with value semantics as a `Registry`. Its keys are
  elements or anonymous `{}` identities. Every `{}` literal is a new identity
  (`FreshKey`), so:
  - the default list stored at module initialisation can never be looked up;
  - `getMenu` of the sentinel is `undefined` (`None`);
  - `update` through a handle with a null reference writes under a key that no
    lookup can reach.
- `ContextMenuProps` proves that the recursive walk equals a scan of the
  ancestor-or-self chain. It then characterises each of the three outcomes of
  `bubble` with an if-and-only-if.

**Selection controller** (`src/composables/useSelect.ts`). The state is a
`selected` list plus the anchor `lastSelectedIndex`, where -1 means unset. The
operations are plain, ctrl and shift clicks, `setSelected`, `selectAll`, `clear`
and `isSelected`.

- Elements are compared with strict equality, so the element type is `T(==)`.
  `indexOf` finds the first occurrence and `includes` tests membership.
- The backing `items` list is an argument of every operation, because the caller
  may change it between calls.
- `JsArray.Slice` follows JavaScript's clamping of `slice`, because a stale anchor
  can lie beyond the end of `items`.
- `range`'s `throw` is modelled as an outcome, and the model proves it
  unreachable.

### Behaviour of the code worth knowing

- `getMenu` of the `{}` sentinel is `undefined` (`src/composables/useContextMenuNEW.ts:87`), so the list stored at line 41 is never shown.
- A shift click on an item absent from `items` leaves `selected` unchanged (`src/composables/useSelect.ts:48`). `range` returns without throwing, so the `catch` fallback never runs.
- `update` applies `fn` to the menu the handle resolved when it was created (`src/composables/useContextMenuNEW.ts:45`, line 62). It does not re-resolve the menu.

## Model

| member | source | states |
|---|---|---|
| DomTree.Chain | src/composables/useContextMenuNEW.ts:71-78 | the nodes the walk can visit: the reference, then each `parentElement` in turn, ending at a node whose parent is null; its length is bounded by the depth rank, so the walk terminates |
| ContextMenu.Init | src/composables/useContextMenuNEW.ts:16-41 | the map starts with no element entry; the default list is stored under an anonymous key, and every anonymous key is below the allocation counter |
| ContextMenu.FreshKey | src/composables/useContextMenuNEW.ts:87 | a `{}` literal evaluated now is not a key of the map |
| ContextMenu.Walk | src/composables/useContextMenuNEW.ts:71-80 | a node the loop stops at has an entry, is not `document.body`, and is an ancestor-or-self of the start |
| ContextMenu.Bubble | src/composables/useContextMenuNEW.ts:68-81 | a null reference bubbles to the sentinel; a reference with its own entry that is not the body is returned without consulting its marker or its ancestors; an unbound marked reference yields `null`; a returned node is an ancestor-or-self of the reference, has an entry and is never the body |
| ContextMenu.GetMenu | src/composables/useContextMenuNEW.ts:83-89 | `null` gives the empty list; the sentinel gives `undefined`; a found element gives its stored list |
| ContextMenu.UseContextMenu | src/composables/useContextMenuNEW.ts:43-46 | the handle keeps the reference; a null reference's menu is `undefined`; a reference with its own non-body entry gets that entry |
| ContextMenu.Set | src/composables/useContextMenuNEW.ts:55-60 | a null reference leaves the map unchanged; otherwise exactly the reference's entry changes, to `items`; the re-resolved menu of a non-body reference is `items` |
| ContextMenu.Restore | src/composables/useContextMenuNEW.ts:49-54 | as `set`, with a copy of the default list: a null reference leaves the map unchanged, otherwise exactly the reference's entry changes; the returned handle keeps the reference, and a non-body reference re-resolves to the default list |
| ContextMenu.Update | src/composables/useContextMenuNEW.ts:61-63 | exactly one entry changes, to `fn` of the handle's captured menu; with a null reference its key is a new `{}` that was not in the map |
| ContextMenuProps.WalkIsChainScan | src/composables/useContextMenuNEW.ts:71-80 | the loop's result equals a scan of the ancestor-or-self chain up to the first node it does not pass through |
| ContextMenuProps.BubbleFoundIff | src/composables/useContextMenuNEW.ts:73-80 | `bubble` returns `m` iff `m` is on the chain, has an entry, is not the body, and every node before it was unbound (or the body) and unmarked |
| ContextMenuProps.BubbleSuppressedIff | src/composables/useContextMenuNEW.ts:73-76 | `bubble` returns `null` iff, before any node stops the walk, it visits an unbound (or body) node that carries the marker |
| ContextMenuProps.BubbleSentinelIff | src/composables/useContextMenuNEW.ts:73-80 | `bubble` returns the sentinel iff it passes through every node of the chain |
| ContextMenuProps.BodyIsWalkedPast | src/composables/useContextMenuNEW.ts:73 | an unmarked body resolves like its parent, even when the body has its own entry |
| ContextMenuProps.MenuIgnoresAnonKeys | src/composables/useContextMenuNEW.ts:68-88 | two maps that agree on every element key resolve every reference to the same menu; entries under `{}` keys are never read |
| ContextMenuProps.NullUpdateIsInvisible | src/composables/useContextMenuNEW.ts:62 | `update` on a null-reference handle changes no later resolution of any reference |
| ContextMenuProps.DefaultListUnreachable | src/composables/useContextMenuNEW.ts:83-88 | before any element is bound, every menu is `undefined` or empty, never the default list |
| ContextMenuProps.SetIsInherited | src/composables/useContextMenuNEW.ts:55-60 | after `set(items)` on a non-body element, an unbound unmarked child resolves to `items` |
| ContextMenuProps.UpdateThenResolve | src/composables/useContextMenuNEW.ts:61-63 | after `update(fn)` on a non-body element, that element resolves to `fn` of the menu captured at handle creation |
| ContextMenuProps.MarkedParentSuppresses | src/composables/useContextMenuNEW.ts:74-75 | a marked unbound parent gives an unbound child, marked or not, the empty menu, whatever the parent's ancestors hold |
| JsArray.IndexOf | src/composables/useSelect.ts:26 | the result is -1 iff the element is absent; otherwise it indexes the element and no earlier position holds it |
| JsArray.Slice | src/composables/useSelect.ts:53 | both ends are clamped as JavaScript does; the result is the run of elements between them, empty when they cross |
| JsArray.RemoveAt | src/composables/useSelect.ts:36 | removing one position shifts the later elements down and drops exactly that element from the multiset |
| UseSelect.Init | src/composables/useSelect.ts:4-5 | nothing selected and the anchor unset |
| UseSelect.GetIndex | src/composables/useSelect.ts:60-66 | -1 exactly when the item is absent from `items`; otherwise the first index holding the item |
| UseSelect.Toggle | src/composables/useSelect.ts:32-43 | without multiselect the result is `[item]`; with it, an absent item is appended, a present item loses its first occurrence (multiset minus one, order kept), and every other element keeps its membership |
| UseSelect.Range | src/composables/useSelect.ts:45-54 | never throws; an item absent from `items` leaves `selected` unchanged; otherwise `selected` becomes the inclusive run of `items` from min to max of the anchor (unset read as 0) and the item's index, clamped at the end, and contains the item |
| UseSelect.Select | src/composables/useSelect.ts:7-30 | afterwards the anchor equals `indexOf(item)`: the item's first index in `items`, or -1 iff absent; a plain click gives exactly `[item]`; a shift click on an absent item keeps `selected`, and on a present one gives the inclusive run of `items` from min to max of the anchor (unset read as 0) and the item's index, clamped at the end; a ctrl click appends an unselected item or removes the first occurrence of a selected one, order kept (multiset minus one), and keeps every other element's membership |
| UseSelect.SetSelected | src/composables/useSelect.ts:56-58 | `selected` becomes the argument and the anchor is untouched |
| UseSelect.SelectAll | src/composables/useSelect.ts:68-71 | `selected` holds `items` element by element and the anchor is reset |
| UseSelect.Clear | src/composables/useSelect.ts:73-77 | `selected` is empty and the anchor is reset |
| UseSelect.IsSelected | src/composables/useSelect.ts:79-81 | true iff some position of `selected` holds the item, which is when `indexOf` finds it |
| UseSelectProps.SelectKeepsNoDup | src/composables/useSelect.ts:7-54 | with duplicate-free `items` and `selected`, every click leaves `selected` duplicate-free |
| UseSelectProps.SelectAllAndClearKeepNoDup | src/composables/useSelect.ts:68-77 | `selectAll` on duplicate-free `items`, and `clear`, give duplicate-free selections |
| UseSelectProps.CtrlClickFlipsMembership | src/composables/useSelect.ts:33-39 | on a duplicate-free selection a ctrl click makes the item selected iff it was not |
| UseSelectProps.CtrlClickTwiceRestores | src/composables/useSelect.ts:33-39 | two ctrl clicks on an unselected item give back the original selection |
| UseSelectProps.CtrlClickTwiceKeepsContents | src/composables/useSelect.ts:33-39 | two ctrl clicks on a selected item of a duplicate-free selection keep its multiset of elements |
| UseSelectProps.ShiftClickWithoutAnchor | src/composables/useSelect.ts:45-53 | with the anchor unset, a shift click selects `items` from the start through the item |
| UseSelectProps.ShiftClickSpansAnchor | src/composables/useSelect.ts:45-53 | with an in-range anchor, a shift click gives exactly `items[min..max + 1]` of the anchor and the item's index, so it holds both end items and has length max - min + 1 |
| UseSelectProps.SetSelectedSameIsNoOp | src/composables/useSelect.ts:56-58 | `setSelected(selected)` changes neither the state nor any membership answer |
| UseSelectProps.SelectAllThenClearMembership | src/composables/useSelect.ts:68-81 | after `selectAll` membership is membership in `items`; after `clear` nothing is selected |
| UseSelectProps.RangeExample | src/composables/useSelect.ts:11-29 | on `a b c d e`, a plain click on `b` anchors at 1 and a shift click on `d` selects `b c d` |
| UseSelectProps.ShiftClickOnAbsentItemKeepsSelection | src/composables/useSelect.ts:11-49 | for every state, a shift click on an item absent from `items` keeps `selected` and clears the anchor; it differs from a plain click whenever `selected` was not already `[item]` |
| UseSelectProps.ShiftClickOnAbsentItemExample | src/composables/useSelect.ts:11-49 | on selection `a b` and list `a b c d e`, a shift click on `z` keeps `a b`, where a plain click gives `z` |
| UseSelectProps.StaleAnchorIsClamped | src/composables/useSelect.ts:45-53 | an anchor left past the end of a shrunken list is clamped by `slice` |

## Left out

- `src/components/blocks/colors.ts`: static colour tables with no behaviour.
- `src/composables/useContextMenu.ts`: a stub whose only effect is logging.
- Vue reactivity (`reactive`, `ref`): wrappers are plain values.
- WeakMap garbage collection: the map is an ordinary finite map. Only the fresh identity of `{}` keys is modelled.
- Aliasing: the model uses value semantics, so it misses the effects of shared arrays.
  - `set` stores the caller's array, and `setSelected` keeps the caller's list. A later in-place `splice`/`push` by a ctrl click would also change that caller-owned array.
  - A handle's `menu` is the very array stored for the element it resolved to (`src/composables/useContextMenuNEW.ts:87`), which may be an ancestor's. An `update` function (line 62) that mutates its argument in place therefore also rewrites that ancestor's entry. If it returns its argument, the reference and the ancestor end up sharing one array.
- Real DOM objects and `dataset`: replaced by the parent map, `body` and the marked set. Parent chains are assumed acyclic (`DomTree.Valid`), as the DOM guarantees.
- `console.log` / `console.warn` calls: no effect on state.
- `action` callbacks are opaque tokens. Titles, icons, shortcuts and labels are inert strings.
- The two `{}` lookups of `getMenu` on the sentinel are one lookup under `FreshKey`. Both keys are fresh and neither is stored, so lookups do not advance the allocation counter.
- Strict equality is Dafny equality on `T(==)`. `NaN`, where `indexOf` and `includes` differ, is not modelled.
- `document.body` is assumed non-null, which holds once the application is mounted. If it were null, the condition at `src/composables/useContextMenuNEW.ts:73` would hold again when the walk runs off the top of the chain. Line 74 would then read `dataset` of null and throw; the model does not cover that.
