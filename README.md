# ReorderableForEach drag-to-reorder, modelled in Dafny

`ReorderableForEach` is a SwiftUI view that renders a caller-owned list (`data`, a
binding) and, while the `allowReordering` binding is on, lets the user reorder it by
dragging one row over another. Its only logic is a small state machine:

- the view owns `draggedItem` (optional) and `hasChangedLocation` (a boolean);
- starting a drag on a row records that row's item as `draggedItem` (`Idle -> Dragging`);
- when the pointer enters another row, `dropEntered` looks up the dragged item and the
  target by value (`firstIndex(of:)`), and if both are found and differ, sets
  `hasChangedLocation` and moves the dragged item with
  `data.move(fromOffsets: [from], toOffset: to > from ? to + 1 : to)`;
- dropping clears the drag state (`Dragging -> Idle`) and accepts the drop;
- each row is rendered with a flag `allowReordering && hasChangedLocation && draggedItem == item`.

The project has three modules:

- `CollectionOps` (`collection_ops.dfy`) writes out the two library operations the view
  relies on: `FirstIndex` (Swift's `firstIndex(of:)`, the first match) and `Move`
  (SwiftUI's single-offset `move(fromOffsets:toOffset:)`: remove the element at `from`,
  reinsert it before the element that was at `toOffset`, so at `toOffset - 1` when
  `toOffset > from`). `Move` is related to an independent, position-by-position reference
  definition (`MovedFrom`), to its own inverse, and to the order of the untouched elements.
- `Reorderable` (`reorderable.dfy`) holds the drag state as a datatype `DragState`, the
  handler transitions as pure functions (`StartDrag`, `Entered`, `Dropped`), the render
  flags (`RenderFlags`), the lemmas about them, and the class `ReorderableForEach` whose
  fields are the view's state and bindings and whose methods (`OnDrag`, `DropEntered`,
  `DropUpdated`, `PerformDrop`) are proved to perform exactly those transitions.
- `Scenarios` (`scenarios.dfy`) works through concrete drags on three-item lists and two
  drags on the five-item demo list `["Apple", "Orange", "Banana", "Lemon", "Tangerine"]`.

Two things in `dropEntered` are worth knowing before reading the model:

- The `context` branch (:87-98) only prints; its TODO comments (:93-97) announce a
  sort-index update, an index move and a save that are not implemented. The model has no
  external store.
- The check `data[to] != current` before moving can never fail once the guard has passed
  (`RelocationAlwaysMoves`): every successful hover moves an element.

Two facts about the state as a whole are stated as well: `hasChangedLocation` is never set
without a dragged item (`FlagNeedsDrag`, kept by every transition and every handler), and a
drag released outside every row never reaches `performDrop`, so the next drag starts with
the flag still set and its row is flagged at once (`StaleFlagCarriesOver`).

Lists are not required to be free of repetitions: `FirstIndex` takes the first match, as
the Swift code does. The statements about where items land by value (and at most one
flagged row) assume no repetitions, which `ForEach(data, id: \.self)` relies on.

## Model

| member | source | states |
|---|---|---|
| CollectionOps.FirstIndex | Sources/SwiftUIReorderableForEach/SwiftUIReorderableForEach.swift:69-70 | `None` exactly when the value is absent; otherwise an in-range index holding the value with no earlier occurrence (first match) |
| CollectionOps.FirstIndexOfDistinct | Sources/SwiftUIReorderableForEach/SwiftUIReorderableForEach.swift:69-70 | in a list without repetitions, looking up the element at `i` finds `i` |
| CollectionOps.Move | Sources/SwiftUIReorderableForEach/SwiftUIReorderableForEach.swift:79-80 | the moved list has the same length and the same multiset of elements, and holds the moved element at its landing index (`toOffset - 1` past `from`, else `toOffset`) |
| CollectionOps.MoveAt | Sources/SwiftUIReorderableForEach/SwiftUIReorderableForEach.swift:79-80 | at every index the moved list agrees with the reference definition: the landing slot holds the moved element, elements between `from` and the landing slot shift one step toward `from`, the rest stay |
| CollectionOps.MoveKeepsOutside | Sources/SwiftUIReorderableForEach/SwiftUIReorderableForEach.swift:79-80 | elements outside the closed range between `from` and the landing slot keep their indices |
| CollectionOps.MoveShiftsLandingSlot | Sources/SwiftUIReorderableForEach/SwiftUIReorderableForEach.swift:79-80 | when the element really moves, the element that held its landing slot ends up one step toward `from` |
| CollectionOps.MoveFindsByValue | Sources/SwiftUIReorderableForEach/SwiftUIReorderableForEach.swift:79-80 | in a list without repetitions, after the move `firstIndex` finds the moved element at its landing slot and the element that held that slot one step toward `from` |
| CollectionOps.MoveKeepsOrderOfOthers | Sources/SwiftUIReorderableForEach/SwiftUIReorderableForEach.swift:79-80 | removing the moved element from the result gives the input without it: all other elements keep their relative order |
| CollectionOps.MoveUndo | Sources/SwiftUIReorderableForEach/SwiftUIReorderableForEach.swift:79-80 | moving the element back from its landing slot (offset `from`, or `from + 1` when passing back over) restores the input |
| CollectionOps.MoveKeepsDistinct | Sources/SwiftUIReorderableForEach/SwiftUIReorderableForEach.swift:79-80 | a move of a list without repetitions yields a list without repetitions |
| Reorderable.DropOffset | Sources/SwiftUIReorderableForEach/SwiftUIReorderableForEach.swift:80 | the chosen offset (`to + 1` forward, `to` backward) always lands the moved item on index `to`, and is at most one past `to` (a valid offset) |
| Reorderable.StartDrag | Sources/SwiftUIReorderableForEach/SwiftUIReorderableForEach.swift:38-39 | drag start enters `Dragging` with the item recorded; list and `hasChangedLocation` unchanged |
| Reorderable.Entered | Sources/SwiftUIReorderableForEach/SwiftUIReorderableForEach.swift:66-106 | `draggedItem` is unchanged; `hasChangedLocation` becomes true exactly when the guard passes (drag in progress, target differs, both found); the list stays a permutation; when the guard fails nothing changes; when it passes the list changes |
| Reorderable.Dropped | Sources/SwiftUIReorderableForEach/SwiftUIReorderableForEach.swift:112-116 | whatever the prior state: back to `Idle`, `hasChangedLocation` false, the list untouched, and the drop accepted |
| Reorderable.RenderFlags | Sources/SwiftUIReorderableForEach/SwiftUIReorderableForEach.swift:35-53 | one flag per row, in list order; a row is flagged iff reordering is on, a relocation has happened and the row's item is the dragged item |
| Reorderable.FlagsOffWhenDisabled | Sources/SwiftUIReorderableForEach/SwiftUIReorderableForEach.swift:51-52 | with reordering off no row is flagged, whatever the drag state |
| Reorderable.AtMostOneFlag | Sources/SwiftUIReorderableForEach/SwiftUIReorderableForEach.swift:35-37 | in a list without repetitions two flagged rows are the same row, and it shows the dragged item |
| Reorderable.RelocationAlwaysMoves | Sources/SwiftUIReorderableForEach/SwiftUIReorderableForEach.swift:67-77 | once the guard passes, the element at `to` is never the dragged item, so the move is always performed |
| Reorderable.EnteredMoves | Sources/SwiftUIReorderableForEach/SwiftUIReorderableForEach.swift:77-80 | once the guard passes the new list is the single move from `from` with offset `DropOffset(from, to)` |
| Reorderable.EnteredLandsOnTarget | Sources/SwiftUIReorderableForEach/SwiftUIReorderableForEach.swift:75-81 | once the guard passes: `from != to`, the dragged item lands at `to` in both directions, and the target moves one slot toward `from` |
| Reorderable.EnteredKeepsOutside | Sources/SwiftUIReorderableForEach/SwiftUIReorderableForEach.swift:79-80 | once the guard passes, every index outside the closed range between `from` and `to` keeps its element |
| Reorderable.EnteredKeepsOrderOfOthers | Sources/SwiftUIReorderableForEach/SwiftUIReorderableForEach.swift:79-80 | once the guard passes, removing the dragged item from the new list gives the old list without it: the other elements keep their relative order |
| Reorderable.EnteredKeepsDistinct | Sources/SwiftUIReorderableForEach/SwiftUIReorderableForEach.swift:79-80 | a hover never introduces repetitions |
| Reorderable.EnteredLandsByValue | Sources/SwiftUIReorderableForEach/SwiftUIReorderableForEach.swift:69-80 | for lists without repetitions, after the hover `firstIndex` finds the dragged item at the target's old index and the target next to it on the side the dragged item came from |
| Reorderable.EnteredTwiceSwapsBack | Sources/SwiftUIReorderableForEach/SwiftUIReorderableForEach.swift:66-81 | entering the same target a second time exchanges the dragged item and the target back and leaves every other index as after the first hover |
| Reorderable.AdjacentMoveSwaps | Sources/SwiftUIReorderableForEach/SwiftUIReorderableForEach.swift:79-80 | dropping an item onto its neighbour exchanges the two and leaves every other index alone |
| Reorderable.EnteredOnDistinct | Sources/SwiftUIReorderableForEach/SwiftUIReorderableForEach.swift:66-81 | in a list without repetitions, dragging the item at `i` onto the item at `j != i` is the move from `i` with offset `DropOffset(i, j)` |
| Reorderable.HoverAllKeeps | Sources/SwiftUIReorderableForEach/SwiftUIReorderableForEach.swift:66-106 | any sequence of hovers keeps `draggedItem`, never clears `hasChangedLocation`, keeps the list a permutation and keeps it free of repetitions |
| Reorderable.GestureReturnsToIdle | Sources/SwiftUIReorderableForEach/SwiftUIReorderableForEach.swift:36-116 | drag start, any hovers and a drop end in `Idle` with the drop accepted, no row flagged, and the list a permutation of the original (without repetitions if it had none) |
| Reorderable.TransitionsKeepFlagNeedsDrag | Sources/SwiftUIReorderableForEach/SwiftUIReorderableForEach.swift:38-116 | drag start, hover and drop each keep `hasChangedLocation` set only while an item is being dragged |
| Reorderable.StaleFlagCarriesOver | Sources/SwiftUIReorderableForEach/SwiftUIReorderableForEach.swift:36-39 | when the previous drag was never dropped, a new drag on a row flags that row at once exactly when reordering is on |
| Scenarios.MoveMiddleToEnd | Sources/SwiftUIReorderableForEach/SwiftUIReorderableForEach.swift:79-80 | `move` of the middle of three elements to offset 3 gives `[a, c, b]` |
| Scenarios.MoveFirstToEnd | Sources/SwiftUIReorderableForEach/SwiftUIReorderableForEach.swift:79-80 | `move` of the first of three elements to offset 3 gives `[b, c, a]` |
| Scenarios.MoveLastToFront | Sources/SwiftUIReorderableForEach/SwiftUIReorderableForEach.swift:79-80 | `move` of the last of three elements to offset 0 gives `[c, a, b]` |
| Scenarios.ForwardOntoNext | Sources/SwiftUIReorderableForEach/SwiftUIReorderableForEach.swift:79-80 | `[a, b, c]` with `b` dragged onto `c` becomes `[a, c, b]` |
| Scenarios.ForwardToEnd | Sources/SwiftUIReorderableForEach/SwiftUIReorderableForEach.swift:79-80 | `[a, b, c]` with `a` dragged onto `c` becomes `[b, c, a]` |
| Scenarios.BackwardToFront | Sources/SwiftUIReorderableForEach/SwiftUIReorderableForEach.swift:79-80 | `[a, b, c]` with `c` dragged onto `a` becomes `[c, a, b]` |
| Scenarios.MoveSecondPastThird | Sources/SwiftUIReorderableForEach/SwiftUIReorderableForEach.swift:79-80 | `move` of the second of five elements to offset 3 exchanges it with the third and keeps the rest |
| Scenarios.MoveThirdToFront | Sources/SwiftUIReorderableForEach/SwiftUIReorderableForEach.swift:79-80 | `move` of the third of five elements to offset 0 puts it first, shifts the first two up and keeps the last two |
| Scenarios.DemoData | Sources/SwiftUIReorderableForEach/SwiftUIReorderableForEach.swift:123 | the preview's five-item list, which has no repetitions |
| Scenarios.ForwardExample | Sources/SwiftUIReorderableForEach/SwiftUIReorderableForEach.swift:123 | the demo list with "Orange" dragged onto "Banana" becomes `["Apple", "Banana", "Orange", "Lemon", "Tangerine"]` |
| Scenarios.BackwardExample | Sources/SwiftUIReorderableForEach/SwiftUIReorderableForEach.swift:123 | the demo list with "Banana" dragged onto "Apple" becomes `["Banana", "Apple", "Orange", "Lemon", "Tangerine"]` |
| Reorderable.ReorderableForEach.constructor | Sources/SwiftUIReorderableForEach/SwiftUIReorderableForEach.swift:21-32 | binds the list and the switch; the drag state starts `Idle` with `hasChangedLocation` false, so the flag-needs-drag invariant holds |
| Reorderable.ReorderableForEach.OnDrag | Sources/SwiftUIReorderableForEach/SwiftUIReorderableForEach.swift:38-41 | the new state is `StartDrag` of the old one; `allowReordering` untouched; keeps the flag-needs-drag invariant |
| Reorderable.ReorderableForEach.DropEntered | Sources/SwiftUIReorderableForEach/SwiftUIReorderableForEach.swift:66-106 | the new state is `Entered` of the old one; `draggedItem` unchanged, the list a permutation of the old list, `allowReordering` untouched; keeps the flag-needs-drag invariant |
| Reorderable.ReorderableForEach.DropUpdated | Sources/SwiftUIReorderableForEach/SwiftUIReorderableForEach.swift:108-110 | every hover update proposes a move operation, whatever the state |
| Reorderable.ReorderableForEach.PerformDrop | Sources/SwiftUIReorderableForEach/SwiftUIReorderableForEach.swift:112-116 | the new state and the result are `Dropped` of the old state: drag state cleared, drop accepted; keeps the flag-needs-drag invariant |

## Left out

- The `NSManagedObjectContext` branch of `dropEntered` only prints diagnostics; its sort-index update, index move and save are unimplemented in the code, so there is nothing to model.
- View composition (`body`, `ForEach`, the `@ViewBuilder` row template, `withAnimation`) is rendering; only the boolean flag it passes to the template is modelled (`RenderFlags`).
- The handler methods are modelled without the `allowReordering` gate: in the view that gate decides whether the drag and drop modifiers are attached at all, which is view composition. The gate is modelled in the render flag only.
- The `NSItemProvider` payload built from `hashValue`, the `UTType.plainText` registration and the `DropInfo` argument are framework types whose content the logic never reads.
- `dropUpdated` returns `DropProposal(operation: .move)`; the model keeps only the operation tag.
- The preview and demo views and the package manifest contain no reorder logic.
- SwiftUI's `move`: the model requires `toOffset <= |s|`, and every offset the view computes meets this (`DropOffset`).
