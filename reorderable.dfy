/** The drag-to-reorder logic of `ReorderableForEach`: the drag state the view owns
    (`draggedItem`, `hasChangedLocation`), the caller's list it edits through a binding
    (`data`), the transitions the drag and drop handlers make, and the flag the view hands
    to the caller's row template.

    The transitions are pure functions over `DragState`; the class `ReorderableForEach`
    holds the same state in fields and its handler methods are proved to make exactly
    those transitions. */
module Reorderable {
  import opened CollectionOps

  /** Everything the handlers read or write: the bound list and the two pieces of view state. */
  datatype DragState<T> = DragState(data: seq<T>, draggedItem: Option<T>, hasChangedLocation: bool)

  /** The only states the gesture goes through: `Idle -> Dragging` on drag start, back on drop. */
  datatype Phase = Idle | Dragging

  function PhaseOf<T>(st: DragState<T>): Phase
  {
    if st.draggedItem.None? then Idle else Dragging
  }

  /** SwiftUI's `DropOperation`; `Relocate` stands for `.move`. */
  datatype DropOperation = Cancel | Copy | Relocate | Forbidden

  datatype DropProposal = DropProposal(operation: DropOperation)

  /** The offset handed to `move(fromOffsets:toOffset:)` when the item at `from` is dropped
      onto the item at `to`: one past the target when moving forward, the target itself when
      moving backward. Either way the moved item lands on the target's slot. */
  function DropOffset(from: nat, to: nat): (off: nat)
    ensures Landing(from, off) == to
    ensures off <= to + 1
  {
    if to > from then to + 1 else to
  }

  /** The guard of `dropEntered`: a drag is in progress, the hovered item is not the dragged
      one, and both can be found in the list. */
  predicate CanRelocate<T(==)>(st: DragState<T>, item: T)
  {
    st.draggedItem.Some? && st.draggedItem.value != item
    && FirstIndex(st.data, st.draggedItem.value).Some? && FirstIndex(st.data, item).Some?
  }

  /** `onDrag`: the item becomes the dragged one; nothing else changes. */
  function StartDrag<T>(st: DragState<T>, item: T): (r: DragState<T>)
    ensures PhaseOf(r) == Dragging && r.draggedItem == Some(item)
    ensures r.data == st.data && r.hasChangedLocation == st.hasChangedLocation
  {
    st.(draggedItem := Some(item))
  }

  /** `dropEntered` on the drop target `item`. */
  function Entered<T(==)>(st: DragState<T>, item: T): (r: DragState<T>)
    ensures r.draggedItem == st.draggedItem
    ensures r.hasChangedLocation == (st.hasChangedLocation || CanRelocate(st, item))
    ensures multiset(r.data) == multiset(st.data)
    ensures !CanRelocate(st, item) ==> r == st
    ensures CanRelocate(st, item) ==> r.data != st.data
  {
    if st.draggedItem == Some(item) then st
    else match st.draggedItem
      case None => st
      case Some(current) =>
        match (FirstIndex(st.data, current), FirstIndex(st.data, item))
        case (Some(from), Some(to)) =>
          if st.data[to] != current then
            DragState(Move(st.data, from, DropOffset(from, to)), st.draggedItem, true)
          else
            st.(hasChangedLocation := true)
        case _ => st
  }

  /** `performDrop`: the drag state is cleared and the drop is always accepted. */
  function Dropped<T>(st: DragState<T>): (r: (DragState<T>, bool))
    ensures r.1
    ensures PhaseOf(r.0) == Idle && !r.0.hasChangedLocation && r.0.data == st.data
  {
    (st.(draggedItem := None, hasChangedLocation := false), true)
  }

  /** The second argument the view passes to the row template for `item`. */
  predicate IsDragged<T(==)>(st: DragState<T>, allowReordering: bool, item: T)
  {
    allowReordering && st.hasChangedLocation && st.draggedItem == Some(item)
  }

  /** The flags of one render pass, one per row, in list order. */
  function RenderFlags<T(==)>(st: DragState<T>, allowReordering: bool): (flags: seq<bool>)
    ensures |flags| == |st.data|
    ensures forall i :: 0 <= i < |flags| ==> (flags[i] <==> IsDragged(st, allowReordering, st.data[i]))
  {
    seq(|st.data|, i requires 0 <= i < |st.data| => IsDragged(st, allowReordering, st.data[i]))
  }

  /** With reordering switched off every row is rendered as not dragged. */
  lemma FlagsOffWhenDisabled<T>(st: DragState<T>)
    ensures forall i :: 0 <= i < |st.data| ==> !RenderFlags(st, false)[i]
  {
  }

  /** In a list without repetitions at most one row is flagged, and only the dragged item. */
  lemma AtMostOneFlag<T>(st: DragState<T>, allowReordering: bool, i: nat, j: nat)
    requires Distinct(st.data) && i < |st.data| && j < |st.data|
    requires RenderFlags(st, allowReordering)[i] && RenderFlags(st, allowReordering)[j]
    ensures i == j && st.draggedItem == Some(st.data[i])
  {
    assert st.data[i] == st.draggedItem.value == st.data[j];
  }

  /** When the guard passes, the check `data[to] != current` cannot fail: the element at `to`
      is the target, which differs from the dragged item. So every relocation moves. */
  lemma RelocationAlwaysMoves<T>(st: DragState<T>, item: T)
    requires CanRelocate(st, item)
    ensures var to := FirstIndex(st.data, item).value;
            to < |st.data| && st.data[to] != st.draggedItem.value
  {
  }

  /** Where the two items go when the guard passes: the dragged item lands on the target's
      former index `to`, in both directions, and the target shifts one slot toward `from`. */
  lemma EnteredLandsOnTarget<T>(st: DragState<T>, item: T)
    requires CanRelocate(st, item)
    ensures var from := FirstIndex(st.data, st.draggedItem.value).value;
            var to := FirstIndex(st.data, item).value;
            var r := Entered(st, item).data;
            from != to && |r| == |st.data|
            && r[to] == st.draggedItem.value
            && r[if to > from then to - 1 else to + 1] == item
  {
    var from := FirstIndex(st.data, st.draggedItem.value).value;
    var to := FirstIndex(st.data, item).value;
    EnteredMoves(st, item);
    MoveShiftsLandingSlot(st.data, from, DropOffset(from, to));
  }

  /** When the guard passes, every index outside the closed range between `from` and `to`
      keeps its element. */
  lemma EnteredKeepsOutside<T>(st: DragState<T>, item: T)
    requires CanRelocate(st, item)
    ensures var from := FirstIndex(st.data, st.draggedItem.value).value;
            var to := FirstIndex(st.data, item).value;
            var r := Entered(st, item).data;
            |r| == |st.data|
            && forall k :: 0 <= k < |r| && (k < from || k > to) && (k < to || k > from) ==> r[k] == st.data[k]
  {
    var from := FirstIndex(st.data, st.draggedItem.value).value;
    var to := FirstIndex(st.data, item).value;
    EnteredMoves(st, item);
    forall k | 0 <= k < |st.data| && (k < from || k > to) && (k < to || k > from)
      ensures Move(st.data, from, DropOffset(from, to))[k] == st.data[k]
    {
      MoveKeepsOutside(st.data, from, DropOffset(from, to), k);
    }
  }

  /** When the guard passes, the elements other than the dragged one keep their relative
      order: taking the dragged item out of the new list gives the old list without it. */
  lemma EnteredKeepsOrderOfOthers<T>(st: DragState<T>, item: T)
    requires CanRelocate(st, item)
    ensures var from := FirstIndex(st.data, st.draggedItem.value).value;
            var to := FirstIndex(st.data, item).value;
            var r := Entered(st, item).data;
            to < |r| && Remove(r, to) == Remove(st.data, from)
  {
    var from := FirstIndex(st.data, st.draggedItem.value).value;
    var to := FirstIndex(st.data, item).value;
    EnteredMoves(st, item);
    MoveKeepsOrderOfOthers(st.data, from, DropOffset(from, to));
  }

  /** When the guard passes, the list is rearranged by exactly one `move` call. */
  lemma EnteredMoves<T>(st: DragState<T>, item: T)
    requires CanRelocate(st, item)
    ensures var from := FirstIndex(st.data, st.draggedItem.value).value;
            var to := FirstIndex(st.data, item).value;
            Entered(st, item).data == Move(st.data, from, DropOffset(from, to))
  {
  }

  /** A hover never creates repetitions. */
  lemma EnteredKeepsDistinct<T>(st: DragState<T>, item: T)
    requires Distinct(st.data)
    ensures Distinct(Entered(st, item).data)
  {
    if CanRelocate(st, item) {
      var from := FirstIndex(st.data, st.draggedItem.value).value;
      var to := FirstIndex(st.data, item).value;
      MoveKeepsDistinct(st.data, from, DropOffset(from, to));
    }
  }

  /** The same landing stated by value, for the lists the view is meant for (no repetitions):
      afterwards the dragged item is found at the target's old index and the target next to it,
      on the side the dragged item came from. */
  lemma EnteredLandsByValue<T>(st: DragState<T>, item: T)
    requires Distinct(st.data) && CanRelocate(st, item)
    ensures var from := FirstIndex(st.data, st.draggedItem.value).value;
            var to := FirstIndex(st.data, item).value;
            var r := Entered(st, item).data;
            FirstIndex(r, st.draggedItem.value) == Some(to)
            && FirstIndex(r, item) == Some(if to > from then to - 1 else to + 1)
  {
    var from := FirstIndex(st.data, st.draggedItem.value).value;
    var to := FirstIndex(st.data, item).value;
    var next := if to > from then to - 1 else to + 1;
    var moved := Move(st.data, from, DropOffset(from, to));
    assert Entered(st, item).data == moved by {
      EnteredMoves(st, item);
    }
    assert from != to && Landing(from, DropOffset(from, to)) == to;
    MoveFindsByValue(st.data, from, DropOffset(from, to));
  }

  /** Entering the same target again right away exchanges the two items back: the dragged
      item and the target are adjacent after the first move, so the second one swaps them. */
  lemma EnteredTwiceSwapsBack<T>(st: DragState<T>, item: T)
    requires Distinct(st.data) && CanRelocate(st, item)
    ensures var from := FirstIndex(st.data, st.draggedItem.value).value;
            var to := FirstIndex(st.data, item).value;
            var next := if to > from then to - 1 else to + 1;
            var once := Entered(st, item).data;
            var twice := Entered(Entered(st, item), item).data;
            |twice| == |once| == |st.data| && next < |st.data|
            && twice[to] == item && twice[next] == st.draggedItem.value
            && forall k :: 0 <= k < |once| && k != to && k != next ==> twice[k] == once[k]
  {
    var current := st.draggedItem.value;
    var from := FirstIndex(st.data, current).value;
    var to := FirstIndex(st.data, item).value;
    var next := if to > from then to - 1 else to + 1;
    var st1 := Entered(st, item);
    EnteredLandsOnTarget(st, item);
    EnteredLandsByValue(st, item);
    assert CanRelocate(st1, item);
    EnteredMoves(st1, item);
    AdjacentMoveSwaps(st1.data, to, next);
  }

  /** Dropping an item onto its neighbour exchanges the two and moves nothing else. */
  lemma AdjacentMoveSwaps<T>(s: seq<T>, from: nat, to: nat)
    requires from < |s| && to < |s| && (to == from + 1 || from == to + 1)
    ensures var r := Move(s, from, DropOffset(from, to));
            r[to] == s[from] && r[from] == s[to]
            && forall k :: 0 <= k < |s| && k != from && k != to ==> r[k] == s[k]
  {
    var off := DropOffset(from, to);
    MoveAt(s, from, off, from);
    forall k | 0 <= k < |s| && k != from && k != to
      ensures Move(s, from, off)[k] == s[k]
    {
      MoveAt(s, from, off, k);
    }
  }

  /** The hover events of one gesture, in the order the pointer enters the targets. */
  function HoverAll<T(==)>(st: DragState<T>, targets: seq<T>): DragState<T>
    decreases |targets|
  {
    if targets == [] then st else HoverAll(Entered(st, targets[0]), targets[1..])
  }

  /** Any number of hovers keeps the dragged item, never clears `hasChangedLocation`, and
      leaves a permutation of the list, still without repetitions if it had none. */
  lemma {:induction false} HoverAllKeeps<T>(st: DragState<T>, targets: seq<T>)
    ensures var r := HoverAll(st, targets);
            r.draggedItem == st.draggedItem
            && (st.hasChangedLocation ==> r.hasChangedLocation)
            && multiset(r.data) == multiset(st.data)
            && (Distinct(st.data) ==> Distinct(r.data))
    decreases |targets|
  {
    if targets != [] {
      var next := Entered(st, targets[0]);
      if Distinct(st.data) {
        EnteredKeepsDistinct(st, targets[0]);
      }
      HoverAllKeeps(next, targets[1..]);
    }
  }

  /** A whole gesture from rest (drag start, any hovers, drop) returns to `Idle` with no row
      flagged, the drop accepted, and the list a permutation of what it was. */
  lemma {:induction false} GestureReturnsToIdle<T>(st: DragState<T>, dragged: T, targets: seq<T>, allowReordering: bool)
    ensures var (r, accepted) := Dropped(HoverAll(StartDrag(st, dragged), targets));
            accepted && PhaseOf(r) == Idle
            && multiset(r.data) == multiset(st.data)
            && (Distinct(st.data) ==> Distinct(r.data))
            && forall i :: 0 <= i < |r.data| ==> !RenderFlags(r, allowReordering)[i]
  {
    HoverAllKeeps(StartDrag(st, dragged), targets);
  }

  /** `hasChangedLocation` is only ever set while a drag is in progress. */
  predicate FlagNeedsDrag<T>(st: DragState<T>)
  {
    st.hasChangedLocation ==> st.draggedItem.Some?
  }

  /** Every transition keeps `FlagNeedsDrag`: the state machine never holds the flag
      without a dragged item. */
  lemma TransitionsKeepFlagNeedsDrag<T>(st: DragState<T>, item: T)
    requires FlagNeedsDrag(st)
    ensures FlagNeedsDrag(StartDrag(st, item))
    ensures FlagNeedsDrag(Entered(st, item))
    ensures FlagNeedsDrag(Dropped(st).0)
  {
  }

  /** A drag released outside every row never reaches `performDrop`, so nothing clears
      the drag state. The next drag then starts with `hasChangedLocation` still set, and
      the row it starts on is flagged at once, before any hover. */
  lemma StaleFlagCarriesOver<T>(st: DragState<T>, item: T, allowReordering: bool, k: nat)
    requires st.hasChangedLocation && k < |st.data| && st.data[k] == item
    ensures RenderFlags(StartDrag(st, item), allowReordering)[k] == allowReordering
  {
  }

  /** In a list without repetitions, dragging the item at `i` onto the item at `j` is the
      move from `i` with offset `DropOffset(i, j)`. */
  lemma EnteredOnDistinct<T>(s: seq<T>, i: nat, j: nat, moved: bool)
    requires Distinct(s) && i < |s| && j < |s| && i != j
    ensures Entered(DragState(s, Some(s[i]), moved), s[j]).data == Move(s, i, DropOffset(i, j))
  {
    FirstIndexOfDistinct(s, i);
    FirstIndexOfDistinct(s, j);
  }

  /** The view's state, with the two bindings (`data`, `allowReordering`) as fields the
      caller may also assign, and the handlers as methods. */
  class ReorderableForEach<T(==)> {
    var data: seq<T>
    var allowReordering: bool
    var draggedItem: Option<T>
    var hasChangedLocation: bool

    function State(): DragState<T>
      reads this
    {
      DragState(data, draggedItem, hasChangedLocation)
    }

    /** `init`: binds the list and the switch; the view state starts at rest. */
    constructor (data: seq<T>, allowReordering: bool)
      ensures this.data == data && this.allowReordering == allowReordering
      ensures PhaseOf(State()) == Idle && !hasChangedLocation
      ensures FlagNeedsDrag(State())
    {
      this.data := data;
      this.allowReordering := allowReordering;
      draggedItem := None;
      hasChangedLocation := false;
    }

    /** The `onDrag` closure of the row showing `item`. */
    method OnDrag(item: T)
      modifies this
      ensures State() == StartDrag(old(State()), item)
      ensures FlagNeedsDrag(old(State())) ==> FlagNeedsDrag(State())
      ensures allowReordering == old(allowReordering)
    {
      draggedItem := Some(item);
    }

    /** `dropEntered` of the drop delegate attached to the row showing `item`. */
    method DropEntered(item: T)
      modifies this
      ensures State() == Entered(old(State()), item)
      ensures FlagNeedsDrag(old(State())) ==> FlagNeedsDrag(State())
      ensures draggedItem == old(draggedItem) && multiset(data) == multiset(old(data))
      ensures allowReordering == old(allowReordering)
    {
      if draggedItem == Some(item) || draggedItem.None? {
        return;
      }
      var current := draggedItem.value;
      var fromIndex := FirstIndex(data, current);
      var toIndex := FirstIndex(data, item);
      if fromIndex.None? || toIndex.None? {
        return;
      }
      var from, to := fromIndex.value, toIndex.value;
      hasChangedLocation := true;
      if data[to] != current {
        data := Move(data, from, DropOffset(from, to));
      }
    }

    /** `dropUpdated`: every hover proposes a move, whatever the state. */
    method DropUpdated() returns (proposal: DropProposal)
      ensures proposal.operation == Relocate
    {
      proposal := DropProposal(Relocate);
    }

    /** `performDrop`: clears the drag state and accepts the drop. */
    method PerformDrop() returns (accepted: bool)
      modifies this
      ensures (State(), accepted) == Dropped(old(State()))
      ensures FlagNeedsDrag(old(State())) ==> FlagNeedsDrag(State())
      ensures allowReordering == old(allowReordering)
    {
      hasChangedLocation := false;
      draggedItem := None;
      accepted := true;
    }
  }
}
