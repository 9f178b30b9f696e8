/** The two collection operations the reorder logic relies on, written out
    because their implementations belong to the Swift standard library and
    SwiftUI:
    - `firstIndex(of:)`: the index of the first element equal to a value;
    - `move(fromOffsets:toOffset:)` for a single offset: take the element out
      at `from` and put it back before the element that was at `toOffset`
      (an offset counted in the positions BEFORE the removal).
 */
module CollectionOps {

  datatype Option<T> = None | Some(value: T)

  /** No value occurs twice. `ForEach(data, id: \.self)` identifies rows by value, so it assumes this. */
  ghost predicate Distinct<T>(s: seq<T>)
  {
    forall i, j :: 0 <= i < j < |s| ==> s[i] != s[j]
  }

  /** `firstIndex(of:)`: the first position holding `x`, or `None` when `x` does not occur. */
  function FirstIndex<T(==)>(s: seq<T>, x: T): (r: Option<nat>)
    ensures r.None? <==> x !in s
    ensures r.Some? ==> r.value < |s| && s[r.value] == x && forall j :: 0 <= j < r.value ==> s[j] != x
  {
    if |s| == 0 then None
    else if s[0] == x then Some(0)
    else match FirstIndex(s[1..], x)
      case None => None
      case Some(i) => Some(i + 1)
  }

  /** In a sequence without repetitions, looking up an element finds the position it was taken from. */
  lemma FirstIndexOfDistinct<T>(s: seq<T>, i: nat)
    requires Distinct(s) && i < |s|
    ensures FirstIndex(s, s[i]) == Some(i)
  {
    var r := FirstIndex(s, s[i]);
    assert r.Some?;
  }

  /** The sequence without its element at `i`. */
  function Remove<T>(s: seq<T>, i: nat): (r: seq<T>)
    requires i < |s|
    ensures |r| == |s| - 1
    ensures multiset(r) + multiset{s[i]} == multiset(s)
  {
    var r := seq(|s| - 1, k requires 0 <= k < |s| - 1 => if k < i then s[k] else s[k + 1]);
    assert multiset(r) + multiset{s[i]} == multiset(s) by {
      assert r == s[..i] + s[i + 1..];
      assert s == s[..i] + [s[i]] + s[i + 1..];
    }
    r
  }

  /** The sequence with `x` placed at position `i`, later elements shifted up by one. */
  function Insert<T>(s: seq<T>, i: nat, x: T): (r: seq<T>)
    requires i <= |s|
    ensures |r| == |s| + 1 && r[i] == x
    ensures multiset(r) == multiset(s) + multiset{x}
  {
    var r := seq(|s| + 1, k requires 0 <= k < |s| + 1 => if k < i then s[k] else if k == i then x else s[k - 1]);
    assert multiset(r) == multiset(s) + multiset{x} by {
      assert r == s[..i] + [x] + s[i..];
      assert s == s[..i] + s[i..];
    }
    r
  }

  /** Where a moved element ends up: an offset past the element's own slot loses one once it is removed. */
  function Landing(from: nat, toOffset: nat): nat
  {
    if toOffset > from then toOffset - 1 else toOffset
  }

  /** `move(fromOffsets: IndexSet(integer: from), toOffset: toOffset)`: the same elements, the one at
      `from` now at its landing position. The offset may be one past the end (insert at the end). */
  function Move<T>(s: seq<T>, from: nat, toOffset: nat): (r: seq<T>)
    requires from < |s| && toOffset <= |s|
    ensures |r| == |s| && multiset(r) == multiset(s)
    ensures r[Landing(from, toOffset)] == s[from]
  {
    Insert(Remove(s, from), Landing(from, toOffset), s[from])
  }

  /** Reference definition of a single-element move, position by position: the index in the input
      whose element appears at index `k` once the element at `from` has been moved to `dest`. */
  function MovedFrom(from: nat, dest: nat, k: nat): nat
  {
    if k == dest then from
    else if from < dest && from <= k < dest then k + 1
    else if dest < from && dest < k <= from then k - 1
    else k
  }

  /** `Move` agrees with the reference definition at every index. */
  lemma {:induction false} MoveAt<T>(s: seq<T>, from: nat, toOffset: nat, k: nat)
    requires from < |s| && toOffset <= |s| && k < |s|
    ensures MovedFrom(from, Landing(from, toOffset), k) < |s|
    ensures Move(s, from, toOffset)[k] == s[MovedFrom(from, Landing(from, toOffset), k)]
  {
  }

  /** Elements outside the closed range between `from` and the landing position keep their places. */
  lemma MoveKeepsOutside<T>(s: seq<T>, from: nat, toOffset: nat, k: nat)
    requires from < |s| && toOffset <= |s| && k < |s|
    requires (k < from && k < Landing(from, toOffset)) || (k > from && k > Landing(from, toOffset))
    ensures Move(s, from, toOffset)[k] == s[k]
  {
    MoveAt(s, from, toOffset, k);
  }

  /** The element that held the landing slot moves one step toward `from`. */
  lemma MoveShiftsLandingSlot<T>(s: seq<T>, from: nat, toOffset: nat)
    requires from < |s| && toOffset <= |s| && Landing(from, toOffset) != from
    ensures var d := Landing(from, toOffset);
            var next := if d > from then d - 1 else d + 1;
            next < |s| && Move(s, from, toOffset)[next] == s[d]
  {
  }

  /** In a list without repetitions, after the move the moved element is found at its landing
      slot, and the element that held that slot one step toward `from`. */
  lemma MoveFindsByValue<T>(s: seq<T>, from: nat, toOffset: nat)
    requires from < |s| && toOffset <= |s| && Distinct(s)
    ensures var d := Landing(from, toOffset);
            var next := if d > from then d - 1 else d + 1;
            d < |s| && FirstIndex(Move(s, from, toOffset), s[from]) == Some(d)
            && (d != from ==> next < |s| && FirstIndex(Move(s, from, toOffset), s[d]) == Some(next))
  {
    var d := Landing(from, toOffset);
    var r := Move(s, from, toOffset);
    MoveKeepsDistinct(s, from, toOffset);
    FirstIndexOfDistinct(r, d);
    if d != from {
      MoveShiftsLandingSlot(s, from, toOffset);
      FirstIndexOfDistinct(r, if d > from then d - 1 else d + 1);
    }
  }

  /** The relative order of every element other than the moved one is unchanged:
      taking the moved element out again gives the input without it. */
  lemma MoveKeepsOrderOfOthers<T>(s: seq<T>, from: nat, toOffset: nat)
    requires from < |s| && toOffset <= |s|
    ensures Remove(Move(s, from, toOffset), Landing(from, toOffset)) == Remove(s, from)
  {
  }

  /** Moving the element back undoes the move: the offset that returns it to `from` is `from`,
      or `from + 1` when it has to pass back over its old slot. */
  lemma MoveUndo<T>(s: seq<T>, from: nat, toOffset: nat)
    requires from < |s| && toOffset <= |s|
    ensures var d := Landing(from, toOffset);
            var back := if from > d then from + 1 else from;
            back <= |s| && Move(Move(s, from, toOffset), d, back) == s
  {
    var d := Landing(from, toOffset);
    var back := if from > d then from + 1 else from;
    var r := Move(s, from, toOffset);
    MoveKeepsOrderOfOthers(s, from, toOffset);
    assert Landing(d, back) == from;
    assert Move(r, d, back) == Insert(Remove(s, from), from, s[from]);
    InsertRemoved(s, from);
  }

  /** Putting an element back where it was taken from restores the sequence. */
  lemma InsertRemoved<T>(s: seq<T>, i: nat)
    requires i < |s|
    ensures Insert(Remove(s, i), i, s[i]) == s
  {
  }

  /** The reference definition never sends two positions to the same source position. */
  lemma MovedFromInjective(from: nat, dest: nat, n: nat, k1: nat, k2: nat)
    requires from < n && dest < n && k1 < n && k2 < n && k1 != k2
    ensures MovedFrom(from, dest, k1) != MovedFrom(from, dest, k2)
  {
  }

  /** A move creates no repetitions. */
  lemma MoveKeepsDistinct<T>(s: seq<T>, from: nat, toOffset: nat)
    requires from < |s| && toOffset <= |s| && Distinct(s)
    ensures Distinct(Move(s, from, toOffset))
  {
    var r := Move(s, from, toOffset);
    var d := Landing(from, toOffset);
    forall i, j | 0 <= i < j < |r|
      ensures r[i] != r[j]
    {
      MoveAt(s, from, toOffset, i);
      MoveAt(s, from, toOffset, j);
      MovedFromInjective(from, d, |s|, i, j);
    }
  }
}
