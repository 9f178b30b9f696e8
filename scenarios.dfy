/** Concrete drags on short lists, including two on the package's demo data. */
module Scenarios {
  import opened CollectionOps
  import opened Reorderable

  /** `move` on three elements, offset past the end: the middle element goes last. */
  lemma MoveMiddleToEnd<T>(a: T, b: T, c: T)
    ensures Move([a, b, c], 1, 3) == [a, c, b]
  {
    var s := [a, b, c];
    var d := Landing(1, 3);
    assert s[MovedFrom(1, d, 0)] == a && s[MovedFrom(1, d, 1)] == c && s[MovedFrom(1, d, 2)] == b;
    var r := Move(s, 1, 3);
    assert r[0] == a && r[1] == c && r[2] == b;
  }

  /** `move` on three elements, offset past the end: the first element goes last. */
  lemma MoveFirstToEnd<T>(a: T, b: T, c: T)
    ensures Move([a, b, c], 0, 3) == [b, c, a]
  {
    var s := [a, b, c];
    var d := Landing(0, 3);
    assert s[MovedFrom(0, d, 0)] == b && s[MovedFrom(0, d, 1)] == c && s[MovedFrom(0, d, 2)] == a;
    var r := Move(s, 0, 3);
    assert r[0] == b && r[1] == c && r[2] == a;
  }

  /** `move` on three elements, offset zero: the last element goes first. */
  lemma MoveLastToFront<T>(a: T, b: T, c: T)
    ensures Move([a, b, c], 2, 0) == [c, a, b]
  {
    var s := [a, b, c];
    var d := Landing(2, 0);
    assert s[MovedFrom(2, d, 0)] == c && s[MovedFrom(2, d, 1)] == a && s[MovedFrom(2, d, 2)] == b;
    var r := Move(s, 2, 0);
    assert r[0] == c && r[1] == a && r[2] == b;
  }

  /** Three distinct items, the middle one dragged onto the last: it passes the target. */
  lemma ForwardOntoNext<T>(a: T, b: T, c: T)
    requires a != b && a != c && b != c
    ensures Entered(StartDrag(DragState([a, b, c], None, false), b), c).data == [a, c, b]
  {
    EnteredOnDistinct([a, b, c], 1, 2, false);
    MoveMiddleToEnd(a, b, c);
  }

  /** Three distinct items, the first one dragged onto the last: it goes to the end. */
  lemma ForwardToEnd<T>(a: T, b: T, c: T)
    requires a != b && a != c && b != c
    ensures Entered(StartDrag(DragState([a, b, c], None, false), a), c).data == [b, c, a]
  {
    EnteredOnDistinct([a, b, c], 0, 2, false);
    MoveFirstToEnd(a, b, c);
  }

  /** Three distinct items, the last one dragged onto the first: it takes the first slot. */
  lemma BackwardToFront<T>(a: T, b: T, c: T)
    requires a != b && a != c && b != c
    ensures Entered(StartDrag(DragState([a, b, c], None, false), c), a).data == [c, a, b]
  {
    EnteredOnDistinct([a, b, c], 2, 0, false);
    MoveLastToFront(a, b, c);
  }

  /** `move` on five elements: the second element passes the third, the rest stay. */
  lemma MoveSecondPastThird<T>(s: seq<T>)
    requires |s| == 5
    ensures Move(s, 1, 3) == [s[0], s[2], s[1], s[3], s[4]]
  {
    var r := Move(s, 1, 3);
    MoveAt(s, 1, 3, 0);
    MoveAt(s, 1, 3, 1);
    MoveAt(s, 1, 3, 2);
    MoveAt(s, 1, 3, 3);
    MoveAt(s, 1, 3, 4);
    assert r[0] == s[0] && r[1] == s[2] && r[2] == s[1] && r[3] == s[3] && r[4] == s[4];
  }

  /** `move` on five elements, offset zero: the third element goes first, the last two stay. */
  lemma MoveThirdToFront<T>(s: seq<T>)
    requires |s| == 5
    ensures Move(s, 2, 0) == [s[2], s[0], s[1], s[3], s[4]]
  {
    var r := Move(s, 2, 0);
    MoveAt(s, 2, 0, 0);
    MoveAt(s, 2, 0, 1);
    MoveAt(s, 2, 0, 2);
    MoveAt(s, 2, 0, 3);
    MoveAt(s, 2, 0, 4);
    assert r[0] == s[2] && r[1] == s[0] && r[2] == s[1] && r[3] == s[3] && r[4] == s[4];
  }

  /** The demo list of the package's preview. */
  function DemoData(): (r: seq<string>)
    ensures |r| == 5 && Distinct(r)
  {
    var r := ["Apple", "Orange", "Banana", "Lemon", "Tangerine"];
    assert r[0][0] == 'A' && r[1][0] == 'O' && r[2][0] == 'B' && r[3][0] == 'L' && r[4][0] == 'T';
    r
  }

  /** In the demo list, dragging "Orange" onto "Banana" moves it forward, past the target. */
  lemma ForwardExample()
    ensures Entered(StartDrag(DragState(DemoData(), None, false), "Orange"), "Banana").data
            == ["Apple", "Banana", "Orange", "Lemon", "Tangerine"]
  {
    EnteredOnDistinct(DemoData(), 1, 2, false);
    assert DropOffset(1, 2) == 3;
    MoveSecondPastThird(DemoData());
  }

  /** In the demo list, dragging "Banana" onto "Apple" moves it backward, onto the target's slot. */
  lemma BackwardExample()
    ensures Entered(StartDrag(DragState(DemoData(), None, false), "Banana"), "Apple").data
            == ["Banana", "Apple", "Orange", "Lemon", "Tangerine"]
  {
    EnteredOnDistinct(DemoData(), 2, 0, false);
    assert DropOffset(2, 0) == 0;
    MoveThirdToFront(DemoData());
  }
}
