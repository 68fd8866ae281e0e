/**
 * Turning a drag from a start cell to the cell under the pointer into a
 * straight run of cells. `DragRun` is the specification; `NormalizeDrag`
 * builds the run with the loop the game uses. `None` means the current
 * selection is left as it was.
 */
module Selection {
  import opened Wrappers
  import opened GridModel
  import opened SeqUtil

  /** Selections shorter than this are discarded when the drag ends. */
  const MIN_SELECTION: nat := 3

  function Sign(x: int): int {
    if x > 0 then 1 else if x < 0 then -1 else 0
  }

  function Abs(x: int): nat {
    if x < 0 then -x else x
  }

  function Max(a: nat, b: nat): nat {
    if a < b then b else a
  }

  /** Horizontal, vertical or a true 45-degree diagonal. */
  predicate Straight(dRow: int, dCol: int) {
    dRow == 0 || dCol == 0 || Abs(dRow) == Abs(dCol)
  }

  /** The step direction of a drag, the sign of each delta. */
  function StepOf(start: Cell, end: Cell): Direction {
    Direction(Sign(end.r - start.r), Sign(end.c - start.c))
  }

  /** Number of cells a straight drag covers, ends included. */
  function RunLength(start: Cell, end: Cell): nat {
    Max(Abs(end.r - start.r), Abs(end.c - start.c)) + 1
  }

  /** The selection a drag from `start` to `end` produces, or `None` to keep the old one. */
  function DragRun(start: Cell, end: Cell): Option<seq<Cell>> {
    if start == end then Some([start])
    else if !Straight(end.r - start.r, end.c - start.c) then None
    else
      var run := Path(start, StepOf(start, end), RunLength(start, end));
      if PathInBounds(run) then Some(run) else None
  }

  /** Builds the run cell by cell, giving up at the first cell that is not on the grid. */
  method NormalizeDrag(start: Cell, end: Cell) returns (sel: Option<seq<Cell>>)
    ensures sel == DragRun(start, end)
  {
    var dRow := end.r - start.r;
    var dCol := end.c - start.c;
    if dRow == 0 && dCol == 0 {
      return Some([start]);
    }
    var stepRow := Sign(dRow);
    var stepCol := Sign(dCol);
    if !(dRow == 0 || dCol == 0 || Abs(dRow) == Abs(dCol)) {
      return None;
    }
    var length := Max(Abs(dRow), Abs(dCol)) + 1;
    ghost var run := Path(start, StepOf(start, end), length);
    var newSelection: seq<Cell> := [];
    for i := 0 to length
      invariant newSelection == run[..i]
      invariant PathInBounds(newSelection)
    {
      var r := start.r + stepRow * i;
      var c := start.c + stepCol * i;
      assert run[i] == Cell(r, c);
      if !InBounds(Cell(r, c)) {
        assert !PathInBounds(run);
        return None;
      }
      assert run[..i + 1] == run[..i] + [run[i]];
      newSelection := newSelection + [Cell(r, c)];
    }
    assert newSelection == run;
    sel := Some(newSelection);
  }

  /** For a straight drag the sign step times the run's last index lands exactly on the delta. */
  lemma StepReachesEnd(d: int, other: int)
    requires Straight(d, other) && !(d == 0 && other == 0)
    ensures Sign(d) * (Max(Abs(d), Abs(other)) + 1 - 1) == d
  {
    if d > 0 {
      assert Max(Abs(d), Abs(other)) == d;
    } else if d < 0 {
      assert Max(Abs(d), Abs(other)) == -d;
    }
  }

  /** A non-straight drag such as (2, 1) keeps the selection; a zero drag selects the start cell. */
  lemma DragRunRejects(start: Cell, end: Cell)
    ensures start == end ==> DragRun(start, end) == Some([start])
    ensures !Straight(end.r - start.r, end.c - start.c) ==> DragRun(start, end) == None
  {
  }

  /** Shape of an accepted run: `max(|dRow|, |dCol|) + 1` cells from the start cell to the end cell,
      stepping by the signs of the deltas. */
  lemma DragRunShape(start: Cell, end: Cell)
    requires DragRun(start, end).Some?
    ensures var run := DragRun(start, end).value;
      |run| == RunLength(start, end) &&
      run[0] == start && run[|run| - 1] == end &&
      (start != end ==> PathInBounds(run)) &&
      forall i :: 0 <= i < |run| ==> run[i] == Cell(start.r + Sign(end.r - start.r) * i, start.c + Sign(end.c - start.c) * i)
  {
    if start != end {
      StepReachesEnd(end.r - start.r, end.c - start.c);
      StepReachesEnd(end.c - start.c, end.r - start.r);
      assert Max(Abs(end.c - start.c), Abs(end.r - start.r)) == Max(Abs(end.r - start.r), Abs(end.c - start.c));
    }
  }

  /** One coordinate of a run stays between the two ends. */
  lemma StepBetween(s: int, e: int, other: int, i: int)
    requires Straight(e - s, other) && !(e - s == 0 && other == 0)
    requires 0 <= i < Max(Abs(e - s), Abs(other)) + 1
    ensures (s <= s + Sign(e - s) * i <= e) || (e <= s + Sign(e - s) * i <= s)
  {
    var d := e - s;
    if d > 0 {
      assert Max(Abs(d), Abs(other)) == d;
      assert Sign(d) * i == i;
    } else if d < 0 {
      assert Max(Abs(d), Abs(other)) == -d;
      assert Sign(d) * i == -i;
    }
  }

  /** On the grid the existence check never fails: a straight drag between two grid cells always
      yields a run. */
  lemma DragRunOnGrid(start: Cell, end: Cell)
    requires InBounds(start) && InBounds(end)
    requires Straight(end.r - start.r, end.c - start.c)
    ensures DragRun(start, end).Some?
  {
    if start != end {
      var run := Path(start, StepOf(start, end), RunLength(start, end));
      forall i | 0 <= i < |run| ensures InBounds(run[i]) {
        StepBetween(start.r, end.r, end.c - start.c, i);
        assert Max(Abs(end.c - start.c), Abs(end.r - start.r)) == Max(Abs(end.r - start.r), Abs(end.c - start.c));
        StepBetween(start.c, end.c, end.r - start.r, i);
      }
    }
  }

  /** Walking `i` steps back from the last of `n` cells lands on cell `n - 1 - i`. */
  lemma StepBack(a: int, step: int, n: nat, i: nat)
    requires i < n
    ensures a + step * (n - 1) + (-step) * i == a + step * (n - 1 - i)
  {
  }

  /** The path back from the last cell of a path, with the opposite step, is the reversed path. */
  lemma PathBack(start: Cell, d: Direction, n: nat)
    requires n > 0
    ensures Path(Cell(start.r + d.dx * (n - 1), start.c + d.dy * (n - 1)), Direction(-d.dx, -d.dy), n) ==
            Reverse(Path(start, d, n))
  {
    var fwd := Path(start, d, n);
    var back := Path(Cell(start.r + d.dx * (n - 1), start.c + d.dy * (n - 1)), Direction(-d.dx, -d.dy), n);
    forall i | 0 <= i < n ensures back[i] == Reverse(fwd)[i] {
      StepBack(start.r, d.dx, n, i);
      StepBack(start.c, d.dy, n, i);
    }
  }

  /** Dragging the other way selects the same cells in reverse order. */
  lemma DragRunReverse(start: Cell, end: Cell)
    requires DragRun(start, end).Some?
    ensures DragRun(end, start) == Some(Reverse(DragRun(start, end).value))
  {
    var run := DragRun(start, end).value;
    DragRunShape(start, end);
    if start != end {
      var n := |run|;
      var d := StepOf(start, end);
      assert StepOf(end, start) == Direction(-d.dx, -d.dy);
      assert RunLength(end, start) == n;
      assert end == run[n - 1] == Cell(start.r + d.dx * (n - 1), start.c + d.dy * (n - 1));
      PathBack(start, d, n);
      var back := Path(end, StepOf(end, start), n);
      assert back == Reverse(run);
      assert PathInBounds(back);
      assert Straight(start.r - end.r, start.c - end.c);
    } else {
      assert Reverse(run) == [start];
    }
  }

  /** A placed word's path is exactly what a drag from its first cell to its last cell selects. */
  lemma PlacedPathSelectable(w: PlacedWord)
    requires WellPlaced(w) && PathInBounds(w.positions) && |w.positions| > 0
    ensures DragRun(w.positions[0], w.positions[|w.positions| - 1]) == Some(w.positions)
    ensures DragRun(w.positions[|w.positions| - 1], w.positions[0]) == Some(Reverse(w.positions))
  {
    var p := w.positions;
    var n := |p|;
    var s, e := p[0], p[n - 1];
    var d := Direction(w.dx, w.dy);
    assert p == Path(s, d, n);
    if n == 1 {
      assert p == [s];
    } else {
      assert e == Cell(s.r + w.dx * (n - 1), s.c + w.dy * (n - 1));
      assert d == Direction(0, 1) || d == Direction(1, 0) || d == Direction(1, 1);
      assert StepOf(s, e) == d;
      assert RunLength(s, e) == n;
      assert DragRun(s, e) == Some(p);
    }
    DragRunReverse(s, e);
  }
}
