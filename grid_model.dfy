/**
 * The puzzle's data: the square letter grid, cells, directions and the
 * record kept for every placed word.
 */
module GridModel {
  import opened Wrappers

  /** Side of the square grid. */
  const GRID_SIZE: nat := 20
  /** Most words a puzzle holds. */
  const MAX_WORDS: nat := 15

  /** A grid coordinate, `{r, c}` in the source. */
  datatype Cell = Cell(r: int, c: int)

  /** A placement direction: `dx` is the row step, `dy` the column step. */
  datatype Direction = Direction(dx: int, dy: int)

  /** The enabled directions: right, down, diagonal down-right. */
  const DIRECTIONS: seq<Direction> := [Direction(0, 1), Direction(1, 0), Direction(1, 1)]

  /** A letter grid: rows of cells, each empty or holding one letter. */
  type Grid = seq<seq<Option<char>>>

  /** The record appended for a placed word. */
  datatype PlacedWord = PlacedWord(word: string, positions: seq<Cell>, dx: int, dy: int, found: bool)

  predicate IsGrid(g: Grid) {
    |g| == GRID_SIZE && forall r :: 0 <= r < |g| ==> |g[r]| == GRID_SIZE
  }

  predicate InBounds(p: Cell) {
    0 <= p.r < GRID_SIZE && 0 <= p.c < GRID_SIZE
  }

  function At(g: Grid, p: Cell): Option<char>
    requires IsGrid(g) && InBounds(p)
  {
    g[p.r][p.c]
  }

  /** The grid with one cell overwritten; every other cell is unchanged. */
  function SetCell(g: Grid, p: Cell, ch: char): (g': Grid)
    requires IsGrid(g) && InBounds(p)
    ensures IsGrid(g')
    ensures At(g', p) == Some(ch)
    ensures forall q :: InBounds(q) && q != p ==> At(g', q) == At(g, q)
  {
    g[p.r := g[p.r][p.c := Some(ch)]]
  }

  /** The all-empty grid the builder starts from. */
  function EmptyGrid(): (g: Grid)
    ensures IsGrid(g)
    ensures forall q :: InBounds(q) ==> At(g, q) == None
  {
    seq(GRID_SIZE, r => seq(GRID_SIZE, c => None))
  }

  /** The `len` cells from `start` stepping by `d`. */
  function Path(start: Cell, d: Direction, len: nat): seq<Cell> {
    seq(len, i => Cell(start.r + d.dx * i, start.c + d.dy * i))
  }

  /** Every cell of `path` lies on the grid. */
  predicate PathInBounds(path: seq<Cell>) {
    forall i :: 0 <= i < |path| ==> InBounds(path[i])
  }

  /** Grid `g` spells `w.word` along `w.positions`. */
  predicate ReadsAlong(g: Grid, w: PlacedWord) {
    IsGrid(g) && |w.positions| == |w.word| && PathInBounds(w.positions) &&
    forall i :: 0 <= i < |w.word| ==> At(g, w.positions[i]) == Some(w.word[i])
  }

  /** The record's path is the straight run from its first cell along one enabled direction. */
  predicate WellPlaced(w: PlacedWord) {
    Direction(w.dx, w.dy) in DIRECTIONS &&
    (|w.positions| > 0 ==> w.positions == Path(w.positions[0], Direction(w.dx, w.dy), |w.positions|))
  }

  /** Number of records whose `found` flag is set. */
  function CountFound(ws: seq<PlacedWord>): nat {
    if ws == [] then 0 else CountFound(ws[..|ws| - 1]) + (if ws[|ws| - 1].found then 1 else 0)
  }

  lemma {:induction false} CountFoundBound(ws: seq<PlacedWord>)
    ensures CountFound(ws) <= |ws|
    ensures CountFound(ws) == |ws| <==> forall k :: 0 <= k < |ws| ==> ws[k].found
  {
    if ws != [] {
      var n := |ws| - 1;
      CountFoundBound(ws[..n]);
      if CountFound(ws) == |ws| {
        forall k | 0 <= k < |ws| ensures ws[k].found {
          if k < n { assert ws[..n][k] == ws[k]; }
        }
      }
      if forall k :: 0 <= k < |ws| ==> ws[k].found {
        assert forall k :: 0 <= k < n ==> ws[..n][k].found by {
          forall k | 0 <= k < n ensures ws[..n][k].found { assert ws[..n][k] == ws[k]; }
        }
      }
    }
  }

  /** Setting the flag of one unfound record raises the count by exactly one. */
  lemma {:induction false} CountFoundMark(ws: seq<PlacedWord>, i: nat)
    requires i < |ws| && !ws[i].found
    ensures CountFound(ws[i := ws[i].(found := true)]) == CountFound(ws) + 1
  {
    var ws' := ws[i := ws[i].(found := true)];
    var n := |ws| - 1;
    if i == n {
      assert ws'[..n] == ws[..n];
    } else {
      assert ws'[..n] == ws[..n][i := ws[i].(found := true)];
      CountFoundMark(ws[..n], i);
    }
  }

  /** Appending an unfound record leaves the count unchanged. */
  lemma CountFoundAppend(ws: seq<PlacedWord>, w: PlacedWord)
    requires !w.found
    ensures CountFound(ws + [w]) == CountFound(ws)
  {
    assert (ws + [w])[..|ws|] == ws;
  }
}
