/**
 * Pure definitions behind word placement: the start range that keeps a word
 * on the grid, when an attempt conflicts, how many cells it overlaps, the
 * intersection-bias rule, and the effect of writing a word into a grid.
 */
module Placement {
  import opened Wrappers
  import opened GridModel
  import opened SeqUtil

  /** Attempt budget per word. */
  const MAX_ATTEMPTS: nat := 250
  /** Zero-overlap placements are refused while the 1-based attempt number is below
      70% of the budget (250 * 0.7 is exactly 175). */
  const INTERSECT_UNTIL: nat := MAX_ATTEMPTS * 7 / 10

  /** An inclusive interval of start coordinates. */
  datatype Range = Range(min: int, max: int)

  predicate InRange(s: int, rg: Range) {
    rg.min <= s <= rg.max
  }

  /** Starts along one axis that keep a word of length `len` stepping by `d` inside `[0, size-1]`. */
  function StartRange(size: int, len: int, d: int): Range {
    if d == 0 then Range(0, size - 1)
    else if d > 0 then Range(0, size - len)
    else Range(len - 1, size - 1)
  }

  /** For a unit or zero step, every start in the range keeps all `len` cells on the axis. */
  lemma StartRangeInBounds(size: int, len: int, d: int, s: int, i: int)
    requires -1 <= d <= 1
    requires InRange(s, StartRange(size, len, d))
    requires 0 <= i < len
    ensures 0 <= s + d * i <= size - 1
  {
    if d == 1 {
      assert s + d * i == s + i;
    } else if d == -1 {
      assert s + d * i == s - i;
    } else {
      assert s + d * i == s;
    }
  }

  /** The range is non-empty exactly when the word fits: always for a zero step, and when
      `len <= size` for a non-zero one (for `len` 12 on a 20-cell axis and step 1 it is `[0, 8]`). */
  lemma StartRangeNonEmpty(size: int, len: int, d: int)
    requires size >= 1 && len >= 1
    ensures d == 0 ==> StartRange(size, len, d) == Range(0, size - 1)
    ensures d != 0 ==> (StartRange(size, len, d).min <= StartRange(size, len, d).max <==> len <= size)
    ensures d > 0 ==> StartRange(size, len, d) == Range(0, size - len)
  {
  }

  /** A start drawn from the two ranges of an enabled direction puts the whole path on the grid. */
  lemma {:induction false} PathFits(start: Cell, d: Direction, len: nat)
    requires d in DIRECTIONS
    requires InRange(start.r, StartRange(GRID_SIZE, len, d.dx))
    requires InRange(start.c, StartRange(GRID_SIZE, len, d.dy))
    ensures PathInBounds(Path(start, d, len))
  {
    forall i | 0 <= i < len ensures InBounds(Path(start, d, len)[i]) {
      StartRangeInBounds(GRID_SIZE, len, d.dx, start.r, i);
      StartRangeInBounds(GRID_SIZE, len, d.dy, start.c, i);
    }
  }

  /** A path along an enabled direction never revisits a cell. */
  lemma PathDistinct(start: Cell, d: Direction, len: nat)
    requires d in DIRECTIONS
    ensures Distinct(Path(start, d, len))
  {
    var p := Path(start, d, len);
    forall i, j | 0 <= i < j < len ensures p[i] != p[j] {
      if d.dx == 1 {
        assert p[i].r == start.r + i && p[j].r == start.r + j;
      } else {
        assert d.dy == 1;
        assert p[i].c == start.c + i && p[j].c == start.c + j;
      }
    }
  }

  /** Some cell on the path holds a letter different from the one the word needs there. */
  predicate Conflicts(g: Grid, word: string, path: seq<Cell>)
    requires IsGrid(g) && PathInBounds(path) && |path| == |word|
  {
    exists i :: 0 <= i < |word| && At(g, path[i]).Some? && At(g, path[i]).value != word[i]
  }

  /** Number of the first `n` cells of the path that already hold the word's letter. */
  function Overlaps(g: Grid, word: string, path: seq<Cell>, n: nat): nat
    requires IsGrid(g) && PathInBounds(path) && |path| == |word| && n <= |word|
  {
    if n == 0 then 0
    else Overlaps(g, word, path, n - 1) + (if At(g, path[n - 1]) == Some(word[n - 1]) then 1 else 0)
  }

  /** The overlap count is zero exactly when no cell of the prefix already holds its letter. */
  lemma {:induction false} OverlapsZero(g: Grid, word: string, path: seq<Cell>, n: nat)
    requires IsGrid(g) && PathInBounds(path) && |path| == |word| && n <= |word|
    ensures Overlaps(g, word, path, n) <= n
    ensures Overlaps(g, word, path, n) == 0 <==> forall i :: 0 <= i < n ==> At(g, path[i]) != Some(word[i])
  {
    if n > 0 {
      OverlapsZero(g, word, path, n - 1);
    }
  }

  /** Whether attempt number `attempt` (1-based) keeps the placement along `path`. */
  predicate Accepted(g: Grid, word: string, path: seq<Cell>, attempt: nat, hasExisting: bool)
    requires IsGrid(g) && PathInBounds(path) && |path| == |word|
  {
    !Conflicts(g, word, path) &&
    !(hasExisting && Overlaps(g, word, path, |word|) == 0 && attempt < INTERSECT_UNTIL)
  }

  /** An attempt from the final 30% of the budget is refused only for a conflict. */
  lemma LateAttemptsIgnoreOverlap(g: Grid, word: string, path: seq<Cell>, attempt: nat, hasExisting: bool)
    requires IsGrid(g) && PathInBounds(path) && |path| == |word|
    requires INTERSECT_UNTIL <= attempt
    ensures Accepted(g, word, path, attempt, hasExisting) <==> !Conflicts(g, word, path)
  {
  }

  /** The grid after writing the first `n` letters of `word` along `path`, in order. */
  function WriteWord(g: Grid, word: string, path: seq<Cell>, n: nat): (g': Grid)
    requires IsGrid(g) && PathInBounds(path) && |path| == |word| && n <= |word|
    ensures IsGrid(g')
  {
    if n == 0 then g else SetCell(WriteWord(g, word, path, n - 1), path[n - 1], word[n - 1])
  }

  /** Cells off the written prefix keep their old contents. */
  lemma {:induction false} WriteWordOff(g: Grid, word: string, path: seq<Cell>, n: nat, q: Cell)
    requires IsGrid(g) && PathInBounds(path) && |path| == |word| && n <= |word|
    requires InBounds(q) && forall i :: 0 <= i < n ==> path[i] != q
    ensures At(WriteWord(g, word, path, n), q) == At(g, q)
  {
    if n > 0 {
      WriteWordOff(g, word, path, n - 1, q);
    }
  }

  /** On a path without repeated cells, every written cell holds its letter. */
  lemma {:induction false} WriteWordOn(g: Grid, word: string, path: seq<Cell>, n: nat, i: nat)
    requires IsGrid(g) && PathInBounds(path) && |path| == |word| && n <= |word|
    requires Distinct(path) && i < n
    ensures At(WriteWord(g, word, path, n), path[i]) == Some(word[i])
  {
    if i < n - 1 {
      WriteWordOn(g, word, path, n - 1, i);
    }
  }

  /** A conflict-free write keeps every word the grid already spelled. */
  lemma WriteKeepsReads(g: Grid, word: string, path: seq<Cell>, w: PlacedWord)
    requires IsGrid(g) && PathInBounds(path) && |path| == |word| && Distinct(path)
    requires !Conflicts(g, word, path)
    requires ReadsAlong(g, w)
    ensures ReadsAlong(WriteWord(g, word, path, |word|), w)
  {
    var g' := WriteWord(g, word, path, |word|);
    forall j | 0 <= j < |w.word| ensures At(g', w.positions[j]) == Some(w.word[j]) {
      var q := w.positions[j];
      if i :| 0 <= i < |path| && path[i] == q {
        WriteWordOn(g, word, path, |word|, i);
        assert At(g, path[i]) == Some(w.word[j]);
      } else {
        WriteWordOff(g, word, path, |word|, q);
      }
    }
  }

  /** After a full write the grid spells the new word along its path. */
  lemma WriteReadsNew(g: Grid, word: string, path: seq<Cell>, w: PlacedWord)
    requires IsGrid(g) && PathInBounds(path) && |path| == |word| && Distinct(path)
    requires w.word == word && w.positions == path
    ensures ReadsAlong(WriteWord(g, word, path, |word|), w)
  {
    forall i | 0 <= i < |word| ensures At(WriteWord(g, word, path, |word|), path[i]) == Some(word[i]) {
      WriteWordOn(g, word, path, |word|, i);
    }
  }
}
