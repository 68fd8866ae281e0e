/**
 * Filling the cells left empty after placement. The random letter of each
 * cell is chosen by an oracle `pick`; the letter is `ALPHABET[pick(r, c) % 26]`,
 * as `floor(Math.random() * 26)` is some index in 0..25.
 */
module Fill {
  import opened Wrappers
  import opened GridModel

  const ALPHABET: string := "ABCDEFGHIJKLMNOPQRSTUVWXYZ"

  /** The letter the oracle gives the cell at row `r`, column `c`. */
  function FillLetter(pick: (int, int) -> nat, r: int, c: int): char {
    ALPHABET[pick(r, c) % |ALPHABET|]
  }

  /** The cell after filling: an empty cell gets the oracle's letter, a filled one is kept. */
  function FilledCell(x: Option<char>, pick: (int, int) -> nat, r: int, c: int): Option<char> {
    if x.None? then Some(FillLetter(pick, r, c)) else x
  }

  /** The whole grid after filling every empty cell. */
  function Filled(g: Grid, pick: (int, int) -> nat): (g': Grid)
    requires IsGrid(g)
    ensures IsGrid(g')
  {
    seq(GRID_SIZE, r requires 0 <= r < GRID_SIZE => seq(GRID_SIZE, c requires 0 <= c < GRID_SIZE => FilledCell(g[r][c], pick, r, c)))
  }

  /** No grid cell is empty. */
  ghost predicate Complete(g: Grid)
    requires IsGrid(g)
  {
    forall q :: InBounds(q) ==> At(g, q).Some?
  }

  lemma AlphabetLetters(k: nat)
    requires k < |ALPHABET|
    ensures 'A' <= ALPHABET[k] <= 'Z'
  {
  }

  /** After filling no cell is empty, filled cells keep their letter, and every new letter is in A-Z. */
  lemma FilledSpec(g: Grid, pick: (int, int) -> nat, q: Cell)
    requires IsGrid(g) && InBounds(q)
    ensures At(Filled(g, pick), q).Some?
    ensures At(g, q).Some? ==> At(Filled(g, pick), q) == At(g, q)
    ensures At(g, q).None? ==> 'A' <= At(Filled(g, pick), q).value <= 'Z'
  {
    if At(g, q).None? {
      AlphabetLetters(pick(q.r, q.c) % |ALPHABET|);
    }
  }

  lemma FilledComplete(g: Grid, pick: (int, int) -> nat)
    requires IsGrid(g)
    ensures Complete(Filled(g, pick))
  {
    forall q | InBounds(q) ensures At(Filled(g, pick), q).Some? {
      FilledSpec(g, pick, q);
    }
  }

  /** A word the grid spelled before filling is still spelled after. */
  lemma FilledKeepsReads(g: Grid, pick: (int, int) -> nat, w: PlacedWord)
    requires ReadsAlong(g, w)
    ensures ReadsAlong(Filled(g, pick), w)
  {
    forall i | 0 <= i < |w.word| ensures At(Filled(g, pick), w.positions[i]) == Some(w.word[i]) {
      FilledSpec(g, pick, w.positions[i]);
    }
  }
}
