/**
 * Matching a finished selection against the placed words: the letters read
 * off the selected cells, exact path comparison (forward and reversed) and
 * the search for the first unfound word the selection spells.
 */
module Matching {
  import opened Wrappers
  import opened GridModel
  import opened SeqUtil
  import opened Letters

  /** The text a rendered cell shows: its letter, or nothing for an empty or absent cell. */
  function CellText(g: Grid, p: Cell): string {
    if IsGrid(g) && InBounds(p) && At(g, p).Some? then [At(g, p).value] else ""
  }

  /** The letters of the selected cells joined in selection order. */
  function SelectedLetters(g: Grid, cells: seq<Cell>): string {
    if cells == [] then "" else SelectedLetters(g, cells[..|cells| - 1]) + CellText(g, cells[|cells| - 1])
  }

  /** Cells that each show one letter of `text`, in order, together show `text`. */
  lemma {:induction false} SelectedLettersSpell(g: Grid, cells: seq<Cell>, text: string)
    requires |cells| == |text|
    requires forall i :: 0 <= i < |cells| ==> CellText(g, cells[i]) == [text[i]]
    ensures SelectedLetters(g, cells) == text
  {
    if cells != [] {
      var n := |cells| - 1;
      assert forall i :: 0 <= i < n ==> cells[..n][i] == cells[i];
      SelectedLettersSpell(g, cells[..n], text[..n]);
      assert text == text[..n] + [text[n]];
    }
  }

  /** Reading a placed word's whole path yields its text, and reading it backward its reversed text. */
  lemma SelectedLettersWhole(g: Grid, w: PlacedWord)
    requires ReadsAlong(g, w)
    ensures SelectedLetters(g, w.positions) == w.word
    ensures SelectedLetters(g, Reverse(w.positions)) == Reverse(w.word)
  {
    var n := |w.word|;
    forall i | 0 <= i < n ensures CellText(g, w.positions[i]) == [w.word[i]] {
      assert InBounds(w.positions[i]);
    }
    SelectedLettersSpell(g, w.positions, w.word);
    var rp, rw := Reverse(w.positions), Reverse(w.word);
    forall i | 0 <= i < n ensures CellText(g, rp[i]) == [rw[i]] {
      assert rp[i] == w.positions[n - 1 - i] && rw[i] == w.word[n - 1 - i];
      assert InBounds(w.positions[n - 1 - i]);
    }
    SelectedLettersSpell(g, rp, rw);
  }

  /** Compares two paths cell by cell in the same order. */
  method PathsMatch(positions: seq<Cell>, coords: seq<Cell>) returns (same: bool)
    ensures same <==> positions == coords
  {
    if |positions| != |coords| {
      return false;
    }
    for i := 0 to |positions|
      invariant positions[..i] == coords[..i]
    {
      if positions[i].r != coords[i].r || positions[i].c != coords[i].c {
        return false;
      }
      assert positions[..i + 1] == positions[..i] + [positions[i]];
      assert coords[..i + 1] == coords[..i] + [coords[i]];
    }
    assert positions == positions[..|positions|];
    assert coords == coords[..|coords|];
    return true;
  }

  /** Compares the reversal of `positions` with `coords`, cell by cell. */
  method PathsMatchReversed(positions: seq<Cell>, coords: seq<Cell>) returns (same: bool)
    ensures same <==> Reverse(positions) == coords
  {
    if |positions| != |coords| {
      return false;
    }
    var n := |positions|;
    for i := 0 to n
      invariant forall k :: 0 <= k < i ==> positions[n - 1 - k] == coords[k]
    {
      var p := positions[n - 1 - i];
      var c := coords[i];
      if p.r != c.r || p.c != c.c {
        assert Reverse(positions)[i] != coords[i];
        return false;
      }
    }
    return true;
  }

  /** Path matching in reverse is path matching of the reversed path, and both fail on a length mismatch. */
  lemma PathsMatchReversedIsReverse(positions: seq<Cell>, coords: seq<Cell>)
    ensures (Reverse(positions) == coords) <==> (positions == Reverse(coords))
    ensures |positions| != |coords| ==> positions != coords && Reverse(positions) != coords
  {
    ReverseReverse(coords);
    ReverseReverse(positions);
  }

  /** Whether the selection with these letters and cells finds word `w`: it is unfound, its text
      equals the upper-cased letters or their reverse, and its path equals the cells or their reverse. */
  predicate Matches(w: PlacedWord, letters: string, coords: seq<Cell>) {
    var forward := UpperString(letters);
    !w.found &&
    (w.word == forward || w.word == Reverse(forward)) &&
    (w.positions == coords || Reverse(w.positions) == coords)
  }

  /** Selecting the same cells from the other end finds the same words. */
  lemma MatchesReversed(w: PlacedWord, letters: string, coords: seq<Cell>)
    ensures Matches(w, letters, coords) <==> Matches(w, Reverse(letters), Reverse(coords))
  {
    var f := UpperString(letters);
    UpperReverse(letters);
    ReverseReverse(f);
    PathsMatchReversedIsReverse(w.positions, coords);
    ReverseInjective(w.positions, coords);
  }

  /** Scans the placed words in order and returns the index of the first one the selection
      finds, or -1 when none does. */
  method FindMatch(words: seq<PlacedWord>, letters: string, coords: seq<Cell>) returns (matchedIndex: int)
    ensures -1 <= matchedIndex < |words|
    ensures matchedIndex == -1 <==> forall j :: 0 <= j < |words| ==> !Matches(words[j], letters, coords)
    ensures matchedIndex >= 0 ==> Matches(words[matchedIndex], letters, coords)
    ensures matchedIndex >= 0 ==> forall j :: 0 <= j < matchedIndex ==> !Matches(words[j], letters, coords)
  {
    var forward := UpperString(letters);
    var backward := Reverse(forward);
    matchedIndex := -1;
    for idx := 0 to |words|
      invariant -1 <= matchedIndex < idx
      invariant matchedIndex == -1 ==> forall j :: 0 <= j < idx ==> !Matches(words[j], letters, coords)
      invariant matchedIndex >= 0 ==> Matches(words[matchedIndex], letters, coords)
      invariant matchedIndex >= 0 ==> forall j :: 0 <= j < matchedIndex ==> !Matches(words[j], letters, coords)
    {
      var w := words[idx];
      if matchedIndex != -1 || w.found {
        continue;
      }
      if w.word == forward || w.word == backward {
        var same := PathsMatch(w.positions, coords);
        if !same {
          same := PathsMatchReversed(w.positions, coords);
        }
        if same {
          matchedIndex := idx;
        }
      }
    }
  }
}
