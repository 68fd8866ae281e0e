/**
 * The puzzle state and the operations that change it: placing words with
 * randomised retries, filling the grid, the drag session and the marking of
 * found words. Random draws are oracle parameters, so every contract holds
 * for every sequence of draws.
 */
module Game {
  import opened Wrappers
  import opened GridModel
  import opened SeqUtil
  import opened Placement
  import opened Fill
  import opened Selection
  import opened Matching
  import WordFilter

  /** Fewer candidate words than this and no puzzle is built. */
  const MIN_CANDIDATES: nat := 5

  /** The draws of one placement attempt. Each `floor(Math.random() * n)` is some index
      in `0..n-1`; the oracle supplies a natural number and the index is that number mod `n`. */
  datatype Choice = Choice(dirPick: nat, rowPick: nat, colPick: nat)

  /** The index a pick selects inside a non-empty range. */
  function PickIn(rg: Range, pick: nat): (s: int)
    requires rg.min <= rg.max
    ensures InRange(s, rg)
  {
    rg.min + pick % (rg.max - rg.min + 1)
  }

  function ChoiceDirection(ch: Choice): (d: Direction)
    ensures d in DIRECTIONS
  {
    DIRECTIONS[ch.dirPick % |DIRECTIONS|]
  }

  /** The start cell an attempt's draws select for a word of length `len`. */
  function ChoiceStart(ch: Choice, len: nat): (start: Cell)
    requires len <= GRID_SIZE
    ensures InRange(start.r, StartRange(GRID_SIZE, len, ChoiceDirection(ch).dx))
    ensures InRange(start.c, StartRange(GRID_SIZE, len, ChoiceDirection(ch).dy))
  {
    var d := ChoiceDirection(ch);
    Cell(PickIn(StartRange(GRID_SIZE, len, d.dx), ch.rowPick), PickIn(StartRange(GRID_SIZE, len, d.dy), ch.colPick))
  }

  /** The path an attempt's draws select: on the grid and without repeated cells. */
  function ChoicePath(ch: Choice, len: nat): (path: seq<Cell>)
    requires len <= GRID_SIZE
    ensures |path| == len && PathInBounds(path) && Distinct(path)
  {
    PathFits(ChoiceStart(ch, len), ChoiceDirection(ch), len);
    PathDistinct(ChoiceStart(ch, len), ChoiceDirection(ch), len);
    Path(ChoiceStart(ch, len), ChoiceDirection(ch), len)
  }

  /** The unfound record of `word` placed by an attempt with draws `ch`. */
  function Entry(word: string, ch: Choice): (w: PlacedWord)
    requires |word| <= GRID_SIZE
    ensures WellPlaced(w) && w.word == word && !w.found
  {
    PlacedWord(word, ChoicePath(ch, |word|), ChoiceDirection(ch).dx, ChoiceDirection(ch).dy, false)
  }

  /** Grid `g'` and records `ws'` are `g` and `ws` after placing `word` along the path of draws `ch`:
      its letters written over the path and its unfound record appended. */
  ghost predicate PlacedBy(g: Grid, ws: seq<PlacedWord>, g': Grid, ws': seq<PlacedWord>, word: string, ch: Choice)
    requires IsGrid(g) && |word| <= GRID_SIZE
  {
    g' == WriteWord(g, word, ChoicePath(ch, |word|), |word|) && ws' == ws + [Entry(word, ch)]
  }

  /** The draws of attempt number `attempt` (1-based) of a word whose draws start at `from`. */
  function AttemptChoice(draws: nat -> Choice, from: nat, attempt: nat): Choice
    requires attempt >= 1
  {
    draws(from + attempt - 1)
  }

  /** Whether attempt number `attempt` of a word whose draws start at `from` is accepted. */
  predicate AttemptAccepts(g: Grid, word: string, draws: nat -> Choice, from: nat, attempt: nat, hasExisting: bool)
    requires IsGrid(g) && |word| <= GRID_SIZE && attempt >= 1
  {
    Accepted(g, word, ChoicePath(AttemptChoice(draws, from, attempt), |word|), attempt, hasExisting)
  }

  /** On a grid with no placed word an attempt never conflicts, so the first attempt places the word. */
  lemma FirstAttemptOnEmptyGrid(word: string, draws: nat -> Choice, from: nat)
    requires |word| <= GRID_SIZE
    ensures AttemptAccepts(EmptyGrid(), word, draws, from, 1, false)
  {
  }

  /** A placed puzzle word can always be selected: dragging from its first cell to its last (or back)
      selects its path, the cells read its text, and the selection matches it while it is unfound. */
  lemma PlacedWordFindable(g: Grid, w: PlacedWord)
    requires ReadsAlong(g, w) && WellPlaced(w) && |w.word| > 0 && !w.found
    requires WordFilter.AllCaps(w.word)
    ensures var p := w.positions;
      DragRun(p[0], p[|p| - 1]) == Some(p) &&
      Matches(w, SelectedLetters(g, p), p) &&
      DragRun(p[|p| - 1], p[0]) == Some(Reverse(p)) &&
      Matches(w, SelectedLetters(g, Reverse(p)), Reverse(p))
  {
    var p := w.positions;
    PlacedPathSelectable(w);
    SelectedLettersWhole(g, w);
    WordFilter.AllCapsUpper(w.word);
    assert Matches(w, w.word, p);
    MatchesReversed(w, w.word, p);
  }

  /** Every record lies straight along an enabled direction and `g` spells it along its path. */
  predicate WordsConsistent(g: Grid, ws: seq<PlacedWord>) {
    forall k :: 0 <= k < |ws| ==> WellPlaced(ws[k]) && ReadsAlong(g, ws[k])
  }

  /** No attempt before number `n` is accepted. */
  predicate NoAcceptBefore(g: Grid, word: string, draws: nat -> Choice, from: nat, n: nat, hasExisting: bool)
    requires IsGrid(g) && |word| <= GRID_SIZE
  {
    forall a :: 1 <= a < n ==> !AttemptAccepts(g, word, draws, from, a, hasExisting)
  }

  /** A rejected attempt `n` extends the run of rejected attempts by one. */
  lemma NoAcceptExtend(g: Grid, word: string, draws: nat -> Choice, from: nat, n: nat, hasExisting: bool)
    requires IsGrid(g) && |word| <= GRID_SIZE && n >= 1
    requires NoAcceptBefore(g, word, draws, from, n, hasExisting)
    requires !AttemptAccepts(g, word, draws, from, n, hasExisting)
    ensures NoAcceptBefore(g, word, draws, from, n + 1, hasExisting)
  {
  }

  /** Which attempt numbers of a word whose draws start at `from` are accepted. */
  function Verdicts(g: Grid, word: string, draws: nat -> Choice, from: nat, hasExisting: bool): nat -> bool
    requires IsGrid(g) && |word| <= GRID_SIZE
  {
    attempt => attempt >= 1 && AttemptAccepts(g, word, draws, from, attempt, hasExisting)
  }

  /** The first attempt number from `a` on that `accepts` accepts, or 251 when none up to 250 is. */
  function FirstAccepted(accepts: nat -> bool, a: nat): (n: nat)
    requires a >= 1
    ensures 1 <= n <= MAX_ATTEMPTS + 1
    decreases MAX_ATTEMPTS + 1 - a
  {
    if a > MAX_ATTEMPTS then MAX_ATTEMPTS + 1
    else if accepts(a) then a
    else FirstAccepted(accepts, a + 1)
  }

  /** Attempt `n` is the first accepted one from `a` on when all attempts from `a` to `n - 1` are
      refused and `n` is accepted; 251 is the answer when all of them up to 250 are refused. */
  lemma {:induction false} FirstAcceptedIs(accepts: nat -> bool, a: nat, n: nat)
    requires 1 <= a <= n <= MAX_ATTEMPTS + 1
    requires forall b :: a <= b < n ==> !accepts(b)
    requires n <= MAX_ATTEMPTS ==> accepts(n)
    ensures FirstAccepted(accepts, a) == n
    decreases n - a
  {
    if a < n {
      FirstAcceptedIs(accepts, a + 1, n);
    }
  }

  /** Every word fits on the grid. */
  predicate Fits(words: seq<string>) {
    forall k :: 0 <= k < |words| ==> |words[k]| <= GRID_SIZE
  }

  /** The driver's state between two words: the grid, the records and the number of draws used. */
  datatype Stage = Stage(grid: Grid, words: seq<PlacedWord>, cursor: nat)

  /** One turn of the driver for `word`: a placed word consumes the attempts up to its accepted one,
      a skipped word all 250. */
  function Turn(s: Stage, word: string, draws: nat -> Choice): (r: Stage)
    requires IsGrid(s.grid) && |word| <= GRID_SIZE
    ensures IsGrid(r.grid) && |s.words| <= |r.words| <= |s.words| + 1
  {
    var n := FirstAccepted(Verdicts(s.grid, word, draws, s.cursor, |s.words| > 0), 1);
    if n <= MAX_ATTEMPTS then
      var ch := AttemptChoice(draws, s.cursor, n);
      Stage(WriteWord(s.grid, word, ChoicePath(ch, |word|), |word|), s.words + [Entry(word, ch)], s.cursor + n)
    else
      Stage(s.grid, s.words, s.cursor + MAX_ATTEMPTS)
  }

  /** The placement driver as a function: the stage after the words `toPlace[..k]` have been taken
      in order, each one's turn skipped once 15 words are placed. */
  function Driven(toPlace: seq<string>, k: nat, draws: nat -> Choice): (r: Stage)
    requires Fits(toPlace) && k <= |toPlace|
    ensures IsGrid(r.grid) && |r.words| <= MAX_WORDS
    decreases k, 2
  {
    if k == 0 then Stage(EmptyGrid(), [], 0) else Step(toPlace, k, draws)
  }

  /** Iteration `k` of the driver's loop: the stage is kept once 15 words are placed, and otherwise
      word `toPlace[k - 1]` takes its turn. */
  function Step(toPlace: seq<string>, k: nat, draws: nat -> Choice): (r: Stage)
    requires Fits(toPlace) && 0 < k <= |toPlace|
    ensures IsGrid(r.grid) && |r.words| <= MAX_WORDS
    decreases k, 1
  {
    if |Driven(toPlace, k - 1, draws).words| >= MAX_WORDS then Driven(toPlace, k - 1, draws)
    else TurnAt(toPlace, k, draws)
  }

  /** The turn of word `toPlace[k - 1]`, taken from the stage after the words before it. */
  function TurnAt(toPlace: seq<string>, k: nat, draws: nat -> Choice): (r: Stage)
    requires Fits(toPlace) && 0 < k <= |toPlace|
    ensures IsGrid(r.grid)
    ensures |r.words| <= |Driven(toPlace, k - 1, draws).words| + 1
    decreases k, 0
  {
    Turn(Driven(toPlace, k - 1, draws), toPlace[k - 1], draws)
  }

  /** With 15 words placed the driver takes no turn for the next word. */
  lemma DrivenHolds(toPlace: seq<string>, n: nat, draws: nat -> Choice, s: Stage)
    requires Fits(toPlace) && 0 < n <= |toPlace|
    requires Driven(toPlace, n - 1, draws) == s && |s.words| >= MAX_WORDS
    ensures Driven(toPlace, n, draws) == s
  {
  }

  /** Once 15 words are placed the driver takes no further turn. */
  lemma {:induction false} DrivenStops(toPlace: seq<string>, k: nat, n: nat, draws: nat -> Choice, s: Stage)
    requires Fits(toPlace) && k <= n <= |toPlace|
    requires Driven(toPlace, k, draws) == s && |s.words| >= MAX_WORDS
    ensures Driven(toPlace, n, draws) == s
    decreases n - k
  {
    if k < n {
      DrivenStops(toPlace, k, n - 1, draws, s);
      DrivenHolds(toPlace, n, draws, s);
    }
  }

  /** What `placeSingleWord` does to `word` is one turn of the driver. */
  lemma TurnIs(s: Stage, word: string, draws: nat -> Choice, g': Grid, ws': seq<PlacedWord>, placed: bool, used: nat)
    requires IsGrid(s.grid) && |word| <= GRID_SIZE
    requires 1 <= used <= MAX_ATTEMPTS
    requires NoAcceptBefore(s.grid, word, draws, s.cursor, used, |s.words| > 0)
    requires placed ==>
      AttemptAccepts(s.grid, word, draws, s.cursor, used, |s.words| > 0) &&
      PlacedBy(s.grid, s.words, g', ws', word, AttemptChoice(draws, s.cursor, used))
    requires !placed ==>
      used == MAX_ATTEMPTS && !AttemptAccepts(s.grid, word, draws, s.cursor, used, |s.words| > 0) &&
      g' == s.grid && ws' == s.words
    ensures Turn(s, word, draws) == Stage(g', ws', s.cursor + used)
  {
    var accepts := Verdicts(s.grid, word, draws, s.cursor, |s.words| > 0);
    if placed {
      FirstAcceptedIs(accepts, 1, used);
    } else {
      FirstAcceptedIs(accepts, 1, MAX_ATTEMPTS + 1);
    }
  }

  /** What `placeSingleWord` does to word `toPlace[k]` from the stage the driver reached is the
      driver's next stage. */
  lemma DrivenNext(toPlace: seq<string>, k: nat, draws: nat -> Choice, s: Stage,
                   g': Grid, ws': seq<PlacedWord>, placed: bool, used: nat)
    requires Fits(toPlace) && k < |toPlace| && Driven(toPlace, k, draws) == s && |s.words| < MAX_WORDS
    requires 1 <= used <= MAX_ATTEMPTS
    requires NoAcceptBefore(s.grid, toPlace[k], draws, s.cursor, used, |s.words| > 0)
    requires placed ==>
      AttemptAccepts(s.grid, toPlace[k], draws, s.cursor, used, |s.words| > 0) &&
      PlacedBy(s.grid, s.words, g', ws', toPlace[k], AttemptChoice(draws, s.cursor, used))
    requires !placed ==>
      used == MAX_ATTEMPTS && !AttemptAccepts(s.grid, toPlace[k], draws, s.cursor, used, |s.words| > 0) &&
      g' == s.grid && ws' == s.words
    ensures Driven(toPlace, k + 1, draws) == Stage(g', ws', s.cursor + used)
  {
    TurnIs(s, toPlace[k], draws, g', ws', placed, used);
    assert TurnAt(toPlace, k + 1, draws) == Turn(s, toPlace[k], draws);
  }

  /** Sorting keeps every word on the grid. */
  lemma FitsSorted(words: seq<string>)
    requires Fits(words)
    ensures Fits(WordFilter.SortByLengthDesc(words))
  {
    WordFilter.SortKeepsWords(words);
    var toPlace := WordFilter.SortByLengthDesc(words);
    forall k | 0 <= k < |toPlace| ensures |toPlace[k]| <= GRID_SIZE {
      assert toPlace[k] in toPlace;
      var j :| 0 <= j < |words| && words[j] == toPlace[k];
    }
  }

  /** `buildPuzzleFromWords` as a function: the words sorted longest first, driven onto the empty
      grid, and the grid filled by `pick` when any word was placed. */
  function Build(words: seq<string>, draws: nat -> Choice, pick: (int, int) -> nat): (Grid, seq<PlacedWord>)
    requires Fits(words)
  {
    var toPlace := WordFilter.SortByLengthDesc(words);
    FitsSorted(words);
    var s := Driven(toPlace, |toPlace|, draws);
    if s.words == [] then (s.grid, s.words) else (Filled(s.grid, pick), s.words)
  }

  /** The builder's bookkeeping: every record is unfound and one of `words`, the records run
      from longest to shortest, and no record is shorter than a word still `pending`. */
  predicate LongestFirst(ws: seq<PlacedWord>, words: seq<string>, pending: seq<string>) {
    (forall m :: 0 <= m < |ws| ==> !ws[m].found && ws[m].word in words) &&
    (forall i, j :: 0 <= i < j < |ws| ==> |ws[i].word| >= |ws[j].word|) &&
    (forall i, j :: 0 <= i < |ws| && 0 <= j < |pending| ==> |ws[i].word| >= |pending[j]|)
  }

  /** Trying the longest pending word keeps the bookkeeping, whether or not it is placed. */
  lemma LongestFirstStep(ws: seq<PlacedWord>, ws': seq<PlacedWord>, words: seq<string>, pending: seq<string>)
    requires pending != [] && WordFilter.LengthDesc(pending) && pending[0] in words
    requires LongestFirst(ws, words, pending)
    requires ws' == ws || (|ws'| == |ws| + 1 && ws'[..|ws|] == ws && ws'[|ws|].word == pending[0] && !ws'[|ws|].found)
    ensures LongestFirst(ws', words, pending[1..])
  {
    if ws' != ws {
      forall i | 0 <= i < |ws| ensures ws'[i] == ws[i] {
        assert ws'[..|ws|][i] == ws'[i];
      }
    }
  }

  /** A conflict-free placement keeps every record consistent and adds a consistent new one. */
  lemma PlaceKeepsConsistent(g: Grid, ws: seq<PlacedWord>, word: string, start: Cell, d: Direction)
    requires IsGrid(g) && WordsConsistent(g, ws) && d in DIRECTIONS
    requires var path := Path(start, d, |word|); PathInBounds(path) && !Conflicts(g, word, path)
    ensures var path := Path(start, d, |word|);
      WordsConsistent(WriteWord(g, word, path, |word|), ws + [PlacedWord(word, path, d.dx, d.dy, false)])
    ensures CountFound(ws + [PlacedWord(word, Path(start, d, |word|), d.dx, d.dy, false)]) == CountFound(ws)
  {
    var path := Path(start, d, |word|);
    var entry := PlacedWord(word, path, d.dx, d.dy, false);
    PathDistinct(start, d, |word|);
    var g' := WriteWord(g, word, path, |word|);
    var ws' := ws + [entry];
    forall k | 0 <= k < |ws'| ensures WellPlaced(ws'[k]) && ReadsAlong(g', ws'[k]) {
      if k < |ws| {
        WriteKeepsReads(g, word, path, ws[k]);
      } else {
        WriteReadsNew(g, word, path, entry);
        if |path| > 0 {
          assert path[0] == start;
        }
      }
    }
    CountFoundAppend(ws, entry);
  }

  /** The scan of one attempt: walk the word's cells from `start` along `d`, stop at the first
      cell holding a different letter, and count the cells already holding the right one. */
  method ScanPath(g: Grid, word: string, start: Cell, d: Direction) returns (conflict: bool, overlaps: nat, positions: seq<Cell>)
    requires IsGrid(g) && PathInBounds(Path(start, d, |word|))
    ensures conflict == Conflicts(g, word, Path(start, d, |word|))
    ensures !conflict ==> overlaps == Overlaps(g, word, Path(start, d, |word|), |word|) && positions == Path(start, d, |word|)
  {
    ghost var path := Path(start, d, |word|);
    overlaps := 0;
    conflict := false;
    positions := [];
    for i := 0 to |word|
      invariant positions == path[..i]
      invariant overlaps == Overlaps(g, word, path, i)
      invariant forall k :: 0 <= k < i ==> !(At(g, path[k]).Some? && At(g, path[k]).value != word[k])
    {
      var r := start.r + d.dx * i;
      var c := start.c + d.dy * i;
      assert path[i] == Cell(r, c);
      var existing := g[r][c];
      var letter := word[i];
      if existing.Some? && existing.value != letter {
        conflict := true;
        return;
      }
      if existing == Some(letter) {
        overlaps := overlaps + 1;
      }
      assert path[..i + 1] == path[..i] + [path[i]];
      positions := positions + [Cell(r, c)];
    }
    assert positions == path;
  }

  /** One placement attempt with draws `ch`: pick the direction and the start cell, scan the path
      and decide whether the word goes there. */
  method JudgeAttempt(g: Grid, word: string, attempt: nat, hasExisting: bool, ch: Choice) returns (accepted: bool)
    requires IsGrid(g) && |word| <= GRID_SIZE
    ensures accepted == Accepted(g, word, ChoicePath(ch, |word|), attempt, hasExisting)
  {
    var dir := DIRECTIONS[ch.dirPick % |DIRECTIONS|];
    var rowRange := StartRange(GRID_SIZE, |word|, dir.dx);
    var colRange := StartRange(GRID_SIZE, |word|, dir.dy);
    var startRow := rowRange.min + ch.rowPick % (rowRange.max - rowRange.min + 1);
    var startCol := colRange.min + ch.colPick % (colRange.max - colRange.min + 1);
    var start := Cell(startRow, startCol);
    assert Path(start, dir, |word|) == ChoicePath(ch, |word|);
    var conflict, overlaps, positions := ScanPath(g, word, start, dir);
    if conflict {
      return false;
    }
    accepted := !(hasExisting && overlaps == 0 && attempt < INTERSECT_UNTIL);
  }

  /** What an ended drag did. */
  datatype Outcome = Discarded | Wrong | Correct(index: nat, allFound: bool)

  /** The status a generate request ends with. */
  datatype Status = InsufficientWords(count: nat) | Ready(total: nat)

  class Puzzle {
    var grid: Grid
    var placedWords: seq<PlacedWord>
    var foundCount: nat
    var currentSelection: seq<Cell>
    var isDragging: bool
    var dragStart: Option<Cell>

    /** The grid is 20x20 (or not yet built, with no words), the counter counts the found words,
        and every placed word lies straight along an enabled direction and reads correctly. */
    ghost predicate Valid()
      reads this
    {
      (IsGrid(grid) || (grid == [] && placedWords == [])) &&
      foundCount == CountFound(placedWords) &&
      WordsConsistent(grid, placedWords)
    }

    constructor ()
      ensures Valid()
      ensures grid == [] && placedWords == [] && foundCount == 0
      ensures currentSelection == [] && !isDragging && dragStart == None
    {
      grid := [];
      placedWords := [];
      foundCount := 0;
      currentSelection := [];
      isDragging := false;
      dragStart := None;
    }

    /** Writes `word` along the path chosen by draws `ch` and appends its unfound record. */
    method Record(word: string, ch: Choice)
      requires Valid() && IsGrid(grid) && |word| <= GRID_SIZE
      requires !Conflicts(grid, word, ChoicePath(ch, |word|))
      modifies this`grid, this`placedWords
      ensures Valid() && IsGrid(grid)
      ensures PlacedBy(old(grid), old(placedWords), grid, placedWords, word, ch)
    {
      var dir := ChoiceDirection(ch);
      var start := ChoiceStart(ch, |word|);
      ghost var g0 := grid;
      WriteLetters(word, ChoicePath(ch, |word|));
      PlaceKeepsConsistent(g0, placedWords, word, start, dir);
      placedWords := placedWords + [Entry(word, ch)];
    }

    /** Writes the word's letters into the grid along `positions`, first letter first. */
    method WriteLetters(word: string, positions: seq<Cell>)
      requires IsGrid(grid) && PathInBounds(positions) && |positions| == |word|
      modifies this`grid
      ensures IsGrid(grid) && grid == WriteWord(old(grid), word, positions, |word|)
    {
      for j := 0 to |word|
        invariant IsGrid(grid)
        invariant grid == WriteWord(old(grid), word, positions, j)
      {
        var pos := positions[j];
        grid := grid[pos.r := grid[pos.r][pos.c := Some(word[j])]];
      }
    }

    /** `placeSingleWord`: up to 250 attempts, attempt `a` using draw `draws(from + a - 1)`; the word
        is placed by the first accepted attempt, or skipped when none is. `used` is the number of
        attempts made, so the next word's draws start at `from + used`. */
    method PlaceSingleWord(word: string, draws: nat -> Choice, from: nat) returns (placed: bool, used: nat)
      requires Valid() && IsGrid(grid) && |word| <= GRID_SIZE
      modifies this`grid, this`placedWords
      ensures Valid() && IsGrid(grid)
      ensures 1 <= used <= MAX_ATTEMPTS
      ensures NoAcceptBefore(old(grid), word, draws, from, used, |old(placedWords)| > 0)
      ensures placed ==>
        AttemptAccepts(old(grid), word, draws, from, used, |old(placedWords)| > 0) &&
        PlacedBy(old(grid), old(placedWords), grid, placedWords, word, AttemptChoice(draws, from, used))
      ensures !placed ==>
        used == MAX_ATTEMPTS &&
        !AttemptAccepts(old(grid), word, draws, from, used, |old(placedWords)| > 0) &&
        grid == old(grid) && placedWords == old(placedWords)
    {
      var attempt := 0;
      var hasExistingLetters := |placedWords| > 0;
      while attempt < MAX_ATTEMPTS
        invariant 0 <= attempt <= MAX_ATTEMPTS
        invariant Valid() && grid == old(grid) && placedWords == old(placedWords)
        invariant NoAcceptBefore(grid, word, draws, from, attempt + 1, hasExistingLetters)
      {
        attempt := attempt + 1;
        var ch := AttemptChoice(draws, from, attempt);
        var accepted := JudgeAttempt(grid, word, attempt, hasExistingLetters, ch);
        if accepted {
          Record(word, ch);
          return true, attempt;
        }
        NoAcceptExtend(grid, word, draws, from, attempt, hasExistingLetters);
      }
      return false, MAX_ATTEMPTS;
    }

    /** `fillRandomLetters`: every empty cell gets the oracle's letter. */
    method FillRandomLetters(pick: (int, int) -> nat)
      requires Valid() && IsGrid(grid)
      modifies this`grid
      ensures Valid() && IsGrid(grid)
      ensures grid == Filled(old(grid), pick) && Complete(grid)
    {
      ghost var g0 := grid;
      for r := 0 to GRID_SIZE
        invariant IsGrid(grid) && placedWords == old(placedWords)
        invariant forall r', c :: 0 <= r' < r && 0 <= c < GRID_SIZE ==> grid[r'][c] == FilledCell(g0[r'][c], pick, r', c)
        invariant forall r' :: r <= r' < GRID_SIZE ==> grid[r'] == g0[r']
      {
        for c := 0 to GRID_SIZE
          invariant IsGrid(grid) && placedWords == old(placedWords)
          invariant forall r', c' :: 0 <= r' < r && 0 <= c' < GRID_SIZE ==> grid[r'][c'] == FilledCell(g0[r'][c'], pick, r', c')
          invariant forall r' :: r < r' < GRID_SIZE ==> grid[r'] == g0[r']
          invariant forall c' :: 0 <= c' < c ==> grid[r][c'] == FilledCell(g0[r][c'], pick, r, c')
          invariant forall c' :: c <= c' < GRID_SIZE ==> grid[r][c'] == g0[r][c']
        {
          if grid[r][c].None? {
            var ch := ALPHABET[pick(r, c) % |ALPHABET|];
            grid := grid[r := grid[r][c := Some(ch)]];
          }
        }
      }
      var f := Filled(g0, pick);
      forall r | 0 <= r < GRID_SIZE ensures grid[r] == f[r] {
        assert forall c :: 0 <= c < GRID_SIZE ==> grid[r][c] == f[r][c];
      }
      assert grid == f;
      forall k | 0 <= k < |placedWords| ensures ReadsAlong(grid, placedWords[k]) {
        FilledKeepsReads(g0, pick, placedWords[k]);
      }
      FilledComplete(g0, pick);
    }

    /** The placement loop of `buildPuzzleFromWords`: the words of `toPlace`, longest first, each
        tried once in turn until 15 are placed; the outcome is `Drive` from the empty grid. */
    /** One turn of the placement loop: word `toPlace[k]` tried with the draws from `cursor`,
        taking the driver from its stage after `k` words to its stage after `k + 1`. */
    method PlaceNext(toPlace: seq<string>, k: nat, ghost words: seq<string>, draws: nat -> Choice, cursor: nat)
      returns (used: nat)
      requires Valid() && Fits(toPlace) && k < |toPlace| && |placedWords| < MAX_WORDS
      requires Driven(toPlace, k, draws) == Stage(grid, placedWords, cursor)
      requires WordFilter.LengthDesc(toPlace) && toPlace[k] in words
      requires LongestFirst(placedWords, words, toPlace[k..])
      requires placedWords == [] ==> grid == EmptyGrid()
      modifies this`grid, this`placedWords
      ensures Valid() && placedWords != []
      ensures Driven(toPlace, k + 1, draws) == Stage(grid, placedWords, cursor + used)
      ensures LongestFirst(placedWords, words, toPlace[k + 1..])
    {
      var word := toPlace[k];
      ghost var g0, before := grid, placedWords;
      var placed;
      placed, used := PlaceSingleWord(word, draws, cursor);
      if before == [] {
        FirstAttemptOnEmptyGrid(word, draws, cursor);
      }
      DrivenNext(toPlace, k, draws, Stage(g0, before, cursor), grid, placedWords, placed, used);
      assert toPlace[k..][0] == word && toPlace[k..][1..] == toPlace[k + 1..];
      WordFilter.LengthDescSuffix(toPlace, k);
      LongestFirstStep(before, placedWords, words, toPlace[k..]);
    }

    /** The placement loop of `buildPuzzleFromWords`: the words of `toPlace`, longest first, each
        tried once in turn until 15 are placed; the outcome is the driver's final stage. */
    method PlaceWords(toPlace: seq<string>, ghost words: seq<string>, draws: nat -> Choice)
      requires Valid() && grid == EmptyGrid() && placedWords == [] && foundCount == 0
      requires WordFilter.LengthDesc(toPlace) && Fits(toPlace)
      requires forall k :: 0 <= k < |toPlace| ==> toPlace[k] in words
      modifies this`grid, this`placedWords
      ensures Valid()
      ensures var d := Driven(toPlace, |toPlace|, draws); grid == d.grid && placedWords == d.words
      ensures LongestFirst(placedWords, words, [])
      ensures placedWords != [] <==> toPlace != []
      ensures placedWords == [] ==> grid == EmptyGrid()
    {
      var cursor := 0;
      var k := 0;
      while k < |toPlace|
        invariant k <= |toPlace|
        invariant Valid() && foundCount == 0
        invariant Driven(toPlace, k, draws) == Stage(grid, placedWords, cursor)
        invariant LongestFirst(placedWords, words, toPlace[k..])
        invariant placedWords != [] <==> k > 0
        invariant placedWords == [] ==> grid == EmptyGrid()
      {
        if |placedWords| >= MAX_WORDS {
          DrivenStops(toPlace, k, |toPlace|, draws, Stage(grid, placedWords, cursor));
          break;
        }
        var used := PlaceNext(toPlace, k, words, draws, cursor);
        cursor := cursor + used;
        k := k + 1;
      }
    }

    /** `buildPuzzleFromWords`: a fresh empty grid, words tried longest first until 15 are placed,
        then, when any word was placed, the empty cells filled. */
    method BuildPuzzleFromWords(words: seq<string>, draws: nat -> Choice, pick: (int, int) -> nat)
      requires Fits(words)
      modifies this`grid, this`placedWords, this`foundCount
      ensures (grid, placedWords) == Build(words, draws, pick)
      ensures Valid() && IsGrid(grid) && foundCount == 0
      ensures |placedWords| <= MAX_WORDS
      ensures words != [] <==> placedWords != []
      ensures placedWords == [] ==> grid == EmptyGrid()
      ensures placedWords != [] ==> Complete(grid)
      ensures forall k :: 0 <= k < |placedWords| ==> !placedWords[k].found && placedWords[k].word in words
      ensures forall i, j :: 0 <= i < j < |placedWords| ==> |placedWords[i].word| >= |placedWords[j].word|
    {
      grid := EmptyGrid();
      placedWords := [];
      foundCount := 0;
      var toPlace := WordFilter.SortByLengthDesc(words);
      WordFilter.SortOrders(words);
      WordFilter.SortKeepsWords(words);
      forall k | 0 <= k < |toPlace| ensures toPlace[k] in words {
        assert toPlace[k] in toPlace;
      }
      if toPlace != [] {
        assert toPlace[0] in toPlace;
      }
      if words != [] {
        assert words[0] in words;
      }
      FitsSorted(words);
      PlaceWords(toPlace, words, draws);
      if |placedWords| == 0 {
        return;
      }
      FillRandomLetters(pick);
    }

    /** `generatePuzzle` once the API reply is in: reset the puzzle, filter the reply into candidate
        words, refuse a theme with fewer than 5 of them, and otherwise build the puzzle. */
    method GeneratePuzzle(data: seq<WordFilter.Candidate>, draws: nat -> Choice, pick: (int, int) -> nat)
      returns (status: Status)
      modifies this`grid, this`placedWords, this`foundCount
      ensures Valid() && foundCount == 0
      ensures var words := WordFilter.Take(WordFilter.SortByLengthDesc(WordFilter.Collected(WordFilter.NounFilter(data))), WordFilter.MAX_CANDIDATES);
        if |words| < MIN_CANDIDATES then
          status == InsufficientWords(|words|) && grid == [] && placedWords == []
        else
          status == Ready(|placedWords|) && 0 < |placedWords| <= MAX_WORDS && IsGrid(grid) && Complete(grid) &&
          Fits(words) && (grid, placedWords) == Build(words, draws, pick) &&
          forall k :: 0 <= k < |placedWords| ==> !placedWords[k].found && placedWords[k].word in words
    {
      foundCount := 0;
      grid := [];
      placedWords := [];
      var words := WordFilter.SelectCandidates(data);
      if |words| < MIN_CANDIDATES {
        return InsufficientWords(|words|);
      }
      BuildPuzzleFromWords(words, draws, pick);
      return Ready(|placedWords|);
    }

    /** `startDrag`: the drag begins at `cell`, which alone is selected. */
    method StartDrag(cell: Cell)
      modifies this`isDragging, this`dragStart, this`currentSelection
      ensures isDragging && dragStart == Some(cell) && currentSelection == [cell]
    {
      isDragging := true;
      dragStart := Some(cell);
      currentSelection := [cell];
    }

    /** `updateSelection`: with the pointer over `cell`, the selection becomes the straight run from
        the drag's start cell to `cell`, or stays as it was when there is no such run on the grid. */
    method UpdateSelection(cell: Cell)
      modifies this`currentSelection
      ensures dragStart == None ==> currentSelection == old(currentSelection)
      ensures dragStart.Some? ==>
        var run := DragRun(dragStart.value, cell);
        currentSelection == if run.Some? then run.value else old(currentSelection)
    {
      if dragStart == None {
        return;
      }
      var sel := NormalizeDrag(dragStart.value, cell);
      if sel.Some? {
        currentSelection := sel.value;
      }
    }

    /** The state part of `markSelectionCorrect`: record `wordIndex` as found, count it and clear the
        selection; `allFound` tells whether that was the last word. */
    method MarkSelectionCorrect(wordIndex: nat) returns (allFound: bool)
      requires Valid() && wordIndex < |placedWords| && !placedWords[wordIndex].found
      modifies this`placedWords, this`foundCount, this`currentSelection
      ensures Valid() && currentSelection == []
      ensures placedWords == old(placedWords)[wordIndex := old(placedWords)[wordIndex].(found := true)]
      ensures foundCount == old(foundCount) + 1 && foundCount <= |placedWords|
      ensures allFound <==> forall k :: 0 <= k < |placedWords| ==> placedWords[k].found
    {
      var entry := placedWords[wordIndex];
      CountFoundMark(placedWords, wordIndex);
      ghost var ws0 := placedWords;
      placedWords := placedWords[wordIndex := entry.(found := true)];
      foundCount := foundCount + 1;
      forall k | 0 <= k < |placedWords| ensures WellPlaced(placedWords[k]) && ReadsAlong(grid, placedWords[k]) {
        assert WellPlaced(ws0[k]) && ReadsAlong(grid, ws0[k]);
      }
      CountFoundBound(placedWords);
      allFound := foundCount == |placedWords|;
      currentSelection := [];
    }

    /** The state part of `markSelectionWrong`: the selection is cleared. */
    method MarkSelectionWrong()
      modifies this`currentSelection
      ensures currentSelection == []
    {
      currentSelection := [];
    }

    /** `checkSelection`: mark the first placed word the selection finds, or mark the selection wrong. */
    method CheckSelection(letters: string, coords: seq<Cell>) returns (outcome: Outcome)
      requires Valid()
      modifies this`placedWords, this`foundCount, this`currentSelection
      ensures Valid() && currentSelection == [] && |placedWords| == |old(placedWords)|
      ensures forall k :: 0 <= k < |placedWords| ==>
        placedWords[k].word == old(placedWords)[k].word && placedWords[k].positions == old(placedWords)[k].positions &&
        (old(placedWords)[k].found ==> placedWords[k].found)
      ensures outcome.Correct? || outcome == Wrong
      ensures outcome == Wrong <==> forall j :: 0 <= j < |old(placedWords)| ==> !Matches(old(placedWords)[j], letters, coords)
      ensures outcome == Wrong ==> placedWords == old(placedWords) && foundCount == old(foundCount)
      ensures outcome.Correct? ==>
        var i := outcome.index;
        i < |old(placedWords)| && Matches(old(placedWords)[i], letters, coords) &&
        (forall j :: 0 <= j < i ==> !Matches(old(placedWords)[j], letters, coords)) &&
        placedWords == old(placedWords)[i := old(placedWords)[i].(found := true)] &&
        foundCount == old(foundCount) + 1 &&
        (outcome.allFound <==> foundCount == |placedWords|)
    {
      var matchedIndex := FindMatch(placedWords, letters, coords);
      if matchedIndex == -1 {
        MarkSelectionWrong();
        return Wrong;
      }
      var allFound := MarkSelectionCorrect(matchedIndex);
      CountFoundBound(placedWords);
      return Correct(matchedIndex, allFound);
    }

    /** `endDrag`: the drag ends; a selection of fewer than 3 cells is discarded, any other is checked
        with the letters its cells show. Afterwards no drag is under way and nothing is selected. */
    method EndDrag() returns (outcome: Outcome)
      requires Valid()
      modifies this`isDragging, this`dragStart, this`currentSelection, this`placedWords, this`foundCount
      ensures Valid() && !isDragging && dragStart == None && currentSelection == []
      ensures |placedWords| == |old(placedWords)|
      ensures forall k :: 0 <= k < |placedWords| ==>
        placedWords[k].word == old(placedWords)[k].word && placedWords[k].positions == old(placedWords)[k].positions &&
        (old(placedWords)[k].found ==> placedWords[k].found)
      ensures |old(currentSelection)| < MIN_SELECTION <==> outcome == Discarded
      ensures outcome == Discarded || outcome == Wrong ==> placedWords == old(placedWords) && foundCount == old(foundCount)
      ensures outcome != Discarded ==>
        var coords := old(currentSelection);
        var letters := SelectedLetters(grid, coords);
        (outcome == Wrong <==> forall j :: 0 <= j < |old(placedWords)| ==> !Matches(old(placedWords)[j], letters, coords)) &&
        (outcome.Correct? ==>
          var i := outcome.index;
          i < |old(placedWords)| && Matches(old(placedWords)[i], letters, coords) &&
          (forall j :: 0 <= j < i ==> !Matches(old(placedWords)[j], letters, coords)) &&
          placedWords == old(placedWords)[i := old(placedWords)[i].(found := true)] &&
          foundCount == old(foundCount) + 1 &&
          (outcome.allFound <==> foundCount == |placedWords|))
    {
      isDragging := false;
      if |currentSelection| < MIN_SELECTION {
        currentSelection := [];
        dragStart := None;
        return Discarded;
      }
      var coords := currentSelection;
      var letters := SelectedLetters(grid, coords);
      outcome := CheckSelection(letters, coords);
      dragStart := None;
    }
  }
}