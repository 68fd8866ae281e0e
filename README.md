# Word search puzzle core, modelled in Dafny

This project models the deterministic core of a browser word-search game, `wordfind/script.js`. The game
takes a list of candidate words for a theme and builds a 20x20 letter grid from them. It then lets the
player drag across the grid to find those words. The model covers five parts:

- **Candidate filter.** This is the list step after the lookup. It keeps noun-tagged entries and
  upper-cases them. It keeps purely alphabetic words of 3 to 12 letters, drops repeats and stops after 30
  words. It then orders the words longest first and keeps 15. `generatePuzzle` refuses to build a puzzle
  from fewer than 5 words.
- **Placement.** Each word gets up to 250 randomised attempts along one of the three enabled directions
  (right, down, diagonal down-right).
  - The start cell comes from a range that keeps the word on the grid.
  - An attempt fails on a letter conflict.
  - Once a word is on the grid, a placement that crosses no existing letter is refused while the attempt
    number is below 175 (70% of 250).
  - An accepted attempt writes the letters and appends an unfound `{word, positions, dx, dy, found}` record.
  - `buildPuzzleFromWords` tries the words longest first until 15 are placed.
- **Fill.** Every empty cell gets a random letter from A to Z.
- **Drag normalisation.** `updateSelection` turns a drag from the start cell to the cell under the
  pointer into a straight run of cells, or leaves the selection as it was.
- **Matching.** A finished drag of at least 3 cells is checked. The first unfound word whose text equals
  the selected letters (forward or reversed) and whose path equals the selected cells (forward or
  reversed) is marked found and counted.

The source's global state (`gridLetters`, `placedWords`, `foundCount`, `currentSelection`, `isDragging`,
`dragStartCell`) is the class `Game.Puzzle`. Its methods update these fields in place under `modifies`
frames. `Valid()` is the invariant every method keeps:
- the grid is 20x20, or not yet built and holding no words;
- the counter equals the number of found records;
- every record lies straight along an enabled direction and the grid spells it along its path.

Pure logic is written as functions, with lemmas about them:
- the start range;
- the conflict and overlap tests;
- the effect of a write;
- the drag run `DragRun`;
- the match predicate `Matches`;
- the filter pipeline.

Every loop of the source is a method proved against a function or predicate that states its result:
- the attempt loop (`PlaceSingleWord`) against `AttemptAccepts`, the test of one attempt, and through
  `TurnIs` against `Turn`, one whole turn of a word;
- the driver loop (`PlaceWords`) against `Driven`, the stage reached after each word of the sorted list;
- the fill loops against `Filled`;
- the run-building loop against `DragRun`;
- the match scan against `Matches`;
- the path comparisons against sequence equality and reversal;
- the collecting loop against `Collected`.

`Build` composes these into `buildPuzzleFromWords` as a function: sort, drive, then fill when a word was
placed. `Game.Puzzle.BuildPuzzleFromWords` produces exactly its grid and records.

Randomness becomes oracle parameters, so every contract holds for every possible sequence of draws:
- Each `Math.floor(Math.random() * n)` in placement is an oracle natural number reduced `% n`.
  `draws: nat -> Choice` gives the direction, row and column picks of each attempt.
- Attempt `a` of a word whose draws start at `from` uses `draws(from + a - 1)`.
  `PlaceSingleWord` returns how many attempts it used, so the next word's draws follow on.
- The fill letter of cell `(r, c)` is `ALPHABET[pick(r, c) % 26]`.

Modelling choices, where reading the code decided the question:
- An entry without a word is stringified as `"undefined"`, upper-cased to `"UNDEFINED"`, and can become a
  puzzle word if its tags allow it. The model keeps this as written (`WordFilter.WordText`).
- `Array.prototype.sort` is stable, so `words.sort((a, b) => b.length - a.length)` is a stable sort by
  descending length (`WordFilter.SortByLengthDesc`). Its stability, order and permutation are proved
  separately.
- A rendered cell's `textContent` is its letter, or `""` for an empty cell (`Matching.CellText`), so the
  selection's letters are the grid's letters at the selected cells.
- The status "Could not place any words" (`buildPuzzleFromWords`) cannot happen: the first word always
  lands on the empty grid (`Game.FirstAttemptOnEmptyGrid`), and `Game.Puzzle.BuildPuzzleFromWords` proves
  that placed words exist exactly when the input is non-empty. Even if it could happen, `generatePuzzle`
  would then overwrite that status with the ready message. The model's `Status` therefore has no
  "nothing placed" case.

Files: `wrappers.dfy` (Option), `grid_model.dfy` (cells, directions, grid, records, found count),
`placement.dfy` (start range, conflicts, overlaps, writes), `fill.dfy`, `seq_util.dfy` (reversal,
distinctness), `letters.dfy` (upper-casing),
`selection.dfy` (drag runs), `matching.dfy` (letters, path comparison, match search), `word_filter.dfy`
(candidate filter), `game.dfy` (oracle choices, the placement driver and the `Puzzle` class).

## Model

| member | source | states |
|---|---|---|
| GridModel.SetCell | wordfind/script.js:347 | Writing one letter puts it at that cell and leaves every other cell of the grid as it was |
| GridModel.EmptyGrid | wordfind/script.js:266-268 | The fresh grid is 20x20 and every cell is empty |
| GridModel.CountFoundBound | wordfind/script.js:665 | The found counter never exceeds the number of records, and it equals that number exactly when every record is found |
| GridModel.CountFoundMark | wordfind/script.js:645-646 | Marking one unfound record found raises the found count by exactly one |
| GridModel.CountFoundAppend | wordfind/script.js:350-356 | Appending an unfound record leaves the found count unchanged |
| Placement.StartRangeInBounds | wordfind/script.js:363-372 | For a step of -1, 0 or 1, every start in the range keeps all cells `s + d*i`, `i < len`, inside `[0, size-1]` |
| Placement.StartRangeNonEmpty | wordfind/script.js:363-372 | A zero step gives the full axis and a positive step gives `[0, size-len]`; for a non-zero step the range is non-empty exactly when the word fits |
| Placement.PathFits | wordfind/script.js:308-324 | A start from the two ranges of an enabled direction puts the whole path on the grid |
| Placement.PathDistinct | wordfind/script.js:322-324 | A path along an enabled direction never visits a cell twice |
| Placement.OverlapsZero | wordfind/script.js:318-332 | The overlap count is at most the number of cells scanned, and it is zero exactly when no scanned cell already holds the word's letter |
| Placement.LateAttemptsIgnoreOverlap | wordfind/script.js:340-342 | From attempt 175 on, an attempt is refused only for a conflict |
| Placement.WriteWordOff | wordfind/script.js:345-348 | Writing a word leaves every cell off its path unchanged |
| Placement.WriteWordOn | wordfind/script.js:345-348 | On a path without repeated cells, each path cell holds the word's letter after the write |
| Placement.WriteKeepsReads | wordfind/script.js:328-348 | A conflict-free write keeps every word the grid already spelled |
| Placement.WriteReadsNew | wordfind/script.js:345-356 | After the write the grid spells the new word along its recorded path |
| Fill.FilledSpec | wordfind/script.js:374-384 | After filling, the cell is non-empty; a filled cell keeps its letter; a new letter lies in A-Z |
| Fill.FilledComplete | wordfind/script.js:376-383 | No grid cell is empty after filling |
| Fill.FilledKeepsReads | wordfind/script.js:378-380 | A word the grid spelled before filling is still spelled after |
| Selection.NormalizeDrag | wordfind/script.js:537-565 | The run-building loop returns exactly `DragRun(start, end)`: the run, or None when it leaves the grid |
| Selection.DragRunRejects | wordfind/script.js:540-553 | A zero drag selects the start cell alone; a non-straight drag such as (2, 1) leaves the selection unchanged |
| Selection.DragRunShape | wordfind/script.js:547-565 | An accepted run has `max(|dRow|, |dCol|) + 1` cells and starts at the start cell. It ends at the end cell, steps by the signs of the deltas and lies on the grid |
| Selection.DragRunOnGrid | wordfind/script.js:558-563 | A straight drag between two grid cells always yields a run, so the existence check never rejects it |
| Selection.DragRunReverse | wordfind/script.js:537-565 | Dragging the other way selects exactly the reversed run |
| Selection.PlacedPathSelectable | wordfind/script.js:322-324 | A placed word's path is what a drag from its first cell to its last cell selects, and a drag back selects its reverse |
| Letters.UpperReverse | wordfind/script.js:596-597 | Upper-casing the reversed letters gives the reverse of the upper-cased letters |
| Matching.SelectedLettersSpell | wordfind/script.js:587 | Cells that each show one letter of a text, in order, join into that text |
| Matching.SelectedLettersWhole | wordfind/script.js:587 | Selecting a placed word's path reads its text, and selecting the reversed path reads its reversed text |
| Matching.PathsMatch | wordfind/script.js:620-628 | The cell-by-cell comparison is true exactly when the two paths are equal, and false on a length mismatch |
| Matching.PathsMatchReversed | wordfind/script.js:630-641 | The reversed comparison is true exactly when the reversed recorded path equals the selected cells |
| Matching.PathsMatchReversedIsReverse | wordfind/script.js:630-641 | The reversed path equals the selection exactly when the path equals the reversed selection; a length mismatch fails both tests |
| Matching.MatchesReversed | wordfind/script.js:596-607 | A selection finds a word exactly when the same cells selected from the other end find it |
| Matching.FindMatch | wordfind/script.js:600-611 | The result is -1 exactly when no word matches. Otherwise it is the index of the first word that matches: unfound, with the letters forward or reversed, on the path forward or reversed |
| WordFilter.NounFilter | wordfind/script.js:206-211 | The kept entries are exactly the input entries tagged "n" and tagged neither "pron" nor "adj" |
| WordFilter.AllCapsUpper | wordfind/script.js:221-222 | A word matching `^[A-Z]+$` is unchanged by upper-casing |
| WordFilter.Normalized | wordfind/script.js:220-226 | Every word that passes the per-entry checks is alphabetic upper case with 3 to 12 letters |
| WordFilter.DedupSpec | wordfind/script.js:228-230 | Skipping seen words leaves a list without repeats holding every word of the input |
| WordFilter.CollectedSpec | wordfind/script.js:215-232 | The collected words are distinct puzzle words, at most 30 of them. Each comes from an eligible entry, and all eligible words are kept when fewer than 30 were collected |
| WordFilter.CollectWords | wordfind/script.js:215-232 | The loop with its `seen` set and early exit at 30 returns the first 30 distinct eligible words, in order |
| WordFilter.SortOrders | wordfind/script.js:235 | The sorted list is non-increasing in length |
| WordFilter.SortPermutes | wordfind/script.js:235 | Sorting is a permutation: the multiset of words is unchanged |
| WordFilter.SortStable | wordfind/script.js:235 | Words of equal length keep their original relative order |
| WordFilter.SortKeepsWords | wordfind/script.js:235 | Sorting keeps exactly the same words, and a list without repeats stays without repeats |
| WordFilter.SelectCandidates | wordfind/script.js:205-236 | The candidates are at most 15 distinct puzzle words, longest first, each from an eligible noun entry. They are the first 15 of the sorted collected words |
| Game.PickIn | wordfind/script.js:311-316 | A drawn start always lies inside its range |
| Game.ChoiceDirection | wordfind/script.js:304-305 | A drawn direction is one of the enabled directions |
| Game.ChoiceStart | wordfind/script.js:308-316 | A drawn start cell lies inside the row and column start ranges of the drawn direction |
| Game.ChoicePath | wordfind/script.js:308-324 | The path an attempt's draws select has the word's length, lies on the grid and never repeats a cell |
| Game.Entry | wordfind/script.js:350-356 | The appended record carries the word, has found unset, and lies straight along an enabled direction |
| Game.FirstAttemptOnEmptyGrid | wordfind/script.js:299-342 | With no word placed yet, the first attempt is always accepted, whatever the draws |
| Game.PlacedWordFindable | wordfind/script.js:595-611 | A placed word can always be found: a drag between its end cells selects its path, the cells read its text, and the selection matches it in both directions |
| Game.LongestFirstStep | wordfind/script.js:273-277 | Trying the longest pending word, placed or not, keeps the records unfound and drawn from the input. They stay longest first and no shorter than any pending word |
| Game.PlaceKeepsConsistent | wordfind/script.js:322-356 | A conflict-free placement keeps every earlier word spelled along its path and adds a spelled, straight, unfound record; the found count is unchanged |
| Game.ScanPath | wordfind/script.js:318-336 | The scan reports a conflict exactly when a path cell holds a different letter; otherwise it gives the overlap count and the path |
| Game.JudgeAttempt | wordfind/script.js:304-342 | An attempt is accepted exactly when it has no conflict and is not a zero-overlap placement refused by the bias rule |
| Game.Puzzle.constructor | wordfind/script.js:6-11 | The initial state: no grid, no words, nothing found, nothing selected, no drag |
| Game.Puzzle.Record | wordfind/script.js:344-356 | The word's letters are written along the drawn path and its unfound record appended; the invariant still holds |
| Game.Puzzle.WriteLetters | wordfind/script.js:345-348 | The write loop's grid is the grid with the word written along the positions |
| Game.Puzzle.PlaceSingleWord | wordfind/script.js:295-361 | The word is placed by the first accepted attempt of up to 250. If every attempt is refused, grid and records are unchanged. Attempts before the one used were all refused |
| Game.Puzzle.FillRandomLetters | wordfind/script.js:374-384 | The grid becomes the filled grid: complete, earlier letters kept, every placed word still spelled |
| Game.FirstAcceptedIs | wordfind/script.js:301-359 | The first accepted attempt number is `n` exactly when every attempt before it is refused and `n` is accepted; it is 251 when all 250 are refused |
| Game.TurnIs | wordfind/script.js:295-361 | What the attempt loop does to a word, placing it by its first accepted attempt or skipping it after 250, is exactly one turn `Turn` of the driver, and the next word's draws start after the attempts used |
| Game.DrivenStops | wordfind/script.js:274-275 | Once 15 words are placed, the driver's stage stays the same for every later word |
| Game.DrivenNext | wordfind/script.js:273-277 | Trying word `k` from the stage the driver reached after `k` words gives the driver's stage after `k + 1` words |
| Game.Puzzle.PlaceNext | wordfind/script.js:274-276 | One iteration of the driver loop takes the grid and records from the driver's stage after `k` words to its stage after `k + 1`. Records stay unfound, longest first and no shorter than any word still to come |
| Game.Puzzle.PlaceWords | wordfind/script.js:273-277 | The grid and records after the loop are exactly the driver's final stage `Driven`: every word of the sorted list is tried once, in order, until 15 are placed. The records are unfound input words, longest first, and exist exactly when the list is non-empty |
| Game.Puzzle.BuildPuzzleFromWords | wordfind/script.js:264-291 | The grid and records are exactly `Build(words)`: a fresh grid, the words driven longest first, and the fill once a word is placed. They hold at most 15 unfound input words, longest first, and none exactly when the input is empty. Once a word is placed, the grid is complete |
| Game.Puzzle.GeneratePuzzle | wordfind/script.js:239-262 | Fewer than 5 candidates report the count and build nothing. Otherwise the puzzle is `Build` of the candidates: the grid is complete and holds between 1 and 15 unfound candidate words |
| Game.Puzzle.StartDrag | wordfind/script.js:478-484 | A drag is under way from the cell, which alone is selected |
| Game.Puzzle.UpdateSelection | wordfind/script.js:529-572 | The selection becomes the drag run from the start cell to the pointer's cell. It is unchanged with no start cell or no valid run |
| Game.Puzzle.MarkSelectionCorrect | wordfind/script.js:643-671 | Only the given record's flag is set, the counter rises by one and stays at most the record count. The selection is cleared, and "all found" holds exactly when every record is found |
| Game.Puzzle.MarkSelectionWrong | wordfind/script.js:673-681 | The selection is cleared |
| Game.Puzzle.CheckSelection | wordfind/script.js:595-618 | If no word matches, the selection is wrong and nothing changes. Otherwise exactly the first matching word is marked found and counted |
| Game.Puzzle.EndDrag | wordfind/script.js:574-591 | A selection under 3 cells is discarded without a check. Otherwise its letters and cells are checked as above. Afterwards no drag is under way, nothing is selected and no found flag has reverted |

## Left out

- Word lookup (`fetchWords`, wordfind/script.js:100-190): network requests, response merging and the
  async/try-catch flow of `generatePuzzle`. `Game.Puzzle.GeneratePuzzle` starts from the entries
  the lookup returned. The fetch-error status is not modelled.
- The frequency-times-length sort comparator (wordfind/script.js:193-203). It depends on `parseFloat` and
  floating-point products, so the filter takes its entries already in that order.
- `Math.random`. Placement draws and fill letters are oracle parameters, not probability distributions.
  Uniformity is not modelled.
- Rendering, counters and status texts (`renderGrid`, `renderWordsList`, `updateCounter`, `setStatus`, the
  class-list styling of preview, found and wrong cells, and the word-list marking). Only the state they
  read is modelled.
- Event wiring (wordfind/script.js:432-526). The mouse and touch handlers, their `isDragging` guards and
  `getCellFromEvent` are left out. The model starts from the grid coordinates they pass to `startDrag`,
  `updateSelection` and `endDrag`.
- Confetti and the 800 ms timer that clears the wrong-selection styling. They do not touch the puzzle state.
- Letters.UpperChar: upper-cases ASCII letters only. The full Unicode case mapping of `toUpperCase` is not
  modelled, for example `"ß"` becoming `"SS"`.
- Game.Puzzle.PlaceSingleWord: requires words of at most 20 letters. A longer word makes the source index
  a row outside the grid. Every word it receives comes from the filter and has 3 to 12 letters.
- Game.Puzzle.PlaceSingleWord: the source writes inside the attempt loop, after the checks. In the model,
  the write happens in `Record`, called from the loop body. The extra `used` result only threads the
  oracle's draw stream into the next word's attempts.
- Game.Puzzle.UpdateSelection: the selection holds grid coordinates rather than DOM cell elements. The
  `querySelector` existence check is the test that the coordinates lie on the 20x20 grid.
- WordFilter.SortByLengthDesc: the in-place array sort is modelled as a function on sequences.
- WordFilter.WordText: an entry's word is a string or absent. Other JSON values, which the source
  stringifies (`null` to `"NULL"`, `true` to `"TRUE"`, wordfind/script.js:221), are not modelled.
