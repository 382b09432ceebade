# Word search: a verified model of the board engine

This project models the game logic of a browser word-search game, `wordsearch.js`. That logic has five parts:

- **Board store.** The virtual board `gBoard` is a 16 × 16 grid of characters. `initBoard` sets every cell to the sentinel `'.'`. `fillBoard` turns each remaining sentinel into a noise letter from `VALID_CHARS`.
- **Placement engine.**
  - The four `putWord*` helpers check the bounds of a run, then check that no cell of the run holds a conflicting letter, then write the word.
  - `putWord` optionally reverses the word with `reverseString`, then dispatches on a direction code.
  - `tryWord` draws a candidate start cell and direction.
  - `forceWord` retries `tryWord` up to `times` times.
- **Set-up pipeline** (part of `initGame`). The words are cleaned by `cleanWord` into records of `{index, word, clean, inBoard}`. The records are sorted longest first, forced onto the board one by one, and the board is filled. The placed records are then listed in their original order.
- **Selection decoder** (`getWordFound`). It walks from the start cell of a drag to its end cell. Each step moves by the signs of the remaining deltas. It collects the letters it passes. The integer heading test of `mouseMoveListener`, used to draw the outline, is modelled beside it.
- **Found-word tracking.** `checkWordNotFound`, `markWordAsFound` and `countWordsNotFound` work on the displayed list. The win test of `mouseUpListener` also belongs here.

The Dafny modules follow those parts:

- `Util`: `Option`, `Abs`, `Min`, `Max`, `Sign`.
- `Text`: `reverseString`; `cleanWord` as the source writes it (five regular-expression vowel passes, the `u` pass twice, then the deletion of `[\s']`); and a character-by-character reference definition that it is proved equal to.
- `Geometry`:
  - the constants and the four directions;
  - the cells of a run and the guards of the helpers;
  - the cells the decoder visits, given in closed form (`Walk`);
  - the drag classification.
- `Puzzle`: the class `Board`, which owns `gBoard` as an `array2<char>`. Its methods are `initBoard` (the constructor), `fillBoard`, the helpers (`PutRun`), `putWord`, `tryWord`, `forceWord` and `getWordFound`. Each random draw is an explicit parameter of type `Random`, a real in [0, 1).
- `Setup`: the pipeline of `initGame` (wordsearch.js:245-261).
  - The pure parts are functions on sequences of records: map, stable sort, filter.
  - The board-changing parts are methods over a `Board`.
- `Tracking`:
  - the displayed list as a sequence of `{clean, found}` entries, with a class `WordList` whose `markWordAsFound` updates them in place;
  - `checkWordNotFound` as a search for the first unfound match;
  - `countWordsNotFound` and the win condition.
- `Session`: the core of `mouseUpListener` (decode, look up, mark, detect the win), and the fact that every word on the board can be found by dragging over it.

The central invariant of the board is `Board.KeepsLetters`: a cell that holds a letter never receives a different one. Every placement and fill method promises it: `PutRun`, `PutWord`, `TryWord`, `ForceWord`, `FillBoard` and the set-up methods. The bare commit loop `WriteRun` does not, because it runs only after the run has been checked. A method's effect is stated by `Board.Committed`. A placement succeeds exactly when the direction code is known and the run is placeable. On success the run reads the word and no cell off the run changes. On failure the board is unchanged.

Whether a run is placeable is defined once, on a snapshot of the board (`Grid`, a map from cells to characters; `Board.Contents` takes it). The set-up pipeline keeps one snapshot per record, taken before the record is forced. This lets its contract say, for every record, that `inBoard` is true exactly when one of that word's draws was accepted on the board as it then stood. The snapshot after a placed record is `Commit` of the one before: the word laid at its placement, every other cell kept. Together with the fill, this determines the final board.

Some behaviour of the code that the model keeps:

- The decoder walks to the raw end cell of the drag, not to the snapped end of the outline (`Geometry.RawEndLeavesOutline`).
- A drag that starts and ends on the same cell is still submitted, as a one-letter word.
- An empty cleaned word is placed by any proposal whose start cell is on the board: the guards pass and the helper writes nothing. `tryWord` can still propose an off-board start for it, for example column 17 when it is laid horizontally (`Puzzle.ProposalMayLeaveBoard`), and that attempt fails.
- Every column range of `tryWord`, and its row ranges for `'h'`, `'v'` and `'d'`, reach past the last start that fits. The column can be `17 - len` for `'h'`, `'u'` and `'d'`, or 16 for `'v'`. The row can be `17 - len` for `'v'` and `'d'`, or 16 for `'h'`. Only the guards of the helpers reject such starts.
- The row range of `'u'` is `[len - 1, 17 - len]`. It overshoots only for words of at most one letter. For three to nine letters it stops short: the rows from `18 - len` to 15 fit the word upward but are never proposed (`Puzzle.UpwardRangeStopsShort`).
- For `'u'`, the row range is inverted once a word has ten letters or more. Every draw except exactly zero then gives a row the word does not fit above (`Puzzle.LongUpwardRejected`). In practice long words are never laid diagonally upward.
- A word whose cleaned form is empty is listed once placed, which needs only one draw with an on-board start. The decoder always reads at least one cell, so no drag ever decodes the empty word, and a game that lists one can never be won.

## Model

| member | source | states |
|---|---|---|
| Geometry.SentinelIsNoise | wordsearch.js:11-12 | The sentinel `'.'` is not a noise letter, so a filled board holds no sentinel. |
| Geometry.DirectionOf | wordsearch.js:107-112 | A direction code is recognised exactly when it is one of `'h'`, `'v'`, `'u'`, `'d'`. |
| Geometry.Fits | wordsearch.js:117-178 | When the bounds guards of a helper pass, the start cell is on the board and the word is no longer than either side of the board, so a word longer than both sides is rejected by all four helpers. |
| Geometry.FitsIffRunOnBoard | wordsearch.js:117-178 | For a non-empty word, the bounds guards of each helper pass exactly when every cell of the run lies on the board. |
| Geometry.OnRunIff | wordsearch.js:117-178 | The cells a helper writes are exactly the cells `(RowAt(d, row, i), ColAt(d, col, i))` for the indices `i` of the word. |
| Geometry.Walk | wordsearch.js:460-471 | The decoder visits `max(abs(eRow - sRow), abs(eCol - sCol)) + 1` cells. |
| Geometry.AlongNext | wordsearch.js:467-468 | One step of the decoder moves a coordinate by the sign of its remaining delta, as the closed form predicts. |
| Geometry.AlongArrives | wordsearch.js:466 | A coordinate reaches its end value exactly once the number of steps has covered its delta. |
| Geometry.AlongBetween | wordsearch.js:467-468 | A coordinate of the walk never leaves the interval between its start and end values. |
| Geometry.AlongCell | wordsearch.js:464-468 | For endpoints on the board, each cell the loop reads is on the board. The loop's exit test holds exactly when all steps are done. In both coordinates the next step gives the next cell of the walk. |
| Geometry.WalkEnds | wordsearch.js:460-471 | The first cell read is the start cell and the last is the end cell. |
| Geometry.WalkInRectangle | wordsearch.js:460-471 | The walk never leaves the rectangle spanned by the start and end cells. |
| Geometry.WalkOnBoard | wordsearch.js:460-471 | With both endpoints on the board, every visited cell is on the board. |
| Geometry.AlongAligned | wordsearch.js:467-468 | A coordinate whose delta is zero or the full distance moves by one unit step each time. |
| Geometry.WalkAligned | wordsearch.js:460-471 | When start and end share a row, a column or a 45-degree diagonal, the walk is exactly the straight run between them. |
| Geometry.WalkAlongRun | wordsearch.js:460-471 | Walking from the first to the last cell of a run visits the run's cells in order. |
| Geometry.WalkAlongRunBackward | wordsearch.js:460-471 | Walking from the last to the first cell of a run visits the run's cells in reverse order. |
| Geometry.RunBackwardOnBoard | wordsearch.js:117-178 | The cells of a run that passes the guards, taken in reverse, are on the board. |
| Geometry.Classify | wordsearch.js:365-378 | A drag is outlined along the row exactly when `abs(dc) > 2 abs(dr)`, and along the column exactly when `abs(dr) > 2 abs(dc)`. |
| Geometry.ClassifyMovedDrag | wordsearch.js:365-378 | For a drag that moved and is neither flat nor steep, both deltas are non-zero and the outline angle is its quadrant's (45, 135, -45 or -135 degrees). |
| Geometry.ClassifyCompass | wordsearch.js:365-378 | A drag along a row is outlined along the row, one along a column along the column, and one along a 45-degree diagonal gets its quadrant's angle. |
| Geometry.ClassifyOpposite | wordsearch.js:365-378 | Reversing a drag keeps an axial heading, and turns a diagonal one by 180 degrees. |
| Geometry.SnapEnd | wordsearch.js:365-368 | An axial outline is snapped to an end cell that keeps the drag's column on a row outline and the drag's row on a column outline. The end therefore shares the start cell's row or column, and snapping keeps the heading. A diagonal outline gets no integer end. |
| Geometry.RawEndLeavesOutline | wordsearch.js:417-427 | The decoder gets the raw end cell. A drag outlined along row 0 can therefore read a cell off that row. |
| Puzzle.ScaledBelow | wordsearch.js:220 | `floor(n * Math.random())` is a valid index below `n`. |
| Puzzle.PickRandomChar | wordsearch.js:219-221 | The picked character is one of `chars`. |
| Puzzle.Scale | wordsearch.js:88-89 | When the range is not empty, the start-cell draw lies in it, both ends included. |
| Puzzle.Propose | wordsearch.js:79-89 | `tryWord` always proposes one of the four recognised direction codes. |
| Puzzle.ProposalMayLeaveBoard | wordsearch.js:84-89 | The ranges of `tryWord` can propose column `BOARD_COLS` for a vertical word, and column 17 for an empty word laid horizontally; both starts fail the guards. |
| Puzzle.UpwardRangeStopsShort | wordsearch.js:85-88 | For `'u'` and a word of three to nine letters, the proposed row lies in `[len - 1, 17 - len]`, although the word fits upward from every lower row of the board as well. |
| Puzzle.LongUpwardRejected | wordsearch.js:85-88 | For `'u'` and a word of ten letters or more, the row range is inverted: every draw above zero gives a row from which the word does not fit upward, so the helper rejects it. |
| Puzzle.Laid | wordsearch.js:106 | The string written, reversed or not, has the word's length and exactly the word's characters. |
| Puzzle.FillCell | wordsearch.js:54 | A sentinel cell becomes a letter of `VALID_CHARS`, and any other cell is kept. |
| Puzzle.Board.constructor | wordsearch.js:38-46 | `initBoard` gives a fresh 16 × 16 board whose every cell is the sentinel. |
| Puzzle.Board.PlaceableCells | wordsearch.js:119-126 | A run is placeable exactly when it passes the guards and each of its cells is the sentinel or already holds the word's letter there. |
| Puzzle.Board.RunAccepts | wordsearch.js:122-126 | The conflict check loop of a helper (the same loop in all four) reports success exactly when the run is placeable. |
| Puzzle.Board.WriteRun | wordsearch.js:128 | The commit loop of a helper (the same loop in all four) leaves the run reading the word, and no cell off the run changes. |
| Puzzle.Board.PutRun | wordsearch.js:117-178 | A helper succeeds exactly when the start is in bounds, the run fits, and each run cell is the sentinel or already holds the word's letter. On success the run reads the word and every cell off the run is unchanged. On failure the board is unchanged. No letter is ever overwritten. |
| Puzzle.Board.PutWord | wordsearch.js:103-114 | Placing `w` reversed has the outcome of placing `reverseString(w)` unreversed. An unknown direction code fails and changes nothing. No letter is ever overwritten. |
| Puzzle.Board.TryWord | wordsearch.js:79-92 | The outcome is that of `putWord` on the proposed candidate. The result is true exactly when that candidate was placeable on the board before the call. |
| Puzzle.Board.TooLongNeverAccepted | wordsearch.js:79-92 | No draw places a word longer than both dimensions. |
| Puzzle.Board.ForceWord | wordsearch.js:65-72 | The result is false when `times <= 0` or the word is longer than both dimensions. It is true exactly when one of the first `times` draws proposes a placeable candidate. On success the word is placed at the first such draw and all earlier draws failed. On failure the board is unchanged. No letter is ever overwritten. |
| Puzzle.Board.FillBoard | wordsearch.js:51-57 | Each sentinel becomes the noise letter its draw picks, a letter of `VALID_CHARS`. Every other cell is unchanged. No sentinel is left. |
| Puzzle.Board.Letters | wordsearch.js:465 | The letters a path reads, one per cell, in order. |
| Puzzle.Board.DecodedIsWalk | wordsearch.js:460-471 | Letters collected cell by cell along the walk are the letters of the walk. |
| Puzzle.Board.GetWordFound | wordsearch.js:460-471 | With both endpoints on the board, the loop terminates without leaving the board. It returns the letters of the cells of `Walk` from start to end. |
| Puzzle.Board.RunLetters | wordsearch.js:117-178 | The cells of a placed run, in order, read the word. |
| Puzzle.Board.RunLettersBackward | wordsearch.js:117-178 | The cells of a placed run, last to first, read the reversed word. |
| Puzzle.Board.SelectPlacedWord | wordsearch.js:460-471 | Dragging from the first letter of a run to its last decodes exactly the run's string. |
| Puzzle.Board.SelectPlacedWordBackward | wordsearch.js:460-471 | Dragging from the last letter of a run to its first decodes the run's string reversed. |
| Text.Reverse | wordsearch.js:228-230 | `reverseString` keeps the length. |
| Text.ReverseAt | wordsearch.js:228-230 | Character `k` of the reverse is character `n-1-k` of the input. |
| Text.ReverseIs | wordsearch.js:228-230 | Any string that mirrors the input at every index is its reverse. |
| Text.ReverseReverse | wordsearch.js:228-230 | Reversing twice gives the input back. |
| Text.ReverseMembers | wordsearch.js:228-230 | Reversing keeps the set of characters. |
| Text.ReplaceAll | wordsearch.js:306-311 | One vowel pass keeps the length, turns every character of its class into the replacement, and keeps every other character. |
| Text.VowelPasses | wordsearch.js:305-311 | The six vowel passes, the `u` pass twice, map each character on its own to its base vowel and keep the length. |
| Text.RemoveDropped | wordsearch.js:312 | The deletion of `[\s']` leaves no white space or apostrophe, keeps only characters of its input, never lengthens it, and leaves a string without them unchanged. |
| Text.CleanWord | wordsearch.js:304-313 | The output of `cleanWord` holds no white space, apostrophe or listed accented vowel, and is never longer than the input. |
| Text.VowelPassesCons | wordsearch.js:305-311 | The vowel passes act on the first character independently of the rest. |
| Text.RemoveStep | wordsearch.js:312 | After the vowel passes, the deletion of `[\s']` treats a character just as the reference definition does. |
| Text.RemoveAfterVowels | wordsearch.js:305-312 | The whole chain of replacements equals the reference definition. |
| Text.CleanWordIsFold | wordsearch.js:304-313 | `cleanWord` equals the reference definition. White space and apostrophes vanish, each listed accented vowel becomes its base vowel, and every other character (`ñ`, upper case) is kept in order. |
| Text.CleanWordIdempotent | wordsearch.js:304-313 | Cleaning a cleaned word changes nothing. |
| Setup.MakeItems | wordsearch.js:245-252 | Record `k` has index `k`, the `k`-th word, its cleaned form, and `inBoard` false. |
| Setup.Insert | wordsearch.js:254 | Inserting into a sorted list adds exactly one element. |
| Setup.SortBy | wordsearch.js:254 | The sort keeps the number of records. |
| Setup.InsertPermutes | wordsearch.js:254 | Insertion adds exactly the inserted record, as a multiset. |
| Setup.ConsStable | wordsearch.js:254 | A record that comes before every element of a stably sorted list can be put at its head. |
| Setup.InsertStable | wordsearch.js:254 | Inserting a record that comes before all later records keeps the list stably sorted. |
| Setup.SortPermutes | wordsearch.js:254 | The sort is a permutation of its input. |
| Setup.SortStable | wordsearch.js:254 | For input in ascending index order, the result is sorted by key, with ties in index order. This is the order a stable `Array.prototype.sort` gives. |
| Setup.Placed | wordsearch.js:261 | The filter keeps at most the records it is given. |
| Setup.PlacedMembers | wordsearch.js:261 | The filter keeps exactly the records with `inBoard` set. |
| Setup.PlacedDistinct | wordsearch.js:261 | The filter keeps the indices distinct. |
| Setup.ConsAscending | wordsearch.js:261 | A record with a smaller index than every element of an ascending list can be put at its head. |
| Setup.InsertByIndex | wordsearch.js:261 | Inserting by index into a list with ascending indices, none equal to the new one, keeps the indices ascending. |
| Setup.SortByIndexAscending | wordsearch.js:261 | Sorting records with distinct indices by index gives strictly ascending indices. |
| Setup.Listed | wordsearch.js:261 | The final list is a permutation of the placed records. |
| Setup.PlacementOrder | wordsearch.js:245-254 | Before placement, the records are a permutation of the input's. Their cleaned lengths never increase, and equal lengths keep word order. |
| Setup.ListedIsPlacedInOrder | wordsearch.js:261 | The final list is a permutation of the placed records and holds exactly the records with `inBoard` set, in strictly ascending index order. |
| Setup.SortedRecords | wordsearch.js:245-254 | Each sorted record comes from the input words, and no two share an index. |
| Setup.ListedRecords | wordsearch.js:254-261 | Given the placement outcomes, the final list is in ascending index order and holds exactly the placed records. Each of them comes from the input, and its cleaned word fits on the board. |
| Setup.ForceItem | wordsearch.js:256 | `item.inBoard = forceWord(item.clean)` for one record. It is placed exactly when one of its 256 draws is accepted on the board before the call, at the placement the first accepted draw proposes. The new board is then the old one with the word laid there: every cell off the run is unchanged. A failed record leaves the board unchanged. No letter is overwritten. |
| Setup.PlaceItem | wordsearch.js:256 | One step of the `forEach`: the record is forced as `Setup.ForceItem` states, and every earlier word without a `'.'` still reads on the board. |
| Setup.FillKeeping | wordsearch.js:258 | Each sentinel becomes the noise letter its draw picks, a letter of `VALID_CHARS`, and every other cell is kept. No sentinel is left, and every placed word without a `'.'` still reads on the board. |
| Setup.PlaceWords | wordsearch.js:254-256 | Each sorted record keeps its fields. Its `inBoard` is set exactly when one of its draws is accepted on the board as it stood before that record. The board after a placed record is the board before it with the word laid where the first accepted draw proposes, and every other cell kept. A record that is not placed leaves the board unchanged. No letter is overwritten, and every placed word without a `'.'` reads on the board at the end. |
| Setup.InitGame | wordsearch.js:245-261 | The board starts all sentinels. The outcome records are the sorted records with `inBoard` set exactly when one of the word's draws was accepted on the board before it. Each placed record turns that board into the same board with the word laid at its first accepted draw; a record that is not placed changes nothing. The final board is the board after placement with each sentinel replaced by a `VALID_CHARS` letter. The final list holds exactly the placed records, in ascending original order, each built from its word. Every placed word without a `'.'` reads on the final board. |
| Tracking.FirstUnfound | wordsearch.js:478-481 | The result is the first unfound entry whose cleaned word matches. No earlier entry matches. The result is none exactly when no entry matches. |
| Tracking.UnfoundCount | wordsearch.js:501-503 | The number of unfound entries is at most the number of entries, and zero exactly when every entry is found. |
| Tracking.Flip | wordsearch.js:491 | Marking entry `i` sets its found flag and leaves every other entry as it was. |
| Tracking.Won | wordsearch.js:446 | The game is won exactly when every entry is found. |
| Tracking.FlipCount | wordsearch.js:488-503 | Marking an unfound entry lowers the count by exactly one. |
| Tracking.ResubmitFails | wordsearch.js:478-495 | Suppose exactly one unfound entry matches a word. The lookup finds it, and after it is marked the same word finds nothing. |
| Tracking.FlipKeepsOtherWords | wordsearch.js:478-495 | Marking one entry leaves the lookup result of every other word unchanged. |
| Tracking.WordList.constructor | wordsearch.js:199-210 | The displayed list has one unfound entry per listed cleaned word, in order. |
| Tracking.WordList.MarkWordAsFound | wordsearch.js:488-495 | The result is true exactly when the lookup finds an entry. Then exactly that entry is marked and the count drops by one. Otherwise nothing changes. |
| Session.PlacedWordDecodes | wordsearch.js:460-471 | Dragging from a placed word's first letter to its last decodes exactly the word, whether it was laid forwards or reversed. |
| Session.PlacedWordIsFound | wordsearch.js:427-429 | A placed word that is still unfound on the list is found by the drag over it. |
| Session.SubmitSelection | wordsearch.js:417-452 | Releasing the drag decodes the walk's letters. The word is marked exactly when it is unfound on the list, which lowers the count by one. Otherwise the list is unchanged. The win is reported exactly when a word was marked and none remains. |

## Left out

- Rendering and mouse input are not modelled. This covers `displayBoard`, `displayWordList` (beyond the entries it creates), the outline pixel arithmetic and CSS transforms of `mouseMoveListener`, and the `offsetX / cellWidth` conversions of the mouse listeners. The decoder takes integer cells.
- The diagonal branch of the outline (the `Math.sqrt` at wordsearch.js:382) is floating-point drawing code and is not modelled. Only the integer classification (wordsearch.js:365-378) and the axial snap (wordsearch.js:365-368) are.
- `getWordSet` and `fetch('./words.json')` are file and network I/O. The word list is a parameter of `InitGame`.
- Settings, statistics, game state in local storage, the modal dialogs (`msgbox`, `lib/modal/modal.js`), `mouseDownListener`, `mouseOutListener` and `clickToRestart` are persistence or UI code and are not modelled.
- `Math.random` is a parameter. Its values have type `Random`, and no claim is made about their distribution. `forceWord`'s draws come as a sequence, `tryWord` consumes four values per attempt, and `fillBoard` takes one value per cell. Floating-point products and floors are modelled as exact real arithmetic.
- `Puzzle.Board.GetWordFound`: requires both endpoints on the board. The source has no such guard. The listeners compute the cells with `Math.floor(offset / cellSize)` and no clamp, so only the page geometry, which is not modelled, keeps them on the board. Off the board the source misbehaves: with an off-board row, `gBoard[sRow]` is undefined and the read throws; with an off-board column on an on-board row, the text `undefined` is appended to the word.
- `Session.SubmitSelection`: has the same requirement, for the same reason. It does not model the outline clone, the colour counter `gFoundWords`, or the dialog shown on a win. The win is a returned flag.
- `Setup.InitGame`: the survival of a placed word is proved only for words without `'.'`. A `'.'` in a cleaned word is written as the sentinel itself. A later placement or `fillBoard` may therefore overwrite that cell, so such a word can be listed but not found.
- `Setup.InitGame`: `attempts[i]` holds the draws for the word at index `i`. This fixes an independent source of random values per word, in place of one global stream.
- Strings are sequences of Unicode scalar values, while JavaScript counts UTF-16 code units. The model assumes that no word holds a character outside the Basic Multilingual Plane; for such words lengths and reversal would differ.
- Some members are stated through two-state predicates (`Board.Committed`, `Board.KeepsLetters`), `old` or `fresh`. These are the state-changing methods of `Board`, `WordList`, `Setup` and `Session`. Their contracts relate the new board or list to the old one.
