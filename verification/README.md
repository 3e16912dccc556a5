# Crossword layout generator and game-progress rules, in Dafny

This project models two parts of a themed crossword game.

The first part is the layout generator (`src/utils/generator.js`). It lays
5 across and 5 down words from a word-bank category onto a 12×12 grid. A
backtracking search tries start positions for each word and checks each one
with a placement validator. Every committed word gets a fresh grid copy. A
retry loop reshuffles the words up to 20 times before it gives up.

The search is exhaustive: it fails only when no sequence of accepted
placements from the pool can meet both targets (`Exhaustive.SearchExhaustive`).
So whether a level comes out depends only on the category's words, never
on the random draws, and the retries never turn a failure into a success
(see "## Findings").

The second part is the progress rules of the game page (`src/pages/Game.jsx`):

- numbering of the clue start cells;
- cell-click selection;
- the display grid;
- answer submission and scoring;
- hints.

These are modelled as pure transitions over an explicit state record.

Files and modules:

| file | module | models |
|---|---|---|
| `wrappers.dfy` | `Wrappers` | `Option` (the source's `null`) and `Result` (thrown errors) |
| `grids.dfy` | `Grids` | constants, grid, word entries, placed words, cell arithmetic, coverage |
| `random.dfy` | `Random` | `Math.random` as an explicit tape of draws, and `shuffle` |
| `validator.dfy` | `Validator` | `canPlace` |
| `candidates.dfy` | `CandidateGenerator` | the candidate start positions of `placeWords` |
| `commit.dfy` | `GridWrite` | the grid copy written on commit, and the pool with one word removed |
| `search.dfy` | `Backtracking` | `placeWords` and the board invariant it keeps |
| `exhaustive.dfy` | `Exhaustive` | when `placeWords` succeeds: exactly when the board can be finished |
| `generator.dfy` | `Generator` | `generateLevel`, plus properties of a generated level |
| `numbering.dfy` | `Numbering` | the numbering block of the level initialisation |
| `game.dfy` | `Game` | `handleCellClick`, `calculateDisplayGrid`, `handleSubmit`, `handleHint` |

Randomness is a parameter. A `Tape` is an infinite sequence of natural
numbers plus a read position. `Math.floor(Math.random() * n)` becomes the
next draw modulo `n`. The direction coin `Math.random() > 0.5` becomes
"the next draw modulo 2 is 1". Every run of the source matches some tape,
so every property proved for all tapes holds for every run.

The central invariant is `Backtracking.Consistent(board, order)`, where
`order` is the ghost placement history:

- the grid is 12×12;
- there are at most 5 words across and at most 5 down;
- every word is in the list of its own direction;
- every placed word is spelled letter by letter on the grid;
- every letter on the grid belongs to some placed word;
- the first word sits at the centre start;
- every later word shares a cell with an earlier one.

`CommitConsistent` proves that committing an accepted placement keeps the
invariant. From it, every level that `generateLevel` returns is proved to
have these properties:

- exactly 5 across and 5 down words;
- a connected placement history;
- entries drawn from the category, none used more often than the category
  supplies it;
- every word reads back from the grid (`LevelReadsBack`);
- some across word crosses some down word (`LevelCrosses`).

A category with fewer than 10 words always ends in the `Exhausted` error
(`TooFewWordsExhausted`).

The validator also accepts a word laid along a parallel word that is
already on the board. For example, with CAT across at (5, 6), CATS across
at the same start passes all four checks and counts as an intersection
(`Backtracking.ParallelExtensionAccepted`). The model keeps this behaviour.

## Model

| member | source | states |
|---|---|---|
| Grids.EmptyGrid | src/utils/generator.js:8-12 | the starting grid is 12×12 with every cell empty |
| Grids.CoversIffLetterCell | src/pages/Game.jsx:82-88 | the game's coverage test (same row and startX ≤ x < startX + length for across; the column analogue for down) holds exactly when the cell is the cell of some letter k, as the generator computes it (startX + k or startY + k) |
| Grids.CrossingsAgree | src/utils/generator.js:46-55 | where two words spelled on one grid share a cell, they supply the same letter |
| Random.Draw | src/utils/generator.js:18 | one draw from the tape is below the bound, and the tape advances by one |
| Random.Coin | src/utils/generator.js:116 | the direction coin takes exactly one draw: the tape advances by one and its source is unchanged |
| Random.CoinFlips | src/utils/generator.js:116 | tapes pair up on the coin: changing only the next draw turns either outcome into the other and leaves every later draw as it was |
| Random.SwapDown | src/utils/generator.js:17-20 | the Fisher-Yates pass returns a permutation of its input (same multiset and length), using one draw per swap |
| Random.Shuffle | src/utils/generator.js:15-22 | shuffle returns a permutation of its input with the same members; the input is a value and is left unchanged |
| Validator.ScanLetters | src/utils/generator.js:40-80 | the per-letter loop accepts exactly when every remaining letter fits: its cell is empty or holds the same letter, and an empty cell has empty perpendicular neighbours. On acceptance, the intersection flag is true exactly when an earlier letter hit or some remaining cell already holds that letter |
| Validator.CanPlace | src/utils/generator.js:25-93 | accepts exactly when the word stays inside the far edge, every letter fits, and the cells just before the start and just after the end are empty. On acceptance, hasIntersection holds exactly when some covered cell already holds the same letter |
| Validator.AcceptedFits | src/utils/generator.js:30-35 | an accepted across word has startX + len ≤ 12 and a down word has startY + len ≤ 12, with both start coordinates non-negative |
| Validator.AcceptedNoConflict | src/utils/generator.js:46-49 | an accepted word never covers a cell holding a different letter |
| CandidateGenerator.FromLetters | src/utils/generator.js:148-158 | for one board cell, the starts produced are exactly the alignments start = cell − k (along the direction) with word[k] equal to the cell's letter and both coordinates non-negative |
| CandidateGenerator.FromCells | src/utils/generator.js:144-162 | the row-major scan from a cell on produces exactly the aligned, non-negative starts of the letters on the cells from there on |
| CandidateGenerator.Centre | src/utils/generator.js:136-140 | the first word's start puts letter floor(len/2) of an across word on the centre cell (6, 6). The start fits across exactly when len ≤ 12, and down exactly when len ≤ 6 |
| CandidateGenerator.Candidates | src/utils/generator.js:134-163 | the first word gets only the centre start (6 − floor(len/2), 6). Any later word gets exactly the starts that align some occupied cell with an equal letter of the word at non-negative coordinates |
| CandidateGenerator.CandidateOnBoard | src/utils/generator.js:136-158 | scanned starts lie on the board. The centre start is on row 6 and is non-negative unless the word is too long to fit. Every candidate meets the validator's precondition |
| GridWrite.WriteFrom | src/utils/generator.js:175-178 | writing letters k.. puts letter j in the word's j-th cell and leaves every cell outside those letters as it was |
| GridWrite.Write | src/utils/generator.js:174-178 | the committed copy holds word[k] in the word's k-th cell and equals the parent grid everywhere else; the parent is not changed |
| GridWrite.WriteExtends | src/utils/generator.js:172-178 | when no covered cell holds a different letter, the copy keeps every letter of the parent, and its only new letters lie on the word |
| GridWrite.RemoveAt | src/utils/generator.js:180 | the new pool is one shorter, keeps the order of the other words, and together with the removed word has the same multiset as the old pool |
| Backtracking.Commit | src/utils/generator.js:172-187 | after the commit the new word is spelled on the grid, and every cell off the word is as before. An across word is appended to the across list with the down list unchanged, and a down word the other way round |
| Backtracking.Directions | src/utils/generator.js:112-124 | a direction is tried exactly when its target is not yet met, and none twice. With both targets open, the coin picks which comes first and is the only draw. With one open, no draw is taken |
| Backtracking.BothOrdersReachable | src/utils/generator.js:115-116 | with both targets open, each order comes up on some tape: a draw of 1 gives across first, a draw of 0 gives down first |
| Backtracking.Search | src/utils/generator.js:96-105 | placeWords succeeds at once, with the current board, when 5 across and 5 down are placed. It fails when the pool is empty and a target is unmet. Any success it returns meets both targets, is a valid board, keeps the given words as prefixes of its lists, and uses only entries from the pool |
| Backtracking.TryWords | src/utils/generator.js:107-109 | any success of the loop over the remaining words is a finished, valid board grown from the current one with entries from the pool |
| Backtracking.TryDirs | src/utils/generator.js:126-166 | the same for the loop over the chosen directions of one word, which only tries directions whose target is open |
| Backtracking.TryCands | src/utils/generator.js:168-194 | the same for the loop over shuffled candidates. A start is committed only if canPlace accepts it and, unless it is the first word, it intersects. A failed branch is discarded |
| Backtracking.CommitConsistent | src/utils/generator.js:168-187 | committing an accepted start (the centre start for the first word, an intersecting one otherwise) in an open direction keeps the board consistent: counts within target, every word spelled, no stray letter, connected history |
| Backtracking.SpelledKept | src/utils/generator.js:174-178 | words spelled before the commit are still spelled after it, and the new word is spelled too |
| Backtracking.CoveredKept | src/utils/generator.js:174-178 | after the commit, every letter on the grid still belongs to some placed word |
| Backtracking.ConnectedExtends | src/utils/generator.js:136-172 | a first word at the centre, or a later word that lands on a letter already on the board, keeps the history connected: the new word shares a cell with an earlier one |
| Backtracking.CompletesStep | src/utils/generator.js:180-192 | a success found below a commit is a success for the parent: the entry moved from the pool to a list is counted once |
| Backtracking.EntriesOfCommit | src/utils/generator.js:180-187 | committing a word adds exactly its entry to the placed entries |
| Exhaustive.CandidateIff | src/utils/generator.js:134-163 | a start is among the candidates exactly when it is the centre start of a first word, or a non-negative start that lines a letter of the word up with the same letter on the board |
| Exhaustive.SearchExhaustive | src/utils/generator.js:96-198 | placeWords succeeds exactly when the board can be finished: both targets are met, or some pool word has an open direction and a candidate start that canPlace accepts (intersecting unless it is the first word) after which the board can again be finished from the rest of the pool. This holds on every tape |
| Exhaustive.SearchSound | src/utils/generator.js:96-105 | a success is reported only when the board can be finished |
| Exhaustive.SearchFinds | src/utils/generator.js:96-109 | when the board can be finished, the search succeeds whatever the tape |
| Exhaustive.TryWordsSound | src/utils/generator.js:107-198 | a success of the loop over words i.. comes from a finishing move |
| Exhaustive.TryWordsFinds | src/utils/generator.js:107-198 | if word i has a finishing move, the loop started at any k ≤ i succeeds: each earlier word either succeeds or hands over to the next |
| Exhaustive.TryDirsSound | src/utils/generator.js:126-195 | a success of the direction loop comes from a finishing move |
| Exhaustive.TryDirsFinds | src/utils/generator.js:126-195 | if a direction in the list has a finishing start, the direction loop succeeds |
| Exhaustive.TryDirsStep | src/utils/generator.js:126-168 | one turn of the direction loop shuffles exactly the candidates of the first direction, and fails only if that direction's candidate loop and the remaining directions both fail |
| Exhaustive.TryCandsSound | src/utils/generator.js:168-194 | a success of the candidate loop comes from a finishing move |
| Exhaustive.TryCandsStep | src/utils/generator.js:168-193 | one turn of the candidate loop: a success is a finishing move at this start or a success of the rest of the loop, and a failure means the rest of the loop failed too |
| Exhaustive.TryCandsFinds | src/utils/generator.js:168-194 | a finishing start at index k is reached from any j ≤ k: no earlier start can make the loop fail |
| Exhaustive.TryCandsFindsIn | src/utils/generator.js:166-194 | a finishing start anywhere among the shuffled candidates is reached |
| Exhaustive.TryCandsHit | src/utils/generator.js:169-192 | at a finishing start the move is committed and the search below it succeeds |
| Exhaustive.FoundGood | src/utils/generator.js:172-192 | a committed move below which the search succeeded is a finishing move |
| Exhaustive.FinishablePerm | src/utils/generator.js:205-212 | whether a board can be finished depends on the pool only as a multiset, so any shuffle of the words gives the same answer |
| Exhaustive.FinishableMoves | src/utils/generator.js:180 | a finishing sequence from one pool order transfers, move by move, to any permutation of the pool |
| Exhaustive.RemoveSame | src/utils/generator.js:180 | removing the same entry from two permutations of a pool leaves two permutations |
| Backtracking.ParallelExtensionAccepted | src/utils/generator.js:82-92 | with CAT across at (5, 6), the validator accepts CATS across at the same start, with hasIntersection true |
| Generator.EmptyBoardConsistent | src/utils/generator.js:211-212 | the empty board with no words is consistent, so every attempt starts from a valid state |
| Generator.Attempts | src/utils/generator.js:208-224 | a success is a finished level built from the words, with the given theme. The only failure is Exhausted |
| Generator.AttemptStep | src/utils/generator.js:208-221 | one attempt reshuffles the words and searches from an empty grid: it succeeds when that search does, and otherwise the next attempt starts from the reshuffled words and the tape the search left |
| Generator.LastAttempt | src/utils/generator.js:208-224 | once 20 attempts are used up, the loop ends in Exhausted |
| Generator.ShuffledSearchDecides | src/utils/generator.js:205-212 | the search over any shuffle of the words succeeds exactly when a layout of the words can be finished |
| Generator.AttemptsExhaustive | src/utils/generator.js:207-224 | the retry loop succeeds exactly when a layout of the words can be finished from an empty grid, on every tape |
| Generator.AttemptExhaustiveStep | src/utils/generator.js:208-222 | if the next attempt succeeds exactly when its words can be finished, so does this one |
| Generator.LastAttemptExhaustive | src/utils/generator.js:208-224 | the 20th attempt succeeds exactly when the words can be finished |
| Generator.GenerateLevelExhaustive | src/utils/generator.js:201-225 | a category yields a level exactly when it is known and a layout of its words can be finished, and fails with Exhausted exactly when it is known and none can |
| Generator.OutcomeIgnoresTape | src/utils/generator.js:201-225 | whether a level comes out is the same on every tape |
| Generator.RetriesNeverRescue | src/utils/generator.js:207-224 | once the first attempt's search has failed, the loop ends in Exhausted: attempts 2 to 20 re-run a search that cannot succeed |
| Generator.GenerateOnce | src/utils/generator.js:201-224 | generateLevel with one search in place of the retry loop returns exactly what the loop returns, and fails with Exhausted exactly when no layout of the category's words can be finished |
| Generator.GenerateLevel | src/utils/generator.js:201-225 | an unknown category gives InvalidCategory, and no random draw is taken before that error. A known category never gives it. Success carries theme = the category, 5 + 5 words, a valid board, and entries drawn from the category's words |
| Generator.TooFewWordsExhausted | src/utils/generator.js:201-224 | a category with fewer than 10 words always ends in the Exhausted error, for every tape |
| Generator.ReadBack | src/utils/generator.js:174-178 | reading a placed word's cells off the grid gives back exactly its letters, and only a spelled word reads back so |
| Generator.LevelReadsBack | src/utils/generator.js:214-220 | in a generated level, every across and down word reads back from the returned grid |
| Generator.MixedHistoryCrosses | client/src/utils/generator.test.js:43-68 | a connected history with words of both directions contains an across word and a down word that share a cell |
| Generator.LevelCrosses | client/src/utils/generator.test.js:43-68 | every generated level has an across word and a down word that cross |
| Numbering.Starts | src/pages/Game.jsx:37-42 | the start list holds each start cell of the words exactly once, and nothing else |
| Numbering.Insert | src/pages/Game.jsx:45 | inserting a new cell into a row-major sorted list keeps it sorted and adds exactly that cell |
| Numbering.SortRowMajor | src/pages/Game.jsx:45 | the sorted starts are strictly increasing in row-major order (y, then x) and hold exactly the input's cells |
| Numbering.IncreasingUnique | src/pages/Game.jsx:45 | two row-major increasing lists of the same cells are equal, so any correct sort yields the same numbering |
| Numbering.NumberMap | src/pages/Game.jsx:48-51 | the number map covers exactly the sorted starts and gives sorted start i the number i + 1 |
| Numbering.Attach | src/pages/Game.jsx:54-55 | each word, in order, gets the number of its start cell |
| Numbering.InsertClue | src/pages/Game.jsx:54-55 | inserting a clue into a list sorted by number keeps it sorted and adds exactly that clue |
| Numbering.InsertClueStable | src/pages/Game.jsx:54-55 | among the clues of any one number, an inserted clue goes ahead of those already there, and they keep their order |
| Numbering.SortByNumber | src/pages/Game.jsx:54-55 | the re-sorted clue list is ascending by number and a permutation of its input. It is stable, like `Array.prototype.sort`: clues with the same number stay in their input order |
| Numbering.ClueList | src/pages/Game.jsx:54-55 | one clue list: each word with its start number, re-sorted ascending by number and stable among equal numbers; it holds exactly the input words |
| Numbering.NumberLevel | src/pages/Game.jsx:36-57 | the numbers cover exactly the distinct start cells and are exactly 1..k. Row-major order of the starts is the order of their numbers, so words with the same start share a number. Both clue lists are ascending by number, and every clue carries its start's number. Each list holds exactly the words of its direction. Words sharing a number keep the order of their own list |
| Numbering.NumbersFacts | src/pages/Game.jsx:44-51 | numbering sorted distinct starts 1..k gives a map whose values are exactly 1..k, ordered as the starts |
| Numbering.AttachFacts | src/pages/Game.jsx:54-55 | any permutation of the numbered words holds exactly the words, each with its start's number |
| Game.Start | src/pages/Game.jsx:13-25 | after loading, the across and down lists are the placed words of the numbered clue lists, in order; nothing is selected, solved, revealed or visible; the input is empty; score 0, 3 hints, not completed |
| Game.ActiveWord | src/pages/Game.jsx:73-76 | no active word exactly when the selection is null or empty or no word carries the selected id; otherwise a word of the level carrying that id |
| Game.FindById | src/pages/Game.jsx:73-76 | finds the first word with the id, or none exactly when no word has it |
| Game.SolvedCovers | src/pages/Game.jsx:126-134 | true exactly when some solved word covers the cell |
| Game.Display | src/pages/Game.jsx:106-140 | a solution void stays void. A letter cell shows its solution letter exactly when a hint revealed it or a solved word covers it, and is blank otherwise |
| Game.Upper | src/pages/Game.jsx:146 | the typed answer is upper-cased before comparison, over the Latin letters: same length, each a–z letter becomes its capital, and every other character is kept |
| Game.UpperIdempotent | src/pages/Game.jsx:146 | upper-casing an already upper-cased answer changes nothing |
| Game.Submit | src/pages/Game.jsx:142-180 | with no active word nothing changes. A wrong answer only lowers the score by 10, floored at 0. A right answer on a solved word changes nothing. A right answer on an unsolved word appends its id, adds 100, clears the input, and sets completion exactly when the solved count reaches the word count |
| Game.FirstHidden | src/pages/Game.jsx:186-199 | returns the first letter index from i on whose cell is not visible (all earlier ones are visible), or none exactly when all are visible |
| Game.Hint | src/pages/Game.jsx:182-206 | a no-op without an active word, without hints left, or on a solved word. Otherwise it reveals the word's first hidden cell, spends one hint and lowers the score by 10 floored at 0. It changes something whenever a hidden cell exists, and nothing else changes |
| Game.WordsAt | src/pages/Game.jsx:82-88 | the words at a cell are exactly the words covering it, and the first of them is the first covering word of the list |
| Game.WordsAtAppend | src/pages/Game.jsx:82-88 | the words at a cell are the order-preserving filter of the list: the selection over two joined lists is the selection over the first followed by the selection over the second |
| Game.WordsAtSingle | src/pages/Game.jsx:82-88 | a one-word list keeps its word exactly when that word covers the cell |
| Game.FindOther | src/pages/Game.jsx:93 | finds the first word with a different id, or none exactly when all share the id |
| Game.FindOtherAt | src/pages/Game.jsx:82-93 | looking for another id among the words at a cell finds the first word of the whole list that covers the cell and has another id, or none exactly when every covering word has the active id |
| Game.Click | src/pages/Game.jsx:78-104 | a click on an uncovered cell changes nothing. Whenever the selection changes, it moves to a word covering the cell and the input is cleared. If the active word covers the cell and no covering word has another id, the state is returned unchanged, and the selection stays exactly in that case. Otherwise the first covering word is selected |
| Game.ClickToggle | src/pages/Game.jsx:90-97 | when the active word covers the cell and another covering word has a different id, the click selects the first word of the list that covers the cell with a different id, and clears the input |
| Game.StartInv | src/pages/Game.jsx:13-25 | the initial state (no solves, score 0, 3 hints) satisfies the game invariant |
| Game.SubmitKeepsInv | src/pages/Game.jsx:142-180 | submitting keeps the score non-negative and the solved ids distinct and real, and a completed game has every word solved |
| Game.HintKeepsInv | src/pages/Game.jsx:182-206 | a hint keeps the invariant; in particular hintsLeft never drops below 0 |
| Game.ClickKeepsInv | src/pages/Game.jsx:78-104 | a click keeps the invariant |
| Game.CompletesWhenAllSolved | src/pages/Game.jsx:155-156 | with distinct word ids, solving an unsolved word completes the game exactly when every word is then solved |
| Game.AllSolvedByCount | src/pages/Game.jsx:155 | as many distinct solved ids as words, all of them word ids, means every word is solved |

## Findings

| source | as written | input that shows it | evidently intended | confidence | as-written member | corrected member |
|---|---|---|---|---|---|---|
| src/utils/generator.js:207-222 | after a failed search, the loop reshuffles and re-runs the whole backtracking search, up to 20 times | any category whose words admit no layout, for example one with fewer than 10 words: all 20 exhaustive searches run and all fail, on every tape | a retry should give a new chance; but the search already tries every word, direction and start, so the first search decides the outcome and one search is enough | not executed | Generator.RetriesNeverRescue | Generator.GenerateOnce |

## Left out

- `Math.random`: not modelled as a generator of numbers. Draws come from the `Tape` parameter, and properties are proved for every tape.
- `WORD_BANK`: its content is not part of this model. `GenerateLevel` takes the category map as a parameter.
- The length field of a word entry: the model uses the word's length. The source reads both and treats them as equal, and its tests check that they are (client/src/utils/generator.test.js:84).
- Validator.CanPlace: requires that, once the far edge is respected, the start lies on the board. This is `Addressable`: the centre start and every scanned start satisfy it (`CandidateOnBoard`). For other starts, JavaScript would read `undefined` or throw, and no caller passes them.
- Generator.Attempts: the limit of 20 attempts is the function's termination measure and the `MaxAttempts` constant, not a postcondition that counts attempts.
- Generator.GenerateLevel: does not state the no-adjacent-parallel-words property for the whole finished layout. Only the acceptance conditions of each placement are stated (`CanPlace`). `ParallelExtensionAccepted` shows that a word may run along a parallel word.
- The 95% success-rate stress test (client/src/utils/generator.test.js:8-41): statistical, not a provable property.
- The unused `intersections` array in `canPlace`: it has no effect on the result.
- React rendering and effects: JSX, the `setInterval` timer, `alert`, `window.confirm`, `window.location.reload` (`handleReset`), and the error and loading screens.
- `localStorage` and the score `fetch` after completion (src/pages/Game.jsx:157-171): I/O.
- The `!levelData` guards: the game state always holds a loaded level. Before loading, every handler is a no-op.
- Typing into the answer box: it belongs to `CluePanel.jsx`, which upper-cases the typed text and caps it at the word's length before storing it. `CluePanel.jsx` is not part of this model, so the input is an arbitrary string field of the state. `Game.UpperIdempotent` states why the second upper-casing at submission leaves such input as it is.
- Game.Upper: models `toUpperCase` for the Latin letters a–z only. Full Unicode case mapping is not modelled: it changes letters such as é to É, and can change the length, as ß becomes SS.
- Game.Submit: rests on `Game.Upper`, so its case-insensitive match carries the same a–z restriction.
- Generator.GenerateLevel: only the bank's own keys are modelled. The source reads a plain object, so an inherited name such as `constructor` or `toString` yields a truthy non-category. That would fail with a TypeError at the copy of its words, not with "Invalid category". A `map` has no inherited keys.
- The number map's `"x-y"` string keys and the revealed cells' `"x-y"` strings: modelled as coordinate pairs. The string form is injective for the board's coordinates.
- `CrosswordGrid.jsx`, `CluePanel.jsx`, Dashboard, Auth, ProtectedRoute, the axios interceptor, the server files and the Playwright specs: presentation, navigation, network and storage.
