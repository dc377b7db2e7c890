# Nonogram line solver and board, in Dafny

This project models the core of a C# nonogram solver:

- **The board** (`Nonogram Solver/Board.cs`). A grid of cells indexed `[x, y]`, with one clue per row and one per column. `GetRow`/`GetColumn` copy one line out of the grid. `SetRow`/`SetColumn` merge a line back and return how many cells changed. An incoming `Empty` cell never overwrites. Any other incoming value overwrites a cell it differs from, including a flip from Full to Cleared.
- **The line primitives** (`Nonogram Solver/Solver.cs`):
  - the minimum-remaining-length formula;
  - `ApplyBlock`, which places one block;
  - `GenerateCombinations`, which enumerates every placement of a clue over a partly known line;
  - `SolveSequence`/`CheckConsensus`, which keep the cells all placements agree on.

Module layout:

- `Cells` (cells.dfy): the cell type and the line type. It also defines `Extends`, which says a line is another line with some unknown cells made Full.
- `Runs` (runs.dfy): the reference definition of the clue a line shows, `RunsOf`: its maximal runs of Full cells, left to right. Also lemmas about it, and `Pack`, the shortest line that shows a clue.
- `NonogramBoard` (board.dfy):
  - the class `Board`, holding the grid as an `array2<Cell>`;
  - `GetRow`/`GetColumn`/`SetRow`/`SetColumn` as loop methods, proved against the functions `MergeLine` and `ChangeCount`;
  - the board tests of `NUnitTests/Test_Board.cs`, replayed as scenario methods.
- `LineSolver` (solver.dfy):
  - the corrected line solver as specification functions: `PlaceBlock`, `Placements`, `Consensus` and `SolveLine`;
  - the methods `ApplyBlock`, `GenerateCombinations`, `CheckConsensus` and `SolveSequence`, which follow the C# loops and recursion, corrected where the Findings table shows the code wrong, and are proved equal to those functions. The corrections are the Cleared and neighbour tests of `ApplyBlock`, and in `GenerateCombinations` an early exit at the first known Full cell and a `NoFullFrom` test on the last block.
- `LineSolverProofs` (solver_proofs.dfy): what the solver guarantees.
  - The candidates of a clue are exactly the fillings of the line whose runs are the clue. They are listed once each.
  - The consensus line is Full exactly where every filling is Full, Cleared exactly where none is, and Empty where fillings disagree. It is None when no filling exists.
  - Solving and merging back never flips a known cell.
  - The minimum-length formula is both a lower bound and tight.
- `LineSolverAsWritten` (solver_as_written.dfy): `ApplyBlock`, `GenerateCombinations` and `SolveSequence` exactly as the C# code is written, with the inputs on which they go wrong (see Findings).
- `LineSolverExamples` (solver_examples.dfy): the inputs of `NUnitTests/Test_Solver.cs` and what the model returns for them.
- `SolveStep` (solve_step.dfy): the step of `Solve` after it has picked a line: take the row or column out of the board, solve it against its clue, merge it back.

Lines are values (`seq<Cell>`). The C# code clones arrays wherever a line leaves the board or the solver, so a later write never reaches the original. `CloneAndAliasScenario` replays the test that checks this.

Where the code's behaviour may surprise, the model follows the code:

- `SolveSequence` returns `null` when no placement exists (Solver.cs:127-128). It does not return the input line unchanged. The model returns `None`.
- `CheckConsensus` (Solver.cs:145-156) compares candidate cells by strict equality. The model keeps the strict rule. A rule that treats Cleared and Empty as equal gives the same result on these candidates: every candidate extends the input line, so the candidates' non-Full cells at a position are all equal (`ConsensusOfExtensions`); `ConsensusStrictEquality` shows where the two rules part.
- The code does not skip fully known lines or prune candidates; neither is modelled.
- `Board.cs:8-13` declares only `Empty`, `Full` and `Cleared`. `NUnitTests/Test_Solver.cs:32` uses a fourth value, `Marked`. The model has all four.
- The failure messages of `Test_BoardConstructor` (Test_Board.cs:25-26) expect width 3 and height 4. The assertions themselves, and the code, give width 4 (column clues) and height 3 (row clues). The model follows the assertions.

## Model

The source column cites the NUnit test lines that exercise each member. The implementing lines, in `Nonogram Solver/Board.cs` or `Nonogram Solver/Solver.cs`, follow each statement in parentheses.

| member | source | states |
|---|---|---|
| NonogramBoard.Board.constructor | NUnitTests/Test_Board.cs:16-26 | the grid is as wide as there are column clues and as high as there are row clues, and every cell starts Empty (code: Board.cs:53-58) |
| NonogramBoard.Board.GetRow | NUnitTests/Test_Board.cs:43-46 | the returned line has `Width` cells, cell `x` being `grid[x, y]` (code: Board.cs:176-183) |
| NonogramBoard.Board.GetColumn | NUnitTests/Test_Board.cs:48-51 | the returned line has `Height` cells, cell `y` being `grid[x, y]` (code: Board.cs:190-197) |
| NonogramBoard.Board.SetRow | NUnitTests/Test_Board.cs:68-71 | row `y` becomes the merge of the incoming line over the old row; the result counts the merged cells that changed; every other row is unchanged (code: Board.cs:205-217) |
| NonogramBoard.Board.SetColumn | NUnitTests/Test_Board.cs:64-66 | column `x` becomes the merge of the incoming line over the old column; the result counts the changed cells; every other column is unchanged (code: Board.cs:225-237) |
| NonogramBoard.ChangeCountIsDistance | NUnitTests/Test_Board.cs:66-69 | the count returned by a merge is the number of positions where the line before and after the merge differ (code: Board.cs:207-216) |
| NonogramBoard.DistanceZero | NUnitTests/Test_Board.cs:66-69 | two lines are at distance zero iff they agree on every position counted (code: Board.cs:207-216) |
| NonogramBoard.ChangeCountZeroIff | NUnitTests/Test_Board.cs:68-69 | a merge returns 0 iff it leaves the line as it was (code: Board.cs:205-217) |
| NonogramBoard.MergeIdempotent | NUnitTests/Test_Board.cs:66-72 | merging the same line a second time changes nothing and returns 0 (code: Board.cs:205-217) |
| NonogramBoard.MergeKeepsKnown | NUnitTests/Test_Board.cs:74-76 | a known cell never becomes Empty, and an incoming Empty cell leaves the grid cell alone (code: Board.cs:210-214) |
| NonogramBoard.MergeFullyKnown | NUnitTests/Test_Board.cs:71-72 | merging a line with no Empty cell makes the grid line equal to it (code: Board.cs:210-214) |
| NonogramBoard.ChangeCountAllChanged | NUnitTests/Test_Board.cs:64-66 | when every incoming cell is known and differs, the count is the number of cells merged (code: Board.cs:207-216) |
| NonogramBoard.MergeIntoUnknown | NUnitTests/Test_Board.cs:62-66 | a fully known line merged into an all-Empty line changes every cell |
| NonogramBoard.ConstructorScenario | NUnitTests/Test_Board.cs:14-27 | four column clues and three row clues give width 4 and height 3 |
| NonogramBoard.GetRowAndColumnScenario | NUnitTests/Test_Board.cs:30-52 | cells written into the grid read back as row `[Empty, Full, Cleared]` and column `[Cleared, Full, Empty]` |
| NonogramBoard.SetRowAndColumnScenario | NUnitTests/Test_Board.cs:55-72 | a fresh row is all Empty; `SetColumn` of a known line counts 3; `SetRow` over the crossing cell counts 2; row and column then equal that line |
| NonogramBoard.OverwriteScenario | NUnitTests/Test_Board.cs:74-76 | a line whose one known cell flips Full to Cleared counts 1 in the column and 1 in the row, and its Empty cells change nothing |
| LineSolver.PlaceBlock | NUnitTests/Test_Solver.cs:39-42 | a block fits iff it lies in the line, covers no Cleared cell, and has no Full neighbour; the result makes exactly the block's cells Full and extends the line (code: Solver.cs:194-216) |
| LineSolver.ApplyBlock | NUnitTests/Test_Solver.cs:41-42 | the copy-and-fill loop returns the corrected placement `PlaceBlock`, or None when the block does not fit (code: Solver.cs:194-216) |
| LineSolver.PlacementsExtend | NUnitTests/Test_Solver.cs:48-50 | every corrected candidate only turns unknown cells Full, and keeps the cells before the scan offset as they were (code: Solver.cs:166-192) |
| LineSolver.GenerateCombinations | NUnitTests/Test_Solver.cs:48-50 | the corrected offset loop (early exit at a known Full cell, `NoFullFrom` test on the last block) with its recursion on the clue index returns exactly the candidate list `Placements` (code: Solver.cs:166-192) |
| LineSolver.CombinationsAt | NUnitTests/Test_Solver.cs:50 | one pass of the corrected offset loop (with the `NoFullFrom` test on the last block) returns the candidates whose current block starts at that offset (code: Solver.cs:178-189) |
| LineSolver.CheckConsensus | NUnitTests/Test_Solver.cs:65-68 | the scan over the candidates returns the consensus cell at the index: Full or Cleared when all agree, Empty on the first mismatch (code: Solver.cs:145-156) |
| LineSolver.SolveSequence | NUnitTests/Test_Solver.cs:65-68 | returns None when there is no candidate, and otherwise the line of consensus cells (code: Solver.cs:123-137) |
| LineSolverProofs.MinimumLengthIsTight | NUnitTests/Test_Solver.cs:19-22 | the formula (the sum of entries `k..`, plus one gap between each two of them) is the length of the packed line of entries `k..`, and that line shows those entries (code: Solver.cs:170-171) |
| LineSolverProofs.MinimumLengthIsLowerBound | NUnitTests/Test_Solver.cs:19-22 | no line showing entries `k..` from offset `s` on has fewer than `s + MinimumLength` cells, so stopping the offset loop there loses no placement (code: Solver.cs:170-174) |
| LineSolverProofs.MinimumLengthPositive | NUnitTests/Test_Solver.cs:21 | with positive entries the minimum length is at least the current block's length (code: Solver.cs:171) |
| LineSolverProofs.MinimumLengthExample | NUnitTests/Test_Solver.cs:18-22 | for the clue {3, 1, 2} the formula gives 8, 4 and 2 at entries 0, 1 and 2 |
| LineSolverProofs.PlaceBlockMakesRun | NUnitTests/Test_Solver.cs:39-42 | a placed block is a maximal run of exactly its length: the cells on both sides are not Full (code: Solver.cs:210-212) |
| LineSolverProofs.ApplyBlockExample | NUnitTests/Test_Solver.cs:37-43 | a block of two at offset 1 over three unknown cells gives `-XX` |
| LineSolverProofs.PlacementsSound | NUnitTests/Test_Solver.cs:48-50 | every candidate has the line's length and shows the clue entries `k..` from its scan offset on (code: Solver.cs:166-192) |
| LineSolverProofs.PlacementsAtSound | NUnitTests/Test_Solver.cs:48-50 | the same for the candidates with the current block at one offset (code: Solver.cs:178-189) |
| LineSolverProofs.PlacementsComplete | NUnitTests/Test_Solver.cs:48-50 | every filling of the line that agrees with it before the scan offset and shows entries `k..` from there on is a candidate (code: Solver.cs:166-192) |
| LineSolverProofs.PlacementsAtComplete | NUnitTests/Test_Solver.cs:48-50 | the same for a filling whose next block starts at the scan offset (code: Solver.cs:178-189) |
| LineSolverProofs.PlacementsExact | NUnitTests/Test_Solver.cs:46-50 | for a positive clue, a line is among the generated candidates iff it extends the input line and its runs are the clue, in order |
| LineSolverProofs.PlacementsAtFullAt | NUnitTests/Test_Solver.cs:48-50 | a candidate whose current block starts at offset `s` has cell `s` Full (code: Solver.cs:178-186) |
| LineSolverProofs.PlacementsDistinct | NUnitTests/Test_Solver.cs:48-50 | the candidate list contains no line twice (code: Solver.cs:166-192) |
| LineSolverProofs.PlacementsAtDistinct | NUnitTests/Test_Solver.cs:48-50 | the same for the candidates with the current block at one offset (code: Solver.cs:178-189) |
| LineSolverProofs.DistinctConcat | NUnitTests/Test_Solver.cs:48-50 | appending a disjoint duplicate-free list to another keeps the combined list duplicate-free (code: Solver.cs:186-187) |
| LineSolverProofs.ConsensusOfExtensions | NUnitTests/Test_Solver.cs:65-68 | on candidates extending one line, the consensus is Full iff every candidate is Full, Cleared iff none is, Empty iff they disagree (code: Solver.cs:145-156) |
| LineSolverProofs.ConsensusStrictEquality | NUnitTests/Test_Solver.cs:65-68 | out of that setting the strict comparison reports Empty for a Cleared and an Empty cell (code: Solver.cs:150-153) |
| LineSolverProofs.SolveLineNone | NUnitTests/Test_Solver.cs:65-68 | the solver returns None iff the line has no filling that shows its clue (code: Solver.cs:125-128) |
| LineSolverProofs.SolveLineForced | NUnitTests/Test_Solver.cs:65-68 | a solved cell is Full iff it is Full in every filling, Cleared iff it is Full in none, Empty iff fillings disagree (code: Solver.cs:123-137) |
| LineSolverProofs.SolveLineKeepsKnown | NUnitTests/Test_Solver.cs:65-68 | the solved line keeps every Full and every Cleared cell of the input line (code: Solver.cs:123-137) |
| LineSolverProofs.SolveThenMergeIsMonotone | NUnitTests/Test_Solver.cs:65-68 | solving a board line and merging the result back leaves every Full or Cleared cell of the board line as it was (code: Solver.cs:85-91) |
| LineSolverProofs.ZeroClueScan | NUnitTests/Test_Solver.cs:48-50 | for the clue {0} every candidate is the line itself, and one exists iff no cell from the offset on is Full (code: Solver.cs:166-192) |
| LineSolverProofs.ZeroClue | NUnitTests/Test_Solver.cs:65-68 | the clue {0} clears every cell of a line with no Full cell, and has no solution otherwise (code: Solver.cs:123-137) |
| LineSolverAsWritten.FillAsWritten | NUnitTests/Test_Solver.cs:41 | when the fill loop as written succeeds, the line keeps its length, the block lies inside it, the cells from the loop index to the block's end become Full and every other cell is as before (code: Solver.cs:200-208) |
| LineSolverAsWritten.ApplyBlockAsWritten | NUnitTests/Test_Solver.cs:41 | when `ApplyBlock` as written returns a line, it has the input's length, the block lies inside it, the block's cells are Full and every other cell is as in the input (code: Solver.cs:194-216) |
| LineSolverAsWritten.GenerateCombinationsAsWritten | NUnitTests/Test_Solver.cs:48-50 | every candidate generated as written has the line's length (code: Solver.cs:166-192) |
| LineSolverAsWritten.CombinationsAtAsWritten | NUnitTests/Test_Solver.cs:50 | every candidate of one pass of the offset loop as written has the line's length (code: Solver.cs:178-189) |
| LineSolverAsWritten.SolveSequenceAsWritten | NUnitTests/Test_Solver.cs:65-68 | `SolveSequence` as written returns a line of the input's length, or None (code: Solver.cs:123-137) |
| LineSolverAsWritten.ApplyBlockAgreesOnTest | NUnitTests/Test_Solver.cs:37-43 | on the input of `Test_ApplyBlock`, the code as written and the corrected placement both give `-XX` |
| LineSolverAsWritten.ApplyBlockCoversCleared | NUnitTests/Test_Solver.cs:41 | as written, a block of two at offset 1 is laid over the Cleared cell of `[Empty, Empty, Cleared]` (code: Solver.cs:204-206) |
| LineSolverAsWritten.ApplyBlockRefusesFit | NUnitTests/Test_Solver.cs:41 | as written, a block that fits at offset 1 of `[Cleared, Empty, Empty]` is refused (code: Solver.cs:204-206) |
| LineSolverAsWritten.ApplyBlockMergesRuns | NUnitTests/Test_Solver.cs:41 | as written, a block of two at offset 0 of `[Empty, Empty, Full]` joins the Full cell and shows a run of three (code: Solver.cs:210-212) |
| LineSolverAsWritten.GenerateLeavesFullUncovered | NUnitTests/Test_Solver.cs:48-50 | as written, the clue {1} over `[Full, Empty]` yields a candidate showing {2}, and the second cell is not forced Cleared (code: Solver.cs:175-189) |
| LineSolverAsWritten.SolveSequenceOverwritesCleared | NUnitTests/Test_Solver.cs:65-68 | as written, the clue {2} over `[Empty, Cleared, Empty]`, which has no filling, is solved to `[Cleared, Full, Full]` (code: Solver.cs:123-137) |
| LineSolverAsWritten.FillWithoutCleared | NUnitTests/Test_Solver.cs:41 | on a line with no Cleared cell, the fill loop as written fills exactly the rest of the block when the block lies inside the line, and fails otherwise (code: Solver.cs:200-208) |
| LineSolverAsWritten.ApplyBlockAgreesWithoutKnown | NUnitTests/Test_Solver.cs:37-43 | on a line with no Cleared cell and no Full cell from one place before the offset on, `ApplyBlock` as written equals the corrected `PlaceBlock` (code: Solver.cs:194-216) |
| LineSolverAsWritten.GenerateAgreesWithoutKnown | NUnitTests/Test_Solver.cs:48-50 | for a positive clue on such a line, the generator as written returns exactly the corrected candidate list `Placements` (code: Solver.cs:166-192) |
| LineSolverAsWritten.CombinationsAtAgreesWithoutKnown | NUnitTests/Test_Solver.cs:50 | the same for one pass of the offset loop and `PlacementsAt` (code: Solver.cs:178-189) |
| LineSolverAsWritten.AsWrittenCorrectOnUnknownLine | NUnitTests/Test_Solver.cs:63-70 | for a positive clue on a line with no Full and no Cleared cell, a line is a candidate as written iff it extends the line and shows the clue, and `SolveSequence` as written returns the corrected solved line (code: Solver.cs:123-192) |
| LineSolverExamples.SolveTwoOfThree | NUnitTests/Test_Solver.cs:65-68 | a block of two over three unknown cells has two candidates, and only the middle cell is forced Full (code: Solver.cs:123-137) |
| LineSolverExamples.SolveTwoOneOfFour | NUnitTests/Test_Solver.cs:63-70 | the clue {2, 1} over four unknown cells has the single candidate `XX-X`, all of whose cells are forced (intended result; the test only prints it) |
| LineSolverExamples.ApplyBlockScenario | NUnitTests/Test_Solver.cs:37-43 | the `ApplyBlock` method returns `-XX` on the test's input |
| LineSolverExamples.SolveSequenceScenario | NUnitTests/Test_Solver.cs:63-70 | the `SolveSequence` method returns `[Full, Full, Cleared, Full]` on the test's input (intended result) |
| LineSolverExamples.SolveTwoOneOfFourAsWritten | NUnitTests/Test_Solver.cs:63-70 | `SolveSequence` as written also returns `[Full, Full, Cleared, Full]` for the clue {2, 1} over four unknown cells |
| LineSolverExamples.CloneAndAliasScenario | NUnitTests/Test_Solver.cs:24-33 | a row taken out of a board with `GetRow` stays `[Empty, Empty, Empty]` after a later `SetRow` makes the board's row `[Full, Full, Full]`, while a write through an alias of an array is seen by the original (code: Board.cs:176-183) |
| SolveStep.SolveRowStep | NUnitTests/Test_Board.cs:68-71 | solving row `y` against its own clue and merging it back: None with the grid untouched when the row has no solution, else the row becomes the merge of the solved row and the count is its change count; known cells of the row and all other rows keep their values (code: Solver.cs:75-91) |
| SolveStep.SolveColumnStep | NUnitTests/Test_Board.cs:64-66 | the same for column `x` and its clue (code: Solver.cs:75-91) |

## Left out

- Descriptor parsing (`GetDescriptor`, `Board(string, string)`, the tuple constructor, Board.cs:53-70 and 154-169). The board is built from integer clue sequences instead.
- `Test_GetDescriptor` (Test_Board.cs:80-83): it is unimplemented and only throws.
- `Board.Draw`, `SequenceToString`, `Util.cs` and `Program.cs`: console drawing, colouring, the puzzle menu and process I/O.
- The `Solver` constructor, `GetConfidence` and the line choice in `Solve` (Solver.cs:19-74 and 93-115): the confidence score that picks one line, and the console warning on a block-total mismatch. They are not part of this model. The step that follows the choice (Solver.cs:75-91) is `SolveRowStep`/`SolveColumnStep`.
- SolveRowStep: when the line has no solution the C# passes `null` on to `SetRow`, which throws; the model returns None and leaves the grid as it was.
- A row/column fixpoint loop driven by the change counts: the repository has no code for it.
- The meaning of `Marked`. It is only a constructor here: placement treats Marked like Empty (`Fits` refuses only Cleared, so `SolveLine([Marked, Empty], [1])` is `Some([Empty, Empty])`); consensus and merge treat it like a known non-Full value.
- C# `int` width: clue sums and indices are unbounded integers. Negative clue entries, indices and lengths are excluded by `nat`.
- Exceptions. An out-of-range index, an incoming line shorter than the board line, and an empty clue (`desc[0]` on an empty array) all throw in C#. They are preconditions of the corresponding members.
- The printed lists of `Test_Combinations` and `Test_SolveSequence` (Test_Solver.cs:59, 69): both tests end in `Assert.Fail`. What they are meant to show is stated instead as intended contracts: `PlacementsExact`, `SolveTwoOneOfFour` and `SolveSequenceScenario`. The number of candidates for the clue {2, 2, 1} over nine cells is not stated.
- The as-written line primitives are functions that recurse over the C# loop index, not methods over arrays. They exist to exhibit the findings. The methods of `LineSolver` are the ones that follow the code's loops.
- Forcing a Cleared separator after a placed block. Neither the code nor the tests do it, and the model leaves the separator cell as it was.
- The theorems about the solver (`PlacementsExact`, `SolveLineNone`, `SolveLineForced`) assume a clue of positive entries. The clue {0} is covered separately by `ZeroClue`. Clues that mix zero and positive entries are computed but not characterised.

## Findings

| source | as written | input that shows it | evidently intended | confidence | as-written member | corrected member |
|---|---|---|---|---|---|---|
| NUnitTests/Test_Solver.cs:41 | in `Nonogram Solver/Solver.cs` at line 204, the Cleared test reads `result[i]`, the cell at the loop index, instead of `result[startIndex + i]`, the cell being filled | `ApplyBlock([Empty, Empty, Cleared], 1, 2)` fills the Cleared cell; `ApplyBlock([Cleared, Empty, Empty], 1, 2)` refuses a block that fits | a block is refused exactly when it would cover a Cleared cell | high, not executed | LineSolverAsWritten.ApplyBlockCoversCleared | LineSolver.PlaceBlock |
| NUnitTests/Test_Solver.cs:41 | in `Nonogram Solver/Solver.cs` at lines 211-212, the neighbour test reads cell `startIndex + blockLength + 1`, two places after the block, and the cell before the block is never tested | `ApplyBlock([Empty, Empty, Full], 0, 2)` gives `[Full, Full, Full]`, a run of three | the cells right before and right after the block must not be Full, so the block is a run of exactly its length | high, not executed | LineSolverAsWritten.ApplyBlockMergesRuns | LineSolverProofs.PlaceBlockMakesRun |
| NUnitTests/Test_Solver.cs:48-50 | in `Nonogram Solver/Solver.cs` at lines 175-189, offsets past a known Full cell are still tried, and the last block is kept even when a Full cell follows it, so candidates may leave a Full cell outside every block | `GenerateCombinations([Full, Empty], [1], 0, 0)` includes `[Full, Full]`, which shows the clue {2} | every candidate extends the line and shows exactly the clue | high, not executed | LineSolverAsWritten.GenerateLeavesFullUncovered | LineSolverProofs.PlacementsExact |
