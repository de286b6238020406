# Overlapping sudoku grid: a verified model

This project models, in Dafny, the core of a generator for an endless wall of sudokus. The
puzzles sit on an `n` x `m` torus. Each puzzle shares its top-left block with the
bottom-right block of the puzzle above it, and its top-right block with the bottom-left block
of the puzzle to its right. A flat byte store therefore holds only seven blocks (63 cells) per
puzzle. Each `Sudoku` value records where its nine blocks start in that store.

The model covers two source files.

**`src/sudokus.rs`** (the overlapping grid):
- the `Seen` bitmap and `Region::validate`;
- the block constants and the memory order of a puzzle's own seven blocks;
- the index arithmetic of `SudokuGrid::new`, `block`, `row`, `column`, `block_index_for`, `row_for`, `column_for` and `block_for`;
- the lookup from a store index back to its puzzle or puzzles (`sudoku_at_index`, `sudokus_at_index`);
- the solved and problematic-cell checks;
- the depth-first solver `depth_first_solve`;
- the single-gap filler `solve_trivial_regions`;
- `DfsBlock`, the resumable filler of one block from a list of candidate values.

**`src/sudoku.rs`** (a plain 9x9 puzzle stored as 81 cells):
- its row, column and block index formulas;
- `validate` and `partial_validate`;
- `is_solved` and `cell_is_problematic`;
- the in-place backtracking `solve`.

Where the source updates state in place, the model does too:
- `SudokuGrid` is a class over an `array` of cells;
- `DfsBlock` is a class with the cursor, the backtrack counter and a value-cursor array;
- the single puzzle is a class over an 81-cell array.

Their methods are proved against specification functions on `cells[..]`. Index arithmetic and
validation are functions and lemmas.

The modules are:
- `Common`: cell bytes, validation of a list of values, the missing-value function, and the measure `Rank` (a number in base b) that shows the searches terminate;
- `GridLayout`: the layout of the grid;
- `GridRegion`: `Seen`, validation and the solved/problematic checks on the grid;
- `GridSearch`: the invariant of `depth_first_solve`;
- `Grid`: the `SudokuGrid` class;
- `DfsBlocks`: `DfsBlock`;
- `SingleSudoku`: the 81-cell puzzle.

Two properties of the layout shape what can be proved:
- **NoAlias.** A puzzle's nine blocks are pairwise distinct exactly when `n >= 2` and `m >= 2`. On a 1-wide torus a puzzle overlaps itself. Its list of 81 indexes then repeats cells, which `NoAlias` rules out.
- **MiddleUnaliased.** The five middle blocks never collide with another block. This is what `is_solved` relies on.

## Model

| member | source | states |
|---|---|---|
| GridRegion.SeenAdd | src/sudokus.rs:11-18 | after `add(v)`, `contains(w)` holds exactly when it held before or `w == v` |
| GridRegion.NoSeenIsEmpty | src/sudokus.rs:7-13 | a fresh `Seen` contains no value |
| GridRegion.SeenOfContains | src/sudokus.rs:4-19 | the bitmap built from a list of values below 16 contains exactly the values of the list |
| GridRegion.Validate | src/sudokus.rs:33-49 | the bitmap scan returns true exactly when every value is a digit 1..9 (or 0 when partial) and no non-zero value repeats |
| Common.ValidAppend | src/sudokus.rs:36-49 | one more value keeps a region valid exactly when it is a digit (or an allowed gap) not seen before |
| Common.InvalidPrefix | src/sudokus.rs:43-45 | once a prefix fails validation the whole region fails (the early return) |
| Common.FullValidIsPermutation | src/sudokus.rs:33-35 | nine values pass full validation exactly when they are the digits 1..9 in some order |
| Common.ElemsCard | src/sudokus.rs:33-35 | a list has as many distinct values as entries exactly when no value repeats |
| GridLayout.NewSudoku | src/sudokus.rs:218-235 | a puzzle has nine block starts and keeps its coordinates |
| GridLayout.NewSudokuLayout | src/sudokus.rs:94-102 | the seven own blocks lie in memory order at the puzzle's span; top-left and top-right point into the neighbours' spans; all blocks are 9-aligned and inside the 63·n·m store |
| GridLayout.CornersOverlap | src/sudokus.rs:218-235 | top-left of (x, y) is bottom-right of (x, y+1 mod m); top-right of (x, y) is bottom-left of (x+1 mod n, y) |
| GridLayout.SingleSudokuOverlapsItself | src/sudokus.rs:537-548 | in a 1x1 grid the puzzle's corner blocks coincide, with the block starts written out |
| GridLayout.NoAliasIff | src/sudokus.rs:218-235 | a puzzle's nine blocks are pairwise distinct exactly when n >= 2 and m >= 2 |
| GridLayout.SpanOffsets | src/sudokus.rs:219-230 | which puzzle's span each block start lies in, and at which of its seven slots |
| GridLayout.BlockIndexFor | src/sudokus.rs:301-308 | the result is the first block (in block order) whose nine cells hold index i |
| GridLayout.InBlockChunk | src/sudokus.rs:259-263 | index i is in block b exactly when b starts at i's 9-aligned chunk |
| GridLayout.BlockIndexForChunk | src/sudokus.rs:301-308 | all indexes of one 9-cell chunk are found in the same block |
| GridLayout.RowMemberBlock | src/sudokus.rs:265-281 | cell k of row r lies in block (r/3)*3 + k/3, in the same band as the row |
| GridLayout.ColumnMemberBlock | src/sudokus.rs:283-299 | cell k of column c lies in block c/3 + 3*(k/3), in the same stack as the column |
| GridLayout.Block | src/sudokus.rs:259-263 | every one of the nine cells listed lies in block i |
| GridLayout.Row | src/sudokus.rs:265-281 | cell k of row y lies in block (y/3)*3 + k/3, the block of its band that the row crosses |
| GridLayout.Column | src/sudokus.rs:283-299 | cell k of column x lies in block x/3 + 3*(k/3), the block of its stack that the column crosses |
| GridLayout.RowFor | src/sudokus.rs:310-315 | in a puzzle with 9-aligned blocks, the row looked up for a cell contains that cell |
| GridLayout.ColumnFor | src/sudokus.rs:317-322 | in a puzzle with 9-aligned blocks, the column looked up for a cell contains that cell |
| GridLayout.BlockFor | src/sudokus.rs:324-327 | the block looked up for a cell contains that cell |
| GridLayout.RowFound | src/sudokus.rs:310-315 | a cell of block b lies in the row `row_for` computes from b and the cell's offset |
| GridLayout.ColumnFound | src/sudokus.rs:317-322 | a cell of block b lies in the column `column_for` computes from b and the cell's offset |
| GridLayout.RowMemberCompat | src/sudokus.rs:310-315 | every cell of a row in a cell's band, looked up again, gives that same row, within one chunk or when blocks do not alias |
| GridLayout.ColumnMemberCompat | src/sudokus.rs:317-322 | every cell of a column in a cell's stack, looked up again, gives that same column, within one chunk or when blocks do not alias |
| GridLayout.RowForOfMember | src/sudokus.rs:310-315 | `row_for` of a member of row r, found in the band of r, is row r itself |
| GridLayout.ColumnForOfMember | src/sudokus.rs:317-322 | `column_for` of a member of column c, found in the stack of c, is column c itself |
| GridLayout.RegionsForCompat | src/sudokus.rs:310-327 | a member j of a cell's row, column or block has that same row, column or block, within one chunk or when blocks do not alias |
| GridLayout.UniqueBlock | src/sudokus.rs:301-308 | without aliasing, `block_index_for` of a cell of block b is b |
| GridLayout.Overlapping | src/sudokus.rs:131-137 | there is a sharing puzzle exactly for the four corner blocks |
| GridLayout.OverlappingShares | src/sudokus.rs:131-137 | the sharing puzzle `DfsBlock::new` picks for a corner block is on the torus and holds all nine cells of that block |
| GridLayout.SudokuAtIndex | src/sudokus.rs:374-379 | the puzzle returned is on the torus and its seven-block span holds cell i |
| GridLayout.SpanOfIndex | src/sudokus.rs:374-379 | puzzle number i / 63 has a span that holds cell i |
| GridLayout.SudokusAtIndex | src/sudokus.rs:381-398 | the first puzzle is `sudoku_at_index`; the second is the puzzle sharing the block of cell i's memory slot, if any |
| GridLayout.SecondOwnerSlots | src/sudokus.rs:381-398 | a second puzzle is reported exactly for cells of the stored bottom-left and bottom-right blocks (memory slots 4 and 6) |
| GridLayout.OwnSpanOwner | src/sudokus.rs:749-761 | every cell of the span of (x, y) is reported as owned by (x, y) by both lookups |
| GridLayout.TopCornerSecondOwner | src/sudokus.rs:763-776 | every cell of the top-left or top-right block of (x, y) reports (x, y) as its second puzzle |
| GridLayout.SudokuAtIndexAgrees | src/sudokus.rs:374-398 | `sudoku_at_index` equals the first component of `sudokus_at_index` and lands on the torus |
| GridLayout.SudokusAtIndexOwners | src/sudokus.rs:381-398 | a puzzle holds index i exactly when it is the owner or the second puzzle `sudokus_at_index` reports |
| GridLayout.Indexes | src/sudokus.rs:60-76 | a puzzle lists 81 indexes |
| GridLayout.IndexOrderPermutes | src/sudokus.rs:61-71 | the solving block order is a permutation of the nine blocks |
| GridLayout.IndexesMembers | src/sudokus.rs:60-76 | an index is listed exactly when it belongs to the puzzle |
| GridLayout.IndexesDistinct | src/sudokus.rs:60-76 | the 81 indexes are distinct exactly when the puzzle's blocks do not alias |
| GridLayout.SingleSudokuIndexesRepeat | src/sudokus.rs:807-813 | in a 1x1 grid the puzzle lists 81 indexes that repeat cells |
| Grid.SudokuGrid.New | src/sudokus.rs:217-243 | a grid of n x m puzzles with an all-zero store of 63·n·m cells and each puzzle at its coordinates |
| Grid.SudokuGrid.SudokuAt | src/sudokus.rs:245-248 | the stored puzzle at (x, y) is the laid-out one, inside the store, with unaliased middle blocks |
| Grid.SudokuGrid.SetBlock | src/sudokus.rs:329-333 | the first min(9, len) cells of the block take the given values; nothing else changes |
| Grid.SudokuGrid.IsSolved | src/sudokus.rs:335-353 | true exactly when every row, column and block of the puzzle passes full validation |
| Grid.SudokuGrid.IsSolvedColumn | src/sudokus.rs:357-361 | true exactly when every puzzle of column x is solved |
| Grid.SudokuGrid.IsSolvedAll | src/sudokus.rs:355-364 | true exactly when every puzzle of the grid is solved |
| Grid.SudokuGrid.CellIsProblematic | src/sudokus.rs:366-372 | true exactly when the cell's row, column or block fails partial validation |
| GridRegion.SolvedIffNoProblems | src/sudokus.rs:335-372 | a puzzle is solved exactly when all its cells are filled and none is problematic |
| GridRegion.SolvedCells | src/sudokus.rs:335-353 | every cell of a solved puzzle is filled and unproblematic |
| GridRegion.RegionsFoundByMembers | src/sudokus.rs:310-327 | every row, column and block of a puzzle is the `row_for`/`column_for`/`block_for` of one of its cells |
| GridRegion.RegionFrame | src/sudokus.rs:36-49 | writing a cell outside a region does not change that region's verdict |
| GridRegion.OverNineProblematic | src/sudokus.rs:366-372 | a cell holding a value above 9 is problematic |
| GridRegion.WriteKeepsUnproblematic | src/sudokus.rs:366-372 | a write that leaves its own cell unproblematic leaves every other unproblematic cell unproblematic, when both cells lie in one 9-cell chunk or the puzzle's blocks do not alias |
| GridRegion.ClearKeepsUnproblematic | src/sudokus.rs:366-372 | emptying a cell never makes another cell problematic |
| GridRegion.NewSudokuMiddleUnaliased | src/sudokus.rs:218-235 | in every grid the five middle blocks of a puzzle collide with no other block |
| GridSearch.ZeroCells | src/sudokus.rs:410-414 | the filtered indexes are listed cells that are empty, and every empty listed cell is among them |
| GridSearch.ZeroCellsAppend | src/sudokus.rs:410-414 | filtering keeps the order of the list: one more index adds itself at the end exactly when its cell is empty |
| GridSearch.SearchSetup | src/sudokus.rs:405-414 | the search starts from a well-formed state; a puzzle with no empty cell gives an empty index list |
| GridSearch.StartInv | src/sudokus.rs:405-408 | the invariant holds with no guesses at position 0 |
| GridSearch.SkipStep | src/sudokus.rs:417-421 | skipping a cell filled earlier keeps the invariant and the measure |
| GridSearch.AcceptStep | src/sudokus.rs:438-443 | keeping a passing value pushes the guess, keeps the invariant and does not lower the measure |
| GridSearch.GuessFailed | src/sudokus.rs:424-432 | running out of values (the cell reaches 9) keeps the invariant and raises the measure |
| GridSearch.BacktrackStep | src/sudokus.rs:433-437 | clearing the cell and resuming at the last guess keeps the invariant and raises the measure |
| GridSearch.ExhaustedStep | src/sudokus.rs:433-437 | with no guess left, clearing the cell restores the store as it was before the search |
| GridSearch.FinishStep | src/sudokus.rs:416-446 | at the end every searched cell holds a digit and, without aliasing, none is problematic |
| GridSearch.SearchOutcome | src/sudokus.rs:400-447 | only the puzzle's empty cells change, each to a digit; without aliasing none is problematic, and a puzzle without problems before is solved |
| GridSearch.SolvedAtEnd | src/sudokus.rs:400-447 | filling every empty cell of an unproblematic puzzle without creating problems solves it |
| Grid.SudokuGrid.NextFittingValue | src/sudokus.rs:424-428 | the cell rises to the first value that passes, or to 9, and every value skipped fails |
| Grid.SudokuGrid.SearchRound | src/sudokus.rs:417-443 | one pass of the loop keeps the invariant and raises the measure (or keeps it and advances), or reports exhaustion with the store restored |
| Grid.SudokuGrid.Backtrack | src/sudokus.rs:430-437 | the pop loop clears exhausted cells back to a guess below 9, or restores the store when no guess is left |
| Grid.SudokuGrid.Search | src/sudokus.rs:416-446 | the loop ends with every index processed under the invariant, or restores the store |
| Grid.SudokuGrid.DepthFirstSolve | src/sudokus.rs:400-447 | only empty cells of the puzzle change; NoSolution restores the store; Ok fills them with digits; when blocks do not alias the filled cells are unproblematic, and the puzzle is solved when in addition no cell was problematic before; a full puzzle gives Ok(0) |
| Common.MissingValue | src/sudokus.rs:475-482 | the smallest digit absent from the values, or 0 when all nine occur |
| Common.OneGapMissesADigit | src/sudokus.rs:474-482 | nine values with a gap always miss some digit |
| Grid.GapsPositive | src/sudokus.rs:465-472 | the gap count is positive exactly when some cell of the region is empty |
| Grid.OneGap | src/sudokus.rs:474-491 | with a single gap, every other cell of the region is filled |
| Grid.FillGapCompletes | src/sudokus.rs:474-491 | writing the missing digit into the single gap leaves no gap, and a partially valid region becomes fully valid |
| Grid.FillKeepsNoGaps | src/sudokus.rs:484-490 | filling a cell keeps a gap-free region gap-free |
| Grid.Survey | src/sudokus.rs:464-472 | the first loop yields the bitmap of the region's values and its number of empty cells |
| Grid.FirstUnseen | src/sudokus.rs:476-482 | the search over 1..=9 returns the missing value |
| Grid.FindGap | src/sudokus.rs:484-491 | the scan returns the first empty cell of the region |
| Grid.RegionsInside | src/sudokus.rs:451-456 | the 27 regions collected lie inside the store and the puzzle |
| Grid.SudokuGrid.RetainRegion | src/sudokus.rs:463-495 | a region with one gap gets its missing digit and is dropped; any other region is unchanged and kept exactly when it has a gap |
| Grid.ForcedNew | src/sudokus.rs:474-491 | the digit written into a region's single gap is the smallest digit missing from that region's other, filled cells |
| Grid.ForcedFrame | src/sudokus.rs:484-490 | filling an empty cell does not change what a full region forces into one of its cells |
| Grid.ForcedKeep | src/sudokus.rs:460-496 | a cell forced by one of the regions stays forced when another empty cell is filled |
| Grid.ForcedWrite | src/sudokus.rs:460-496 | after a single-gap fill every changed cell still holds the digit forced by one of the regions |
| Grid.SudokuGrid.SweepRound | src/sudokus.rs:463-495 | one region of a pass: filled cells stay forced; a region without exactly one gap changes nothing and leaves the change flag as it was |
| Grid.SudokuGrid.Sweep | src/sudokus.rs:460-496 | one `retain` pass writes only into empty cells, each the digit forced by a region; it drops every region without gaps; it changes something only when some region had exactly one gap, and a pass that changes nothing keeps no region with a single gap |
| Grid.SudokuGrid.SolveTrivialRegions | src/sudokus.rs:449-498 | returns true exactly when the store changed; only empty cells of the puzzle are filled, each with the smallest digit missing from a row, column or block whose other cells are filled; with no single-gap region at the start nothing changes; at the end no row, column or block has exactly one gap |
| DfsBlocks.BlockPlaced | src/sudokus.rs:259-263 | a block's nine cells are consecutive from an aligned start inside the store and belong to the puzzle |
| DfsBlocks.SharedPlaced | src/sudokus.rs:131-137 | the other puzzle of a corner block holds all nine of the block's cells |
| DfsBlocks.DfsBlock.New | src/sudokus.rs:128-148 | the filler targets the block's nine cells and its sharing puzzle, with all cursors at 0 |
| DfsBlocks.DfsBlock.Clashes | src/sudokus.rs:180-183 | true exactly when the position fails in its own puzzle or in the sharing one |
| DfsBlocks.DfsBlock.Place | src/sudokus.rs:177-178 | the cell takes the candidate under its value cursor, and the result says whether it clashes |
| DfsBlocks.DfsBlock.TryPosition | src/sudokus.rs:177-188 | the value cursor advances to the first candidate that passes, or stops at 8 with a clash; every candidate it skipped fails at that position |
| DfsBlocks.DfsBlock.SkippedStep | src/sudokus.rs:177-188 | a failing candidate extends the run of skipped candidates by one |
| DfsBlocks.DfsBlock.Backtrack | src/sudokus.rs:150-163 | counts a backtrack and clears every exhausted position; then either the cursor is at 0 (NoSolution) or the value cursor of the new position rises by one and the cursors grow in rank |
| DfsBlocks.DfsBlock.Retreat | src/sudokus.rs:194-196 | backtracking keeps the bookkeeping of the running call and raises the cursors' rank |
| DfsBlocks.DfsBlock.Resume | src/sudokus.rs:166-174 | after a complete fill, with a candidate left at the last position, its value cursor rises by exactly one and nothing else changes; otherwise it backtracks once, to the latest position with a candidate left, whose cursor rises by one, with the positions after it at 8 before and reset to 0 |
| DfsBlocks.DfsBlock.Advance | src/sudokus.rs:197-200 | an accepted position moves the cursor on and settles that position |
| DfsBlocks.DfsBlock.Decide | src/sudokus.rs:190-200 | a clash backtracks and does not move the cursor forward; an accepted candidate moves the cursor on by one and changes nothing else |
| DfsBlocks.DfsBlock.Step | src/sudokus.rs:176-201 | one round of the fill loop keeps the bookkeeping; when it moves on, the position holds a passing candidate and every candidate skipped before it failed; when it backtracks, every candidate from the value cursor's starting point to the last one failed |
| DfsBlocks.DfsBlock.Fill | src/sudokus.rs:176-201 | on Ok the cursor is at 9, every position from the lowest one revisited holds the candidate under its value cursor, and earlier positions keep their cells and cursors; all nine positions pass when the kept ones did; on NoSolution the cursors are reset, the positions up to the highest one reached are emptied and the later ones keep their cells |
| DfsBlocks.DfsBlock.NextSolution | src/sudokus.rs:165-204 | only the block's cells change; Ok returns the backtrack count with every revisited position on its candidate and all positions passing when the kept ones did; NoSolution resets the cursors and empties the cells passed |
| DfsBlocks.DfsBlock.Reset | src/sudokus.rs:206-213 | cursors and counter go back to 0 and exactly the block's cells are emptied |
| DfsBlocks.DfsBlock.SettledAccept | src/sudokus.rs:190-200 | accepting a passing position keeps every earlier accepted position passing |
| DfsBlocks.DfsBlock.SettledKeep | src/sudokus.rs:150-163 | clearing later positions keeps the earlier accepted positions passing |
| DfsBlocks.DfsBlock.ResumeReady | src/sudokus.rs:166-174 | a completely settled block has its first eight positions settled, as a resumed call needs |
| DfsBlocks.DfsBlock.ProgressStart | src/sudokus.rs:165-176 | the bookkeeping holds when the loop starts |
| DfsBlocks.DfsBlock.ProgressDone | src/sudokus.rs:201-203 | a finished loop has refilled every position from the lowest one it revisited |
| Common.RankBound | src/sudokus.rs:416-444 | the measure of a digit list lies in [0, base^len), so the searches' measure is bounded |
| Common.RankLexLess | src/sudokus.rs:416-444 | raising a digit with an equal prefix raises the measure, whatever follows |
| SingleSudoku.Row | src/sudoku.rs:73-78 | row i lists nine cells inside the puzzle |
| SingleSudoku.Column | src/sudoku.rs:80-83 | column i lists nine cells inside the puzzle |
| SingleSudoku.Block | src/sudoku.rs:85-93 | block i lists nine cells inside the puzzle |
| SingleSudoku.RowMembers | src/sudoku.rs:73-78 | cell c is in row i exactly when c / 9 == i |
| SingleSudoku.ColumnMembers | src/sudoku.rs:80-83 | cell c is in column i exactly when c % 9 == i |
| SingleSudoku.BlockMembers | src/sudoku.rs:85-93 | cell c is in block i exactly when the problematic-cell formula names block i for c |
| SingleSudoku.RegionIndexExamples | src/sudoku.rs:201-276 | row 0, column 0 and blocks 0 and 4 list the test's indexes |
| SingleSudoku.ProblemRegionsHoldCell | src/sudoku.rs:115-133 | the three regions the problematic check inspects all contain the cell |
| SingleSudoku.Validate | src/sudoku.rs:22-51 | `validate` and `partial_validate` accept exactly the regions whose values are digits (or gaps when partial) without repeats |
| SingleSudoku.BadValueInvalid | src/sudoku.rs:27-28 | a value outside 1..9 (other than an allowed gap) fails validation |
| SingleSudoku.RepeatInvalid | src/sudoku.rs:45-46 | a repeated digit fails validation |
| SingleSudoku.ValidateAccepts | src/sudoku.rs:296-299 | the test's two valid regions pass |
| SingleSudoku.ValidateRejects | src/sudoku.rs:300-304 | the test's five invalid regions fail: [1,2,3,4,5,6,7,0,9], [1,2,3,4,5,6,7,10,9], [1,2,2,4,5,6,7,8,9], [1,2,3,4,5,6,7,8,1] and [1,2,3,4,5,6,7,9,9] |
| SingleSudoku.PartialValidateAccepts | src/sudoku.rs:354-360 | the test's regions with gaps pass partial validation |
| SingleSudoku.PartialValidateRejects | src/sudoku.rs:361-364 | the test's four invalid regions fail partial validation: [1,2,3,4,5,6,7,10,9], [1,2,3,4,5,6,7,9,9], [1,2,3,4,5,6,7,8,1] and [1,2,2,4,5,6,7,8,9] |
| SingleSudoku.SolvedIffNoProblems | src/sudoku.rs:95-133 | a puzzle is solved exactly when every cell is filled and none is problematic |
| SingleSudoku.UnsolvedExamples | src/sudoku.rs:307-351 | the empty puzzle, the three corruptions of the sample and the grid with repeating blocks are not solved |
| SingleSudoku.WriteKeepsUnproblematic | src/sudoku.rs:115-133 | a write that leaves its own cell unproblematic leaves every unproblematic cell so |
| SingleSudoku.ClearKeepsUnproblematic | src/sudoku.rs:115-133 | emptying a cell never makes another cell problematic |
| SingleSudoku.OverNineProblematic | src/sudoku.rs:115-133 | a cell holding a value above 9 is problematic |
| SingleSudoku.SkipStep | src/sudoku.rs:145-149 | skipping a filled cell keeps the solver's invariant and its measure |
| SingleSudoku.AcceptStep | src/sudoku.rs:162-167 | keeping a passing value pushes the guess, keeps the invariant and does not lower the measure |
| SingleSudoku.BacktrackStep | src/sudoku.rs:157-161 | clearing the cell and resuming at the last guess keeps the invariant and raises the measure |
| SingleSudoku.ExhaustedStep | src/sudoku.rs:157-160 | with no guess left, clearing the cell restores the puzzle as given |
| SingleSudoku.FinishStep | src/sudoku.rs:144-170 | at the end every cell is filled, every guessed cell holds an unproblematic digit, and an unproblematic puzzle is solved |
| SingleSudoku.CompletedIsSolved | src/sudoku.rs:95-113 | a full puzzle whose given cells were unproblematic and whose filled cells are unproblematic is solved |
| SingleSudoku.Sudoku.NewEmpty | src/sudoku.rs:69-71 | all 81 cells are empty |
| SingleSudoku.Sudoku.NextFittingValue | src/sudoku.rs:152-155 | only the cell changes: it rises by at least one, to at most 10, and ends on a passing value unless it reached 9; every value it skipped fails at that cell |
| SingleSudoku.TriedStep | src/sudoku.rs:152-155 | a failing value extends the run of failed values by one |
| SingleSudoku.Sudoku.SolveRound | src/sudoku.rs:144-168 | one pass of the loop keeps the invariant and raises the measure (or keeps it and advances), or reports exhaustion with the puzzle restored |
| SingleSudoku.Sudoku.Solve | src/sudoku.rs:135-171 | given cells never change; Err restores the puzzle; Ok fills every cell, every filled cell with an unproblematic digit, and solves a puzzle whose given cells were unproblematic |

## Left out

- `src/lib.rs`, the JavaScript/WebGL front end, `sudoku_rows`, `Sudoku::coords` and both `Debug` implementations are display code. The `println!` calls in `next_solution` are output only.
- Grid.SudokuGrid.DepthFirstSolve: unproblematic cells and a solved puzzle are proved only when the puzzle's blocks do not alias (n >= 2 and m >= 2). On a 1-wide torus the index list repeats cells and the search revisits them. The other ensures hold on every grid.
- Grid.SudokuGrid.DepthFirstSolve: the backtrack count is an unbounded `nat`; the source's `u64` cannot overflow in practice.
- DfsBlocks.DfsBlock.NextSolution: the backtrack count is an unbounded `nat`, not a `u64`.
- DfsBlocks.DfsBlock.NextSolution: every position passing on `Ok` is proved only when the positions the call keeps from before were passing. A resumed call does not re-check positions 0 to 7.
- DfsBlocks.DfsBlock.NextSolution: the order in which candidates are tried, and that a later call never repeats an earlier solution, are not stated for the whole call. They are proved round by round: TryPosition and Step say every skipped candidate failed, and Resume says the last position moves to exactly its next candidate.
- DfsBlocks.DfsBlock.NextSolution: requires at least nine candidates. The source indexes `random` with cursors up to 8 and would panic on a shorter slice.
- A resumed call never tries the ninth candidate at the last position. Once the other eight positions hold distinct candidates, only one value fits the last position, so this loses no solution when the candidates are nine distinct digits. The model reproduces the behaviour and proves nothing about it.
- GridRegion.Seen.Add requires a value below 16. The source has a debug assertion there, and an out-of-range shift otherwise.
- Grid.SudokuGrid.SolveTrivialRegions: requires every cell of the puzzle to be below 16 for the same reason.
- GridLayout.BlockIndexFor: requires the index to belong to the puzzle. The source panics otherwise.
- The region functions require indexes below 9, as the source's assertions do.
- SingleSudoku.Sudoku.Solve: not proved complete. `NoSolution` is shown to leave the puzzle as given, not to mean that no completion exists.
- Grid.SudokuGrid.DepthFirstSolve: not proved complete either. `NoSolution` restores the store but is not shown to mean that no completion exists.
- Some concrete examples from the source's tests would need the searches or whole-grid checks to be evaluated on data. They are not restated:
  - the three calls of `DfsBlock::next_solution` on a 1x1 grid;
  - solving an empty puzzle;
  - the value lists read back in the grid tests of `row`/`column`/`block`;
  - the sample grid being solved.

  The index facts behind these tests are covered by the lemmas above.
- `SudokuGrid::sudoku` is modelled on coordinates on the torus. Its debug assertion becomes a precondition.
- The ghost fields `own`, `other` and `block` of `DfsBlock` record the puzzles and block the filler was built for. They exist only for the proofs.
