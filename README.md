# Sudoku generator: solver, genome helpers and clue remover

This project models the core of a C++ sudoku generator. A genetic algorithm
evolves a filled 9x9 grid. A clue remover then blanks cells as long as a
backtracking solver still solves the grid. Four modules make up the model:

- `Board` (board.dfy): the board as a value (`seq<seq<int>>`, 0 = empty).
  It defines rows, columns and 3x3 boxes, valid placement, consistency (no
  digit twice in a unit) and what it means to complete a puzzle.
  `Cells(g)` reads the program's mutable grid (an `array2<int>`) as a board,
  and `WriteCell` is the one-cell write `grid[r][c] = v`.
- `SudokuSolver` (solver.dfy): `isPresentInRow/Col/Box`, `isValidPlace`,
  `findEmptyPlace`, `solveSudoku` and `checkSudoku`.
  - Every loop of the program is a loop of a `method`.
  - The in-place recursive `SolveSudoku` is proved equal to the ghost
    function `Solve`, which is the same depth-first search written as a
    function.
  - Lemmas about `Solve` prove what the search promises: soundness,
    completeness and the least solution in digit order. That the grid is
    restored when the search fails is part of `SolveSudoku`'s own contract.
- `Genome` (genome.dfy): the 81-gene genome (an `array<int>`, gene i*9+j for
  cell (i, j)) and `genomeToGrid`. It also has the initializer (clear, seed
  the diagonal boxes, `fillRemainingCells`, copy into the genome), the
  gene-swap mutator and the cut-point crossover.
- `ClueRemover` (remover.dfy): `backtrackRemoveNumbers` and `removeNumbers`.
  - The methods are proved equal to the ghost search `Reduce`/`ReduceFrom`.
  - The remover is compared with a plain reference, "blank the first
    non-zero genes in order" (`BlankInOrder`).
  - From a full solved grid the puzzle it leaves has two solutions, so the
    remover accepts solvable puzzles, not unique ones.

The program's global grid `int **grid` becomes an `array2<int>` parameter of
every operation that uses it. Every random choice becomes a parameter:
- each shuffled digit list is a sequence;
- the result of `GAFlipCoin` is a `bool`;
- each call of `rand()` is a natural number, reduced with `%` exactly as the
  program does.

The program's header comment (sudoku.cpp:18-19) asks for boards "that can be
solved in a unique way", and it says to "remove one number at a time and try
to solve" (sudoku.cpp:28-29). The code itself tests only that a solution
exists. `solveSudoku` (sudoku_solver.cpp:61-74) stops at the first completion
and leaves it in the grid; it undoes its placements only when it fails. The
remover keeps a blank when the solver succeeds (sudoku.cpp:198) and the
recursive call then succeeds too (sudoku.cpp:199). It stops once more than 55
cells are empty (sudoku.cpp:191). The model follows the code.

## Model

| member | source | states |
|---|---|---|
| SudokuSolver.IsPresentInCol | sudoku_solver.cpp:7-12 | true exactly when some row of column `col` holds `num`; the grid is only read |
| SudokuSolver.IsPresentInRow | sudoku_solver.cpp:14-19 | true exactly when some column of row `row` holds `num`; the grid is only read |
| SudokuSolver.IsPresentInBox | sudoku_solver.cpp:21-28 | true exactly when `num` occurs in rows boxStartRow..+2 and columns boxStartCol..+2; the corner must lie in 0..6 so that every access is in bounds |
| Board.InBoxMeaning | sudoku_solver.cpp:21-28 | the nine-cell box sequence holds n exactly when some cell of the 3x3 block does |
| SudokuSolver.IsValidPlace | sudoku_solver.cpp:54-59 | true exactly when `num` is absent from row `row`, from column `col` and from the box at (row - row%3, col - col%3) |
| Board.PlaceValidIff | sudoku_solver.cpp:54-59 | on a consistent board, writing a non-zero digit into an empty cell keeps it consistent exactly when the placement is valid |
| SudokuSolver.FindEmptyPlace | sudoku_solver.cpp:46-52 | true exactly when some cell is 0, and then (row, col) is the first zero in row-major order; when false, both counters end at 9 |
| SudokuSolver.FirstEmpty | sudoku_solver.cpp:46-52 | None exactly when no cell is empty; otherwise the first empty cell in row-major order |
| SudokuSolver.FirstEmptyUnique | sudoku_solver.cpp:46-52 | a cell that is empty and has no empty cell before it is the one the scan returns |
| Board.WriteCell | sudoku_solver.cpp:67 | writing one grid cell changes the board at that cell and nowhere else |
| Board.SetUndo | sudoku_solver.cpp:70 | writing back the old value of the cell undoes a placement |
| SudokuSolver.Solve | sudoku_solver.cpp:61-74 | a result keeps every non-zero cell of the entry board and holds a digit 1..9 in every cell that was empty; a board with no empty cell is returned unchanged |
| SudokuSolver.TryDigits | sudoku_solver.cpp:65-73 | the digit loop from `num` on: a result keeps the givens and fills every empty cell with a digit 1..9 |
| SudokuSolver.SolveSudoku | sudoku_solver.cpp:61-74 | returns true exactly when the search succeeds; the grid then holds the search's completion, and after false the grid equals its entry state |
| SudokuSolver.SolveSound | sudoku_solver.cpp:65-68 | from a consistent board, what the search returns is a solution: completed and with no digit twice in any row, column or box |
| SudokuSolver.SolveComplete | sudoku_solver.cpp:65-73 | if the board has any solution, the search succeeds |
| SudokuSolver.SolveDecides | sudoku_solver.cpp:61-74 | on a consistent board, the search succeeds exactly when a solution exists |
| SudokuSolver.FirstEmptyDecides | sudoku_solver.cpp:65-67 | of two completions, the one with the smaller digit at the first empty cell is lexicographically smaller |
| SudokuSolver.SolveFindsLeast | sudoku_solver.cpp:65-69 | digits are tried in increasing order, so the solution returned is the least of all solutions in row-major lexicographic order |
| SudokuSolver.SolveAcceptsClashingFullGrid | sudoku_solver.cpp:63-64 | a full grid is accepted without any check: the all-ones grid is inconsistent, yet the search returns it |
| SudokuSolver.CheckSudoku | sudoku_solver.cpp:76-104 | the check as written returns true exactly when no cell holds a value 1..9 |
| SudokuSolver.CheckSudokuRejectsSolved | sudoku_solver.cpp:79-81 | every solved grid fails the check as written |
| SudokuSolver.CheckSudokuIntended | sudoku_solver.cpp:76-104 | the corrected check is true exactly when every row, column and box holds every digit 1..9 |
| SudokuSolver.RowsComplete | sudoku_solver.cpp:77-83 | the corrected row pass: true exactly when every row holds every digit |
| SudokuSolver.ColumnsComplete | sudoku_solver.cpp:85-91 | the corrected column pass: true exactly when every column holds every digit |
| SudokuSolver.BoxesComplete | sudoku_solver.cpp:93-101 | the corrected box pass: true exactly when every box holds every digit |
| SudokuSolver.IntendedCheckIffSolved | sudoku_solver.cpp:103 | the corrected check's condition holds exactly when the grid is solved: all cells 1..9 and no unit holds a digit twice |
| SudokuSolver.SolvedGridPassesIntendedCheck | sudoku_solver.cpp:106-108 | on a consistent board of digits, a grid that solveSudoku fills passes the corrected check |
| Genome.GenomeToGrid | sudoku.cpp:36-42 | afterwards grid[i][j] == genome[i*9+j] for all cells, so the grid's board is the genome's board |
| Genome.GridToGenome | sudoku.cpp:125-129 | afterwards genome[i*9+j] == grid[i][j] for all cells, so the genome is the board flattened row by row |
| Genome.BoardOfFlatten | sudoku.cpp:125-129 | copying a grid into a genome and converting it back gives the same grid |
| Genome.FlattenBoardOf | sudoku.cpp:36-42 | converting a genome to a grid and copying it back gives the same genome |
| Genome.CountZeros | sudoku.cpp:191 | the number of empty cells of the grid (assumed meaning of the undefined countZeros) |
| Genome.GenomeZeros | sudoku.cpp:190-191 | the zero genes of a genome are exactly as many as the empty cells of its grid |
| Genome.ClearGrid | sudoku.cpp:95-101 | every cell of the grid becomes 0 |
| Genome.SeedDiagonalBoxes | sudoku.cpp:104-121 | the grid afterwards is the old grid with box k, corner (3k, 3k), laid out row by row from the k-th list |
| Genome.SeededBoxes | sudoku.cpp:115-120 | seeding makes box (3k, 3k) equal to the k-th list and changes no cell outside the diagonal boxes |
| Genome.FirstAbsentFrom | sudoku.cpp:80-85 | a value found comes from the cell's list and is not yet in the row; no value means every listed value is already in the row |
| Genome.FillRemainingCells | sudoku.cpp:68-89 | the grid afterwards is the row-by-row filling: each empty cell holds the first value of its own list that was absent from the row at that moment |
| Genome.FillRowWritesFreshValues | sudoku.cpp:79-85 | handling a column writes only a cell that was 0, writes a value that was not in the row, and changes no other cell |
| Genome.FillRowKeepsGivens | sudoku.cpp:79 | a cell that was non-zero before the filling keeps its value |
| Genome.FillRowUpToFacts | sudoku.cpp:79-85 | when every list is a shuffle of 1..9 and the row had no repeated digit, the filled row stays repetition-free, keeps its givens and leaves no handled cell empty |
| Genome.Initializer | sudoku.cpp:92-130 | the grid is the empty grid seeded with the three lists and then filled; the genome is that grid flattened |
| Genome.InitialRows | sudoku.cpp:104-122 | with shuffled digit lists, every row of the initial grid is a permutation of 1..9 |
| Genome.InitialBoxes | sudoku.cpp:104-122 | the filling keeps each diagonal box exactly as seeded from its list |
| Genome.DiagonalCellKept | sudoku.cpp:118 | each seeded cell of a diagonal box survives the filling |
| Genome.InitialBoard | sudoku.cpp:92-130 | the initial grid has every row and every diagonal box a permutation of 1..9 |
| Genome.Redraw | sudoku.cpp:139-143 | the second position is one of the draws, lies in 0..80 and differs from the first |
| Genome.Mutator | sudoku.cpp:133-151 | on a true coin: returns 1 and the genome is the input with the genes at the two positions exchanged; on a false coin: returns 0 and nothing changes |
| Genome.SwapMeaning | sudoku.cpp:144-146 | the two chosen genes trade values and every other gene keeps its value |
| Genome.SwapKeepsGenes | sudoku.cpp:144-146 | a swap keeps the multiset of genes |
| Genome.SwapInvolution | sudoku.cpp:144-146 | swapping the same two positions again restores the genome |
| Genome.TwoChildCut | sudoku.cpp:162 | the two-child cut is 27 or 54, a row boundary |
| Genome.OneChildCut | sudoku.cpp:175 | the one-child cut lies in 0..80 |
| Genome.Crossover | sudoku.cpp:154-187 | with two children: child1 takes parent1 before the cut and parent2 after it, child2 the mirror image, and the result is 2; with only the first child it is spliced at the other cut and the result is 1; with no first child the result is 0 and nothing changes |
| Genome.SpliceRows | sudoku.cpp:161-171 | a cut at a row boundary gives a child made of whole rows: the rows above the cut from one parent, the others from the other |
| Genome.SpliceKeepsGenes | sudoku.cpp:163-171 | the two children together hold exactly the genes of the two parents |
| Genome.CrossoverKeepsRowPermutations | sudoku.cpp:161-171 | parents whose rows are permutations of 1..9 give two children whose rows are too |
| ClueRemover.Reduce | sudoku.cpp:189-210 | the search as a function: a result is a full 81-gene genome; what else it meets is stated by ReduceBlanks and ReduceAccepted |
| ClueRemover.ReduceBlanks | sudoku.cpp:189-210 | a successful removal only sets genes to 0, never changes a gene to another digit, and leaves more than 55 zero genes |
| ClueRemover.ReduceFromBlanks | sudoku.cpp:192-209 | the same for the loop from gene i on |
| ClueRemover.BlankStepBlanks | sudoku.cpp:193-202 | the same for the step that blanks gene i and recurses |
| ClueRemover.ReduceAccepted | sudoku.cpp:191-202 | a successful removal returns the genome it was given (already over 55 zeros) or one the solver solves |
| ClueRemover.ReduceFromAccepted | sudoku.cpp:192-209 | from the loop on, every genome returned is one the solver solves |
| ClueRemover.BlankStepAccepted | sudoku.cpp:195-202 | a kept blank was accepted by the solver, so the result of recursing from it is solved too |
| ClueRemover.BacktrackRemoveNumbers | sudoku.cpp:189-210 | returns what the search decides; on true the genome is the search's result, on false the genome equals its entry value |
| ClueRemover.TryBlank | sudoku.cpp:193-207 | true exactly when the solver solves the genome with gene i blanked and the recursive search succeeds from there; otherwise gene i gets its value back and the genome is as on entry |
| ClueRemover.RemoveNumbers | sudoku.cpp:212-219 | bestGenome becomes the reduced copy when the search succeeds and is unchanged otherwise |
| ClueRemover.FirstNonZero | sudoku.cpp:192-193 | the first index from i on holding a non-zero gene, with only zeros before it |
| ClueRemover.BlankInOrderShape | sudoku.cpp:191-207 | blanking in order leaves exactly 56 empty cells when there is work to do, and what it blanks is a prefix of the genome |
| ClueRemover.ReduceFromSkipsZeros | sudoku.cpp:193 | the loop passes over zero genes without effect |
| ClueRemover.BlankKeepsCompletion | sudoku.cpp:195-198 | blanking a digit of a solvable grid keeps every solution a solution |
| ClueRemover.ReduceSolvable | sudoku.cpp:189-210 | from a solvable grid of digits the remover always succeeds, and its result is the first non-zero genes blanked in index order until 56 cells are empty |
| ClueRemover.FullGenomeBlanksFirst56 | sudoku.cpp:191-207 | from a genome without zeros, exactly genes 0..55 end up blank |
| ClueRemover.SwapTopRowsCompletes | sudoku.cpp:198 | exchanging the first two rows of a solution gives a different solution of any puzzle whose first two rows are empty |
| ClueRemover.ReducedFullGridNotUnique | sudoku.cpp:198 | from a full solved grid the remover succeeds, and the puzzle it leaves has two different solutions |

## Left out

- The genetic-algorithm driver `main` (sudoku.cpp:221-273): population handling, the generation loop, stagnation and mutation-rate tuning. It runs on the GAlib library, which is not part of this model. The genome is a plain `array<int>`, not a `GA1DArrayGenome<int>`.
- `objective` (sudoku.cpp:45-66): it returns a float and calls `isNumberRepeated`, which is not defined in the files modelled here.
- `isSolvable` (sudoku.cpp:282): not defined in the files modelled here.
- `sudokuGrid` and `printSolution` (sudoku_solver.cpp:30-44, 106-110): console output only. `printSolution` also falls off the end of a function declared to return `int`. Only the solve-then-check sequence of `printSolution` is stated, as `SolvedGridPassesIntendedCheck`.
- Allocation and freeing of the global grid (sudoku.cpp:95-101, 290-293): the grid is an `array2<int>` that the caller supplies.
- Randomness: `random_device`, `mt19937`, `shuffle`, `rand()` and `GAFlipCoin` are parameters (shuffled lists, a coin outcome, raw draws). Which values they take is not modelled. `InitialRows` and `InitialBoard` assume that every shuffled list is a permutation of 1..9, as `shuffle` of 1..9 guarantees.
- Genome.Mutator: requires, when the coin comes up true, some draw in `draws2` to give a position other than the first. With no such draw, the `while (pos2 == pos1)` loop of the program would not end. The model does not cover that non-terminating run.
- Genome.Crossover: requires the children to be arrays distinct from each other and from the parents. Aliased children, which GAlib never passes, are not modelled.
- Genome.CountZeros: `countZeros` is called at sudoku.cpp:191 but defined in none of the files modelled here. It is modelled as the number of zero cells, which is an assumption.
- Counting solutions and uniqueness: the code tests only that a solution exists, so neither is modelled as behaviour of `solveSudoku`. `ReducedFullGridNotUnique` shows that the remover's result need not have a unique solution.
- Integer width: cell values and genes are unbounded integers. No arithmetic in the core can overflow a 32-bit `int`; the largest value, a raw `rand()` draw, is only reduced with `%`.
- The contents of `grid` after `removeNumbers` and `backtrackRemoveNumbers`: the model says only that the grid may change. The program reloads the grid from the genome before each use (sudoku.cpp:190, 196), so the leftover contents are never read.

## Findings

| source | as written | input that shows it | evidently intended | confidence | as-written member | corrected member |
|---|---|---|---|---|---|---|
| sudoku_solver.cpp:79-81 | `checkSudoku` returns false as soon as a row contains any digit 1..9 (and likewise for columns and boxes via lines 88-89, 97-98), so it accepts only grids with no digit at all | any solved grid, e.g. the one `solveSudoku` returns inside `printSolution` (sudoku_solver.cpp:108), is reported "Incorrect solution" | return false when a row, column or box is missing some digit 1..9, so that the function returns true exactly for a valid grid, as the comment at sudoku_solver.cpp:103 says | not executed | SudokuSolver.CheckSudoku, SudokuSolver.CheckSudokuRejectsSolved | SudokuSolver.CheckSudokuIntended, SudokuSolver.IntendedCheckIffSolved |
