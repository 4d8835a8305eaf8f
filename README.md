# Sudoku solver: a verified Dafny model

This project models the backtracking Sudoku solver of `src/main.rs`, which is
written in Rust. It then proves the solver sound and complete, and shows that
it keeps the board invariants its speed depends on.

The solver keeps a `Board` with four parts:
- the 9x9 grid, where 0 marks an empty cell;
- nine 16-bit occupancy masks for the rows (`row_contains`);
- nine for the columns (`col_contains`);
- nine for the 3x3 boxes (`box_contains`).

In each mask, bit v-1 records that digit v is already placed. The board also
keeps a stack `empty_cells` of empty coordinates, pushed in row-major order.

- `Board::new` scans the 81 cells. It sets mask bits for the givens and pushes
  the empty cells.
- `valid_moves` yields, in ascending order, the digits whose bit is clear in the
  union of the cell's three masks.
- `make_move` returns a new board. In it the digit is written, its three bits
  are set and the last empty cell is popped.
- `solve_recursive` always fills the last empty cell. It tries the valid moves
  in order with `find_map` and keeps the first branch that returns a board.
- `solve` builds the board and returns the grid of the board the search finds.

The Dafny modules follow that structure:

- `Wrappers`: `Option`, and `FindMap`, the first `Some` of a sequence of outcomes.
- `Masks`: masks as `bv16`.
  - `Bit(v)` is `1 << (v - 1)` and `Has(m, v)` is `bit & m != 0`.
  - It proves the bit facts that the rest of the model needs.
- `Grids`: the grid, `get_box_index`, rows, columns and boxes, and what a solved
  Sudoku is.
- `Boards`: the `Board` datatype and the board invariant `Valid`.
  - `Valid` holds when every mask marks exactly the digits of its group and no
    bit above bit 8, and `emptyCells` lists each zero cell once and nothing else.
  - The module also holds `Board::new` (the method `NewBoard`, with its two
    loops), `valid_moves` and `make_move`.
- `Solver`: `solve_recursive` as a pair of mutually recursive functions.
  - `SolveRecursive` handles one cell and `TryMoves` runs the `find_map` over
    its moves.
  - They terminate on the number of empty cells, then the number of moves left.
  - The module proves soundness and completeness, and holds `solve` as the
    method `Solve`.
- `Scenarios`: the grid with no givens is solved.

Main results, all stated for the grid passed to `Solve`:
- A returned grid has no zero and keeps every given.
- When the givens contain no repeated digit in any row, column or box, the
  returned grid is a solved Sudoku. Every row, column and box then holds each
  digit 1..9.
- `None` is returned only when no solved Sudoku keeps the givens. So the search
  is complete.
- A grid with no empty cell is returned unchanged.
- The result is the grid of the board `SolveRecursive` finds from the unique initial board of the grid, so `solve` is deterministic (`SolveDeterministic`).

## Model

| member | source | states |
|---|---|---|
| Grids.BoxIndex | src/main.rs:60-62 | the box number of a cell on the board is below 9 |
| Grids.SameBox | src/main.rs:60-62 | two cells get the same box number exactly when their rows agree after dividing by 3 and their columns do too |
| Masks.Bit | src/main.rs:25 | the bit of digit v, built by shifting 1 left once per digit above 1; BitIsShift shows it is `1 << (value - 1)` |
| Masks.Has | src/main.rs:42-43 | whether digit v is marked in a mask, tested one bit at a time; HasIsAnd shows it is `bit & mask != 0` |
| Masks.BitIsShift | src/main.rs:25 | the digit bit equals the shift `1 << (value - 1)` of the source |
| Masks.HasIsAnd | src/main.rs:42-43 | a digit is marked in a mask exactly when the digit's bit ANDed with the mask is nonzero |
| Masks.HasNone | src/main.rs:14-16 | a zero mask marks no digit |
| Masks.HasUnion | src/main.rs:38-40 | a digit is marked in the OR of two masks exactly when it is marked in one of them |
| Masks.HasUnion3 | src/main.rs:38-40 | a digit is marked in the OR of the row, column and box masks exactly when it is marked in one of the three |
| Masks.BitsDisjoint | src/main.rs:25 | the bit of digit v marks digit w exactly when v equals w |
| Masks.HasSet | src/main.rs:26-28 | after ORing in the bit of v, a mask marks v and every digit it marked before, and no other digit |
| Masks.OnlyDigitBitsSet | src/main.rs:26-28 | setting a digit bit leaves bits 9..15 clear |
| Masks.MaskDetermined | src/main.rs:20-32 | a mask with only digit bits is fixed by the set of digits it marks |
| Masks.SameDigitBits | src/main.rs:20-32 | two words that agree on bits 0..8 and have bits 9..15 clear are equal |
| Masks.SetBit | src/main.rs:26-28 | the OR-assignment into mask k: mask k gains the bit of v and the other eight masks are unchanged |
| Grids.GroupHasPlace | src/main.rs:50 | writing v into an empty cell adds v to the digits held by that cell's row, column and box; every other group keeps its nonzero digits |
| Grids.AvoidingDigits | src/main.rs:64-77 | distinct digits that leave out one digit number at most eight |
| Grids.Pigeonhole | src/main.rs:64-77 | nine distinct digits from 1..9 include every digit |
| Grids.GroupHasEveryDigit | src/main.rs:64-77 | a row, column or box of a solved grid holds any given digit 1..9 |
| Grids.SolutionHasEveryDigit | src/main.rs:64-77 | every row, column and box of a solved grid holds every digit 1..9 |
| Boards.ZeroCellsSound | src/main.rs:20-23 | every cell the scan pushes lies on the board, comes before the scan point and holds 0 |
| Boards.ZeroCellsComplete | src/main.rs:20-23 | every zero cell before the scan point has been pushed |
| Boards.ZeroCellsOrdered | src/main.rs:20-23 | the pushed cells come in strictly increasing row-major position |
| Boards.ZeroCellsOfComplete | src/main.rs:20-23 | a grid without a zero pushes no empty cell |
| Boards.ZeroCellsExact | src/main.rs:20-23 | after the scan, the empty list holds each zero cell once and nothing else |
| Boards.GroupHasBeforeExists | src/main.rs:20-21 | a group has been seen to hold v before the scan point exactly when some cell of that group at an earlier row-major position holds v |
| Boards.TracksStart | src/main.rs:14-16 | the all-zero initial masks agree with an empty scan |
| Boards.TracksAddAt | src/main.rs:24-28 | scanning a given keeps each mask and digit in step: bit w-1 of mask k is set exactly when a cell scanned so far in group k holds w |
| Boards.TracksAdd | src/main.rs:24-28 | scanning a given and setting its bit in its group's mask keeps the masks in step with the scan, and they keep only digit bits |
| Boards.ScanStart | src/main.rs:12-18 | the initial board (zero masks, no empty cells) is the state of a scan that has not begun |
| Boards.ScanEmpty | src/main.rs:22-23 | scanning a zero cell pushes it and leaves the masks as they are |
| Boards.ScanGiven | src/main.rs:24-29 | scanning a given sets its bit in its row, column and box masks and leaves the empty list as it is |
| Boards.ScanNextRow | src/main.rs:20-21 | the end of one row of the scan is the start of the next |
| Boards.TracksComplete | src/main.rs:20-32 | masks in step with the finished scan mark exactly the digits each group holds |
| Boards.ScannedBoardValid | src/main.rs:20-34 | the board the scan builds satisfies the board invariant |
| Boards.ScanCell | src/main.rs:22-30 | one iteration of the inner loop moves the scan state forward by one cell |
| Boards.ScanRow | src/main.rs:21-31 | the inner loop moves the scan state from the start of a row to the start of the next |
| Boards.Scan | src/main.rs:12-32 | the two loops, starting from zero masks and an empty list, reach the state of the finished scan |
| Boards.NewBoard | src/main.rs:11-35 | the new board is the initial board of the grid: it keeps the input grid, satisfies the invariant and stacks the zero cells in scan order, that is, in strictly increasing row-major position |
| Boards.MasksUnique | src/main.rs:20-32 | two sets of nine masks that both agree with the grid are equal |
| Boards.InitialBoardUnique | src/main.rs:11-35 | a grid has exactly one initial board: the same grid, the masks that agree with it and its zero cells in scan order |
| Boards.ValidMoves | src/main.rs:37-45 | v is a valid move exactly when v is in 1..9 and its bit is clear in the row, column and box masks; moves come out strictly ascending, at most nine of them |
| Boards.Candidates | src/main.rs:41-44 | every digit the filter yields from `from` onwards is at most 9 and has its bit clear; they come out strictly ascending |
| Boards.CandidatesComplete | src/main.rs:41-44 | every digit from `from` to 9 whose bit is clear is yielded |
| Boards.CandidatesMember | src/main.rs:41-44 | a digit is yielded by the filter over 1..=9 exactly when it is in 1..9 and its bit is clear |
| Boards.CandidateOfUnion | src/main.rs:38-44 | one digit passes the filter over the ORed mask exactly when it is clear in each of the three masks |
| Boards.CandidatesOfUnion | src/main.rs:38-44 | the digits passing the filter over the ORed mask are exactly those clear in each of the three masks |
| Boards.ValidMovesExact | src/main.rs:37-45 | on a valid board, v is a valid move at a cell exactly when v is in 1..9 and not yet in the cell's row, column or box |
| Boards.ValidMoveNotInGroup | src/main.rs:37-45 | a valid move is held by none of the three groups of its cell |
| Boards.Place | src/main.rs:50 | the written cell holds the value and every other cell is unchanged |
| Boards.MakeMove | src/main.rs:47-56 | the new board has the value at (row, col) and every other cell as it was; its bit is ORed into the cell's row, column and box masks and the other masks are unchanged; the last empty cell is popped, and a pop of an empty stack leaves it empty |
| Boards.LastEmpty | src/main.rs:71 | the cell taken from the top of the stack lies on the board and is listed as empty |
| Boards.AgreesAfterMoveAt | src/main.rs:50-53 | after a move into an empty cell, the bit of w in mask k is set exactly when group k of the new grid holds w |
| Boards.AgreesAfterMove | src/main.rs:50-53 | a move into an empty cell keeps the masks of each kind of group in agreement with the new grid |
| Boards.MakeMoveEmptyCells | src/main.rs:54 | after a move at the last empty cell, the popped stack still lists exactly the zero cells, once each |
| Boards.MakeMoveValid | src/main.rs:47-56 | a move of any digit at the last empty cell keeps the board invariant |
| Boards.MakeMoveConflictFree | src/main.rs:73-75 | committing a valid move at the last empty cell of a conflict-free grid leaves the grid conflict-free |
| Solver.SolveRecursive | src/main.rs:70-77 | an empty stack returns the board itself; a returned board has an empty stack, and every cell that was not listed as empty keeps its value |
| Solver.TryMoves | src/main.rs:73-75 | a board found for any of the moves has an empty stack and keeps every cell that was not listed as empty |
| Solver.Branch | src/main.rs:75 | the closure of find_map, the search after committing one value: a board it finds has an empty stack |
| Solver.Outcomes | src/main.rs:73-75 | the results of the branches of the moves, one per move |
| Wrappers.FindMap | src/main.rs:75 | the reference find_map over computed outcomes: a result it returns is one of the outcomes |
| Solver.OutcomesAt | src/main.rs:73-75 | outcome i is the search after committing move i |
| Wrappers.FindMapNone | src/main.rs:75 | find_map finds nothing exactly when every outcome is None |
| Wrappers.FindMapFirst | src/main.rs:75 | find_map returns the first outcome that is Some |
| Solver.TryMovesIsFindMap | src/main.rs:73-75 | the search at a cell is find_map over the branches of its moves, in order |
| Solver.TryMovesNone | src/main.rs:73-75 | the search at a cell fails exactly when the branch of every move fails |
| Solver.TryMovesFirst | src/main.rs:73-75 | the search at a cell returns the board of the first move whose branch succeeds |
| Solver.NoEmptyCellsComplete | src/main.rs:71-72 | on a valid board with an empty stack, the grid has no zero |
| Solver.SolveRecursiveSound | src/main.rs:70-77 | from a valid board, a returned board is valid and complete; when the input grid has no conflict, neither has the result |
| Solver.TryMovesSound | src/main.rs:73-75 | the soundness of the search over a list of moves; conflict-freedom holds when every move is a valid move |
| Solver.FoundExtends | src/main.rs:70-77 | a returned board keeps every given of the board it started from |
| Solver.SolutionDigitValid | src/main.rs:74 | the digit that a solution keeping the givens has at an empty cell is among that cell's valid moves |
| Solver.SolutionExtendsMove | src/main.rs:75 | a solution that keeps the givens still keeps them after its own digit is committed |
| Solver.SolveRecursiveComplete | src/main.rs:70-77 | from a valid board the search finds a board whenever some solved grid keeps the board's digits |
| Solver.TryMovesComplete | src/main.rs:73-75 | the search over moves that include the solution's digit at the cell finds a board |
| Solver.NoneMeansNoSolution | src/main.rs:70-77 | a failed search from a valid board means no solved grid keeps its digits |
| Solver.FoundSolution | src/main.rs:64-77 | a board the search returns has a complete grid that keeps the givens, and the grid is solved when the givens have no conflict |
| Solver.GridOf | src/main.rs:67 | the map at the end of solve: Some exactly when the search found a board, and then that board's grid |
| Solver.SolveDeterministic | src/main.rs:64-68 | any two results of solve for the same grid are equal |
| Scenarios.WitnessSolved | src/main.rs:64-77 | the grid W(r, c) = (3(r mod 3) + r div 3 + c) mod 9 + 1 is a solved Sudoku |
| Scenarios.EmptyGridSolved | src/main.rs:64-77 | solve on the grid with no givens returns a solved Sudoku |
| Solver.Solve | src/main.rs:64-68 | a result has no zero and keeps the givens; it is a solved Sudoku holding every digit in every row, column and box when the givens have no conflict; None means no solved grid keeps the givens; a grid without a zero comes back unchanged; the result is the grid of what the search returns from the initial board of the grid, so it is the first solution in the search order |

## Left out

- `main` (`src/main.rs:79-112`) is not modelled. It only reads the clock, prints and picks a hard-coded puzzle.
- Rust iterator laziness is not modelled.
  - `valid_moves` is the sequence its filter would yield (`Candidates` over 1..9).
  - `find_map` is `TryMoves`, which recurses over that sequence. It is tied to the generic `FindMap` by `TryMovesIsFindMap`.
- Values and widths:
  - The grid, whose type is `[[u8; 9]; 9]`, is a `seq<seq<int>>` of digits 0..9 (`IsGrid`). Digits outside 0..9 are excluded by a precondition of `NewBoard` and `Solve`. A larger `u8` digit would break the masks: 10..16 would set bits 9..15, and 17 or more would overflow the `u16` shift. A 0 never reaches `value - 1` in `Board::new`, because it takes the `0 =>` arm.
  - `MakeMove` requires a digit of 1..9. With 0, `value - 1` at `src/main.rs:48` would underflow, but `solve_recursive` passes it only values yielded by `valid_moves`, which are 1..9.
  - Masks are `bv16`, which is exactly the source's `u16`.
  - Indices are unbounded `nat`s, because only 0..8 ever occurs.
- Fixed-size arrays are sequences.
  - `Board` is a datatype value. `make_move` is the function `MakeMove`, which builds the new board directly instead of cloning and then updating the clone in place. The input board is unchanged by construction.
  - `Board::new` is a method. It reassigns whole mask sequences (`SetBit`) instead of updating array cells in place, and its loop bodies are the methods `ScanCell` and `ScanRow`.
- The concrete sample puzzle is not solved inside the verifier. Its solution is a particular grid, so proving it would mean running the whole search. The all-zero grid needs only completeness and one solved grid, and it is proved (`Scenarios.EmptyGridSolved`).
- A grid with a repeated digit among its givens does not always give `None`, contrary to what one might expect.
  - The code only checks new digits against the masks, and it never re-checks the givens.
  - So a full grid with duplicates is returned as it is (the `Complete(grid)` ensures of `Solve`).
  - A grid whose empty cells can still be filled legally is completed.
  - The model follows the code: the conflict-free conclusions are conditional on `ConflictFree` of the givens.
