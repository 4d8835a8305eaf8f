/**
 * The backtracking search: solve_recursive always fills the last cell of the
 * empty-cell stack, tries the valid moves in ascending order and keeps the
 * first branch that succeeds (find_map); solve builds the board and returns
 * the grid of the board found.
 */
module Solver {
  import opened Wrappers
  import opened Masks
  import opened Grids
  import opened Boards

  /**
   * solve_recursive: a board with no empty cell is the answer; otherwise the
   * first valid move at the last empty cell whose search succeeds.
   */
  function SolveRecursive(b: Board): (r: Option<Board>)
    requires WellFormed(b)
    ensures b.emptyCells == [] ==> r == Some(b)
    ensures r.Some? ==> WellFormed(r.value) && r.value.emptyCells == []
    ensures r.Some? ==> forall i, j :: 0 <= i < 9 && 0 <= j < 9 && (i, j) !in b.emptyCells ==> r.value.grid[i][j] == b.grid[i][j]
    decreases |b.emptyCells|, 1, 0
  {
    if b.emptyCells == [] then Some(b)
    else
      var cell := LastEmpty(b);
      TryMoves(b, cell.0, cell.1, ValidMoves(b, cell.0, cell.1))
  }

  /** find_map over `moves`: the first move whose search returns a board. */
  function TryMoves(b: Board, row: nat, col: nat, moves: seq<int>): (r: Option<Board>)
    requires WellFormed(b) && b.emptyCells != [] && (row, col) == LastEmpty(b)
    requires forall i :: 0 <= i < |moves| ==> 1 <= moves[i] <= 9
    ensures r.Some? ==> WellFormed(r.value) && r.value.emptyCells == []
    ensures r.Some? ==> forall i, j :: 0 <= i < 9 && 0 <= j < 9 && (i, j) !in b.emptyCells ==> r.value.grid[i][j] == b.grid[i][j]
    decreases |b.emptyCells|, 0, |moves|
  {
    if moves == [] then None
    else
      var first := SolveRecursive(MakeMove(b, row, col, moves[0]));
      if first.Some? then first else TryMoves(b, row, col, moves[1..])
  }

  /** The search after committing `value` at (row, col): one branch of find_map. */
  function Branch(b: Board, row: nat, col: nat, value: int): (r: Option<Board>)
    requires WellFormed(b) && b.emptyCells != [] && (row, col) == LastEmpty(b) && 1 <= value <= 9
    ensures r.Some? ==> WellFormed(r.value) && r.value.emptyCells == []
  {
    SolveRecursive(MakeMove(b, row, col, value))
  }

  /** The outcomes of the branches of `moves`, in order. */
  function Outcomes(b: Board, row: nat, col: nat, moves: seq<int>): (outs: seq<Option<Board>>)
    requires WellFormed(b) && b.emptyCells != [] && (row, col) == LastEmpty(b)
    requires forall i :: 0 <= i < |moves| ==> 1 <= moves[i] <= 9
    ensures |outs| == |moves|
    decreases |moves|
  {
    if moves == [] then [] else [Branch(b, row, col, moves[0])] + Outcomes(b, row, col, moves[1..])
  }

  /** Outcome i is the branch of move i. */
  lemma {:induction false} OutcomesAt(b: Board, row: nat, col: nat, moves: seq<int>, i: nat)
    requires WellFormed(b) && b.emptyCells != [] && (row, col) == LastEmpty(b)
    requires forall i :: 0 <= i < |moves| ==> 1 <= moves[i] <= 9
    requires i < |moves|
    ensures Outcomes(b, row, col, moves)[i] == Branch(b, row, col, moves[i])
    decreases i
  {
    if i > 0 {
      OutcomesAt(b, row, col, moves[1..], i - 1);
    }
  }

  /** TryMoves is find_map over the branches of the moves, in order. */
  lemma {:induction false} TryMovesIsFindMap(b: Board, row: nat, col: nat, moves: seq<int>)
    requires WellFormed(b) && b.emptyCells != [] && (row, col) == LastEmpty(b)
    requires forall i :: 0 <= i < |moves| ==> 1 <= moves[i] <= 9
    ensures TryMoves(b, row, col, moves) == FindMap(Outcomes(b, row, col, moves))
    decreases |moves|
  {
    if moves != [] {
      var rest := moves[1..];
      TryMovesIsFindMap(b, row, col, rest);
      var outs := Outcomes(b, row, col, moves);
      assert outs[0] == Branch(b, row, col, moves[0]);
      assert outs[1..] == Outcomes(b, row, col, rest);
    }
  }

  /** The search at a cell fails exactly when the branch of every move fails. */
  lemma TryMovesNone(b: Board, row: nat, col: nat, moves: seq<int>)
    requires WellFormed(b) && b.emptyCells != [] && (row, col) == LastEmpty(b)
    requires forall i :: 0 <= i < |moves| ==> 1 <= moves[i] <= 9
    ensures TryMoves(b, row, col, moves).None? <==> forall i :: 0 <= i < |moves| ==> Branch(b, row, col, moves[i]).None?
  {
    TryMovesIsFindMap(b, row, col, moves);
    var outs := Outcomes(b, row, col, moves);
    FindMapNone(outs);
    forall i | 0 <= i < |moves| ensures outs[i] == Branch(b, row, col, moves[i]) {
      OutcomesAt(b, row, col, moves, i);
    }
  }

  /** When move i is the first whose branch succeeds, the search at the cell returns that branch's board. */
  lemma TryMovesFirst(b: Board, row: nat, col: nat, moves: seq<int>, i: nat)
    requires WellFormed(b) && b.emptyCells != [] && (row, col) == LastEmpty(b)
    requires forall i :: 0 <= i < |moves| ==> 1 <= moves[i] <= 9
    requires i < |moves| && Branch(b, row, col, moves[i]).Some?
    requires forall j :: 0 <= j < i ==> Branch(b, row, col, moves[j]).None?
    ensures TryMoves(b, row, col, moves) == Branch(b, row, col, moves[i])
  {
    TryMovesIsFindMap(b, row, col, moves);
    var outs := Outcomes(b, row, col, moves);
    forall j | 0 <= j <= i ensures outs[j] == Branch(b, row, col, moves[j]) {
      OutcomesAt(b, row, col, moves, j);
    }
    FindMapFirst(outs, i);
  }

  /** A valid board with an empty stack has no zero cell. */
  lemma NoEmptyCellsComplete(b: Board)
    requires Valid(b) && b.emptyCells == []
    ensures Complete(b.grid)
  {
  }

  /**
   * Soundness of the search on a valid board: a board it returns is valid (so it
   * has no zero cell), and when the input grid has no conflict neither has the result.
   */
  lemma {:induction false} SolveRecursiveSound(b: Board)
    requires Valid(b)
    ensures SolveRecursive(b).Some? ==> Valid(SolveRecursive(b).value) && Complete(SolveRecursive(b).value.grid)
    ensures SolveRecursive(b).Some? && ConflictFree(b.grid) ==> ConflictFree(SolveRecursive(b).value.grid)
    decreases |b.emptyCells|, 1, 0
  {
    if b.emptyCells == [] {
      NoEmptyCellsComplete(b);
    } else {
      var cell := LastEmpty(b);
      TryMovesSound(b, cell.0, cell.1, ValidMoves(b, cell.0, cell.1));
    }
  }

  /** Soundness of find_map over moves; conflict-freedom needs every move tried to be a valid move. */
  lemma {:induction false} TryMovesSound(b: Board, row: nat, col: nat, moves: seq<int>)
    requires Valid(b) && b.emptyCells != [] && (row, col) == LastEmpty(b)
    requires forall i :: 0 <= i < |moves| ==> 1 <= moves[i] <= 9
    ensures TryMoves(b, row, col, moves).Some? ==>
              Valid(TryMoves(b, row, col, moves).value) && Complete(TryMoves(b, row, col, moves).value.grid)
    ensures TryMoves(b, row, col, moves).Some? && ConflictFree(b.grid) &&
            (forall i :: 0 <= i < |moves| ==> moves[i] in ValidMoves(b, row, col)) ==>
              ConflictFree(TryMoves(b, row, col, moves).value.grid)
    decreases |b.emptyCells|, 0, |moves|
  {
    if moves != [] {
      var b' := MakeMove(b, row, col, moves[0]);
      MakeMoveValid(b, moves[0]);
      SolveRecursiveSound(b');
      if ConflictFree(b.grid) && moves[0] in ValidMoves(b, row, col) {
        MakeMoveConflictFree(b, moves[0]);
      }
      var rest := moves[1..];
      TryMovesSound(b, row, col, rest);
      assert forall i :: 0 <= i < |rest| ==> rest[i] == moves[i + 1];
    }
  }

  /** A board the search returns from a valid board keeps the board's givens. */
  lemma FoundExtends(b: Board)
    requires Valid(b) && SolveRecursive(b).Some?
    ensures Extends(b.grid, SolveRecursive(b).value.grid)
  {
    var s := SolveRecursive(b).value;
    forall i, j | 0 <= i < 9 && 0 <= j < 9 && b.grid[i][j] != 0 ensures s.grid[i][j] == b.grid[i][j] {
      assert (i, j) !in b.emptyCells;
    }
  }

  /** The digit a solution extending the board puts at an empty cell is a valid move there. */
  lemma SolutionDigitValid(b: Board, h: Grid, row: nat, col: nat)
    requires Valid(b) && IsSolution(h) && Extends(b.grid, h)
    requires row < 9 && col < 9 && b.grid[row][col] == 0
    ensures h[row][col] in ValidMoves(b, row, col)
  {
    var w := h[row][col];
    ValidMovesExact(b, row, col, w);
    assert !GroupHas(b.grid, Row, GroupOf(Row, row, col), w);
    assert !GroupHas(b.grid, Column, GroupOf(Column, row, col), w);
    assert !GroupHas(b.grid, Box, GroupOf(Box, row, col), w);
  }

  /** A solution extending the board still extends it after committing the solution's own digit. */
  lemma SolutionExtendsMove(b: Board, h: Grid, row: nat, col: nat)
    requires WellFormed(b) && IsSolution(h) && Extends(b.grid, h)
    requires b.emptyCells != [] && (row, col) == LastEmpty(b) && 1 <= h[row][col] <= 9
    ensures Extends(MakeMove(b, row, col, h[row][col]).grid, h)
  {
    var g := MakeMove(b, row, col, h[row][col]).grid;
    forall r, c | 0 <= r < 9 && 0 <= c < 9 && g[r][c] != 0 ensures h[r][c] == g[r][c] {
      if (r, c) != (row, col) {
        assert g[r][c] == b.grid[r][c];
      }
    }
  }

  /** Completeness: on a valid board the search finds a board whenever some solution keeps the board's digits. */
  lemma {:induction false} SolveRecursiveComplete(b: Board, h: Grid)
    requires Valid(b) && IsSolution(h) && Extends(b.grid, h)
    ensures SolveRecursive(b).Some?
    decreases |b.emptyCells|, 1, 0
  {
    if b.emptyCells != [] {
      var cell := LastEmpty(b);
      SolutionDigitValid(b, h, cell.0, cell.1);
      TryMovesComplete(b, cell.0, cell.1, ValidMoves(b, cell.0, cell.1), h);
    }
  }

  /** A search that fails on a valid board means no solution keeps the board's digits. */
  lemma NoneMeansNoSolution(b: Board)
    requires Valid(b) && SolveRecursive(b).None?
    ensures forall h: Grid :: Extends(b.grid, h) ==> !IsSolution(h)
  {
    forall h: Grid | Extends(b.grid, h) ensures !IsSolution(h) {
      if IsSolution(h) {
        SolveRecursiveComplete(b, h);
      }
    }
  }

  /** find_map over moves that include the solution's digit at the cell finds a board. */
  lemma {:induction false} TryMovesComplete(b: Board, row: nat, col: nat, moves: seq<int>, h: Grid)
    requires Valid(b) && b.emptyCells != [] && (row, col) == LastEmpty(b)
    requires forall i :: 0 <= i < |moves| ==> 1 <= moves[i] <= 9
    requires IsSolution(h) && Extends(b.grid, h) && h[row][col] in moves
    ensures TryMoves(b, row, col, moves).Some?
    decreases |b.emptyCells|, 0, |moves|
  {
    if moves[0] == h[row][col] {
      MakeMoveValid(b, moves[0]);
      SolutionExtendsMove(b, h, row, col);
      SolveRecursiveComplete(MakeMove(b, row, col, moves[0]), h);
    } else {
      var rest := moves[1..];
      assert h[row][col] in rest;
      TryMovesComplete(b, row, col, rest, h);
    }
  }

  /** What a board found from a valid board is: a complete grid keeping the givens, solved when they have no conflict. */
  lemma FoundSolution(b: Board)
    requires Valid(b) && SolveRecursive(b).Some?
    ensures IsGrid(SolveRecursive(b).value.grid) && Complete(SolveRecursive(b).value.grid)
    ensures Extends(b.grid, SolveRecursive(b).value.grid)
    ensures ConflictFree(b.grid) ==>
              IsSolution(SolveRecursive(b).value.grid) &&
              forall group: Group, k: nat, v :: k < 9 && 1 <= v <= 9 ==> GroupHas(SolveRecursive(b).value.grid, group, k, v)
  {
    SolveRecursiveSound(b);
    FoundExtends(b);
    var s := SolveRecursive(b).value;
    if ConflictFree(b.grid) {
      SolutionHasEveryDigit(s.grid);
    }
  }

  /** The `.map(|board| board.grid)` of solve: the grid of the board the search found. */
  function GridOf(found: Option<Board>): (r: Option<Grid>)
    ensures r.Some? <==> found.Some?
    ensures r.Some? ==> r.value == found.value.grid
  {
    match found
    case None => None
    case Some(b) => Some(b.grid)
  }

  /** `r` is what solve returns for `grid`: the grid the search finds from the board Board::new builds. */
  ghost predicate SolveResult(grid: Grid, r: Option<Grid>)
    requires IsGrid(grid)
  {
    exists b :: InitialBoard(grid, b) && r == GridOf(SolveRecursive(b))
  }

  /** The grid the search finds from the initial board is what solve returns. */
  lemma SearchIsSolveResult(grid: Grid, b: Board)
    requires IsGrid(grid) && InitialBoard(grid, b)
    ensures SolveResult(grid, GridOf(SolveRecursive(b)))
  {
  }

  /** solve is deterministic: the initial board is unique, and so is the search from it. */
  lemma SolveDeterministic(grid: Grid, r: Option<Grid>, r': Option<Grid>)
    requires IsGrid(grid) && SolveResult(grid, r) && SolveResult(grid, r')
    ensures r == r'
  {
    var b :| InitialBoard(grid, b) && r == GridOf(SolveRecursive(b));
    var b' :| InitialBoard(grid, b') && r' == GridOf(SolveRecursive(b'));
    InitialBoardUnique(grid, b, b');
  }

  /**
   * solve: build the board from the grid and return the grid of the board the
   * search finds. The result keeps every given, has no empty cell and, when the
   * givens have no conflict, is a solved Sudoku; None means no solution keeps
   * the givens; a grid with no empty cell comes back as it is.
   */
  method Solve(grid: Grid) returns (r: Option<Grid>)
    requires IsGrid(grid)
    ensures r.Some? ==> IsGrid(r.value) && Complete(r.value) && Extends(grid, r.value)
    ensures r.Some? && ConflictFree(grid) ==>
              IsSolution(r.value) &&
              forall group: Group, k: nat, v :: k < 9 && 1 <= v <= 9 ==> GroupHas(r.value, group, k, v)
    ensures r.None? ==> forall h: Grid :: Extends(grid, h) ==> !IsSolution(h)
    ensures Complete(grid) ==> r == Some(grid)
    ensures SolveResult(grid, r)
  {
    var b := NewBoard(grid);
    var found := SolveRecursive(b);
    r := GridOf(found);
    if found.Some? {
      FoundSolution(b);
    } else {
      NoneMeansNoSolution(b);
    }
    if Complete(grid) {
      ZeroCellsOfComplete(grid, 9, 0);
    }
    SearchIsSolveResult(grid, b);
  }
}
