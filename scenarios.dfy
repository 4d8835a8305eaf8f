/**
 * The empty-grid scenario: a grid with no givens is solved. The search is
 * complete, so one solved grid is enough to know it succeeds; `Witness` is
 * the shifted-rows Sudoku W(r, c) = (3 * (r % 3) + r / 3 + c) % 9 + 1.
 */
module Scenarios {
  import opened Wrappers
  import opened Grids
  import opened Boards
  import opened Solver

  /** The grid with no givens. */
  function Zeros(): (g: Grid)
    ensures IsGrid(g) && forall r, c :: 0 <= r < 9 && 0 <= c < 9 ==> g[r][c] == 0
  {
    seq(9, r => seq(9, c => 0))
  }

  /** The offset of row r in the witness: rows 0..8 start at 0, 3, 6, 1, 4, 7, 2, 5, 8. */
  function Shift(r: nat): nat {
    3 * (r % 3) + r / 3
  }

  /** The digit of the witness at (r, c). */
  function W(r: nat, c: nat): int {
    (Shift(r) + c) % 9 + 1
  }

  /** A solved grid. */
  function Witness(): (g: Grid)
    ensures IsGrid(g) && forall r, c :: 0 <= r < 9 && 0 <= c < 9 ==> g[r][c] == W(r, c)
  {
    seq(9, r requires 0 <= r < 9 => seq(9, c requires 0 <= c < 9 => W(r, c)))
  }

  /** Different numbers less than 9 apart have different remainders modulo 9. */
  lemma ModDiff(x: int, y: int)
    requires 0 <= x && 0 <= y && x != y && -9 < x - y < 9
    ensures x % 9 != y % 9
  {
    assert x == 9 * (x / 9) + x % 9;
    assert y == 9 * (y / 9) + y % 9;
  }

  /** The nine rows start at nine different offsets. */
  lemma ShiftInjective(r1: nat, r2: nat)
    requires r1 < 9 && r2 < 9 && r1 != r2
    ensures Shift(r1) != Shift(r2)
  {
    assert r1 == 3 * (r1 / 3) + r1 % 3 && r2 == 3 * (r2 / 3) + r2 % 3;
  }

  /** A row of the witness repeats no digit. */
  lemma RowDistinct(r: nat, c1: nat, c2: nat)
    requires r < 9 && c1 < 9 && c2 < 9 && c1 != c2
    ensures W(r, c1) != W(r, c2)
  {
    ModDiff(Shift(r) + c1, Shift(r) + c2);
  }

  /** A column of the witness repeats no digit. */
  lemma ColumnDistinct(c: nat, r1: nat, r2: nat)
    requires c < 9 && r1 < 9 && r2 < 9 && r1 != r2
    ensures W(r1, c) != W(r2, c)
  {
    ShiftInjective(r1, r2);
    ModDiff(Shift(r1) + c, Shift(r2) + c);
  }

  /** A box of the witness repeats no digit. */
  lemma BoxDistinct(r1: nat, c1: nat, r2: nat, c2: nat)
    requires r1 < 9 && c1 < 9 && r2 < 9 && c2 < 9 && (r1, c1) != (r2, c2)
    requires BoxIndex(r1, c1) == BoxIndex(r2, c2)
    ensures W(r1, c1) != W(r2, c2)
  {
    SameBox(r1, c1, r2, c2);
    assert r1 == 3 * (r1 / 3) + r1 % 3 && r2 == 3 * (r2 / 3) + r2 % 3;
    assert c1 == 3 * (c1 / 3) + c1 % 3 && c2 == 3 * (c2 / 3) + c2 % 3;
    ModDiff(Shift(r1) + c1, Shift(r2) + c2);
  }

  /** The witness is a solved Sudoku. */
  lemma WitnessSolved()
    ensures IsSolution(Witness())
  {
    var g := Witness();
    forall group: Group, r1: nat, c1: nat, r2: nat, c2: nat |
      r1 < 9 && c1 < 9 && r2 < 9 && c2 < 9 && (r1, c1) != (r2, c2) &&
      GroupOf(group, r1, c1) == GroupOf(group, r2, c2) && g[r1][c1] != 0
      ensures g[r1][c1] != g[r2][c2]
    {
      match group
      case Row => RowDistinct(r1, c1, c2);
      case Column => ColumnDistinct(c1, r1, r2);
      case Box => BoxDistinct(r1, c1, r2, c2);
    }
  }

  /** solve on the grid with no givens returns a solved Sudoku. */
  lemma EmptyGridSolved(r: Option<Grid>)
    requires SolveResult(Zeros(), r)
    ensures r.Some? && IsSolution(r.value)
  {
    var b :| InitialBoard(Zeros(), b) && r == GridOf(SolveRecursive(b));
    WitnessSolved();
    assert Extends(b.grid, Witness());
    SolveRecursiveComplete(b, Witness());
    FoundSolution(b);
  }
}
