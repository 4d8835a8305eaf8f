/**
 * The 9x9 grid, its rows, columns and 3x3 boxes, and what it means for a grid
 * to be a solved Sudoku.
 */
module Grids {

  /** A grid of digits, row by row; 0 is an empty cell. */
  type Grid = seq<seq<int>>

  /** Nine rows of nine cells, each cell holding 0..9. */
  predicate IsGrid(g: Grid) {
    |g| == 9 && forall r :: 0 <= r < 9 ==> |g[r]| == 9 && forall c :: 0 <= c < 9 ==> 0 <= g[r][c] <= 9
  }

  /** The number of the 3x3 box holding cell (row, col), counted row-major from 0. */
  function BoxIndex(row: nat, col: nat): (k: nat)
    ensures row < 9 && col < 9 ==> k < 9
  {
    (row / 3) * 3 + col / 3
  }

  /** Two cells share a box exactly when their box rows and box columns agree. */
  lemma SameBox(r1: nat, c1: nat, r2: nat, c2: nat)
    requires c1 < 9 && c2 < 9
    ensures BoxIndex(r1, c1) == BoxIndex(r2, c2) <==> r1 / 3 == r2 / 3 && c1 / 3 == c2 / 3
  {
    var k1, k2 := BoxIndex(r1, c1), BoxIndex(r2, c2);
    assert k1 / 3 == r1 / 3 && k1 % 3 == c1 / 3;
    assert k2 / 3 == r2 / 3 && k2 % 3 == c2 / 3;
  }

  /** The three kinds of group in which a digit may appear only once. */
  datatype Group = Row | Column | Box

  /** The number of the group of the given kind that holds cell (r, c). */
  function GroupOf(group: Group, r: nat, c: nat): nat {
    match group
    case Row => r
    case Column => c
    case Box => BoxIndex(r, c)
  }

  /** The t-th cell of group k, in row-major order within the group. */
  function Cell(group: Group, k: nat, t: nat): (cell: (nat, nat))
    requires k < 9 && t < 9
    ensures cell.0 < 9 && cell.1 < 9 && GroupOf(group, cell.0, cell.1) == k
  {
    match group
    case Row => (k, t)
    case Column => (t, k)
    case Box =>
      var r, c := 3 * (k / 3) + t / 3, 3 * (k % 3) + t % 3;
      assert r / 3 == k / 3 && c / 3 == k % 3;
      assert BoxIndex(r, c) == (k / 3) * 3 + k % 3 == k;
      (r, c)
  }

  /** Different positions of one group are different cells. */
  lemma CellInjective(group: Group, k: nat, t1: nat, t2: nat)
    requires k < 9 && t1 < 9 && t2 < 9 && t1 != t2
    ensures Cell(group, k, t1) != Cell(group, k, t2)
  {
    if group == Box {
      assert t1 == 3 * (t1 / 3) + t1 % 3 && t2 == 3 * (t2 / 3) + t2 % 3;
    }
  }

  /** Some cell of group k holds v. */
  predicate GroupHas(g: Grid, group: Group, k: nat, v: int)
    requires IsGrid(g)
  {
    exists r: nat, c: nat :: r < 9 && c < 9 && GroupOf(group, r, c) == k && g[r][c] == v
  }

  /**
   * Writing v into the empty cell (row, col) adds v to the groups of that cell
   * and changes nothing else about which nonzero digits a group holds.
   */
  lemma GroupHasPlace(g: Grid, h: Grid, row: nat, col: nat, v: int, group: Group, k: nat, w: int)
    requires IsGrid(g) && IsGrid(h) && row < 9 && col < 9 && g[row][col] == 0 && h[row][col] == v && w != 0
    requires forall r, c :: 0 <= r < 9 && 0 <= c < 9 && (r, c) != (row, col) ==> h[r][c] == g[r][c]
    ensures GroupHas(h, group, k, w) <==> GroupHas(g, group, k, w) || (GroupOf(group, row, col) == k && w == v)
  {
    if GroupHas(h, group, k, w) {
      GroupHasAfterPlace(g, h, row, col, v, group, k, w);
    }
    if GroupHas(g, group, k, w) {
      GroupHasKept(g, h, row, col, group, k, w);
    }
    if GroupOf(group, row, col) == k && w == v {
      assert h[row][col] == w;
    }
  }

  /** A digit a group holds after the write was held before or is the digit written. */
  lemma GroupHasAfterPlace(g: Grid, h: Grid, row: nat, col: nat, v: int, group: Group, k: nat, w: int)
    requires IsGrid(g) && IsGrid(h) && row < 9 && col < 9 && h[row][col] == v
    requires forall r, c :: 0 <= r < 9 && 0 <= c < 9 && (r, c) != (row, col) ==> h[r][c] == g[r][c]
    requires GroupHas(h, group, k, w)
    ensures GroupHas(g, group, k, w) || (GroupOf(group, row, col) == k && w == v)
  {
    var r: nat, c: nat :| r < 9 && c < 9 && GroupOf(group, r, c) == k && h[r][c] == w;
    if (r, c) != (row, col) {
      assert g[r][c] == w;
    }
  }

  /** Writing into an empty cell keeps every nonzero digit a group held. */
  lemma GroupHasKept(g: Grid, h: Grid, row: nat, col: nat, group: Group, k: nat, w: int)
    requires IsGrid(g) && IsGrid(h) && row < 9 && col < 9 && g[row][col] == 0 && w != 0
    requires forall r, c :: 0 <= r < 9 && 0 <= c < 9 && (r, c) != (row, col) ==> h[r][c] == g[r][c]
    requires GroupHas(g, group, k, w)
    ensures GroupHas(h, group, k, w)
  {
    var r: nat, c: nat :| r < 9 && c < 9 && GroupOf(group, r, c) == k && g[r][c] == w;
    assert h[r][c] == w;
  }

  /** No two different cells of one row, column or box hold the same nonzero digit. */
  predicate ConflictFree(g: Grid)
    requires IsGrid(g)
  {
    forall group: Group, r1: nat, c1: nat, r2: nat, c2: nat ::
      r1 < 9 && c1 < 9 && r2 < 9 && c2 < 9 && (r1, c1) != (r2, c2) &&
      GroupOf(group, r1, c1) == GroupOf(group, r2, c2) && g[r1][c1] != 0
      ==> g[r1][c1] != g[r2][c2]
  }

  /** No cell is empty. */
  predicate Complete(g: Grid)
    requires IsGrid(g)
  {
    forall r, c :: 0 <= r < 9 && 0 <= c < 9 ==> g[r][c] != 0
  }

  /** `h` keeps every given (nonzero cell) of `g`. */
  predicate Extends(g: Grid, h: Grid) {
    IsGrid(g) && IsGrid(h) &&
    forall r, c :: 0 <= r < 9 && 0 <= c < 9 && g[r][c] != 0 ==> h[r][c] == g[r][c]
  }

  /** A solved Sudoku: full, and no digit repeated in any row, column or box. */
  predicate IsSolution(g: Grid) {
    IsGrid(g) && Complete(g) && ConflictFree(g)
  }

  /** A sequence of distinct values drawn from `a` is no longer than `a` is large. */
  lemma {:induction false} DistinctWithin(s: seq<int>, a: set<int>)
    requires forall i, j :: 0 <= i < j < |s| ==> s[i] != s[j]
    requires forall i :: 0 <= i < |s| ==> s[i] in a
    ensures |s| <= |a|
  {
    if s != [] {
      var x := s[|s| - 1];
      var rest := s[..|s| - 1];
      forall i | 0 <= i < |rest| ensures rest[i] in a - {x} {
        assert rest[i] == s[i];
      }
      DistinctWithin(rest, a - {x});
    }
  }

  /** Distinct digits that avoid v are at most eight. */
  lemma AvoidingDigits(s: seq<int>, v: int)
    requires 1 <= v <= 9 && v !in s
    requires forall i :: 0 <= i < |s| ==> 1 <= s[i] <= 9
    requires forall i, j :: 0 <= i < j < |s| ==> s[i] != s[j]
    ensures |s| <= 8
  {
    var others := {1, 2, 3, 4, 5, 6, 7, 8, 9} - {v};
    assert |others| == 8;
    DistinctWithin(s, others);
  }

  /** Nine distinct digits are all nine digits. */
  lemma Pigeonhole(s: seq<int>)
    requires |s| == 9
    requires forall i :: 0 <= i < 9 ==> 1 <= s[i] <= 9
    requires forall i, j :: 0 <= i < j < 9 ==> s[i] != s[j]
    ensures forall v :: 1 <= v <= 9 ==> v in s
  {
    forall v | 1 <= v <= 9 ensures v in s {
      if v !in s {
        AvoidingDigits(s, v);
      }
    }
  }

  /** The digits of group k, in the order of its cells. */
  function GroupDigits(g: Grid, group: Group, k: nat): (s: seq<int>)
    requires IsGrid(g) && k < 9
    ensures |s| == 9
    ensures forall t :: 0 <= t < 9 ==> s[t] == g[Cell(group, k, t).0][Cell(group, k, t).1]
  {
    seq(9, t requires 0 <= t < 9 => g[Cell(group, k, t).0][Cell(group, k, t).1])
  }

  /** In a solved Sudoku one group holds every digit. */
  lemma GroupHasEveryDigit(g: Grid, group: Group, k: nat, v: int)
    requires IsSolution(g) && k < 9 && 1 <= v <= 9
    ensures GroupHas(g, group, k, v)
  {
    var s := GroupDigits(g, group, k);
    forall t1, t2 | 0 <= t1 < t2 < 9 ensures s[t1] != s[t2] {
      CellInjective(group, k, t1, t2);
      var p, q := Cell(group, k, t1), Cell(group, k, t2);
      assert g[p.0][p.1] != 0;
    }
    forall t | 0 <= t < 9 ensures 1 <= s[t] <= 9 {
      var p := Cell(group, k, t);
      assert g[p.0][p.1] != 0;
    }
    Pigeonhole(s);
    assert v in s;
    var t :| 0 <= t < |s| && s[t] == v;
    var cell := Cell(group, k, t);
    assert g[cell.0][cell.1] == v;
  }

  /** In a solved Sudoku every row, column and box holds every digit 1..9 (exactly once, by ConflictFree). */
  lemma SolutionHasEveryDigit(g: Grid)
    requires IsSolution(g)
    ensures forall group: Group, k: nat, v :: k < 9 && 1 <= v <= 9 ==> GroupHas(g, group, k, v)
  {
    forall group: Group, k: nat, v | k < 9 && 1 <= v <= 9 ensures GroupHas(g, group, k, v) {
      GroupHasEveryDigit(g, group, k, v);
    }
  }
}
