/**
 * The solver's board: the grid, one occupancy mask per row, column and box,
 * and the stack of empty cells still to fill. A board is a value; a move
 * produces a new board and leaves the old one as it was.
 */
module Boards {
  import opened Masks
  import opened Grids

  datatype Board = Board(
    grid: Grid,
    rowContains: seq<bv16>,
    colContains: seq<bv16>,
    boxContains: seq<bv16>,
    emptyCells: seq<(nat, nat)>)

  /** The nine masks of one kind of group. */
  function MasksOf(b: Board, group: Group): seq<bv16> {
    match group
    case Row => b.rowContains
    case Column => b.colContains
    case Box => b.boxContains
  }

  /** The shape the source's fixed-size arrays guarantee: 9x9 cells and nine masks of each kind. */
  predicate Shaped(b: Board) {
    |b.grid| == 9 && (forall r :: 0 <= r < 9 ==> |b.grid[r]| == 9) &&
    |b.rowContains| == 9 && |b.colContains| == 9 && |b.boxContains| == 9
  }

  /** Shaped, digits in 0..9, and every listed empty cell on the board. */
  predicate WellFormed(b: Board) {
    Shaped(b) && IsGrid(b.grid) &&
    forall i :: 0 <= i < |b.emptyCells| ==> b.emptyCells[i].0 < 9 && b.emptyCells[i].1 < 9
  }

  /**
   * A scan point of Board::new: every cell before (row, col) in row-major order
   * has been visited. (9, 0) is the end of the scan.
   */
  predicate ScanPoint(row: nat, col: nat) {
    row <= 9 && col <= 9 && (row == 9 ==> col == 0)
  }

  /** Some cell of group k before scan point (row, col) holds v. */
  predicate GroupHasBefore(g: Grid, group: Group, k: nat, v: int, row: nat, col: nat)
    requires IsGrid(g) && ScanPoint(row, col)
    decreases row, col
  {
    if col == 0 then row > 0 && GroupHasBefore(g, group, k, v, row - 1, 9)
    else GroupHasBefore(g, group, k, v, row, col - 1) || (GroupOf(group, row, col - 1) == k && g[row][col - 1] == v)
  }

  /**
   * `masks` agrees with the cells of `g` before scan point (row, col): bit v-1 of
   * mask k is set exactly when one of those cells in group k holds v, and no other bit is set.
   */
  predicate Tracks(g: Grid, group: Group, masks: seq<bv16>, row: nat, col: nat)
    requires IsGrid(g) && ScanPoint(row, col)
  {
    |masks| == 9 &&
    (forall k: nat, v :: k < 9 && 1 <= v <= 9 ==> (Has(masks[k], v) <==> GroupHasBefore(g, group, k, v, row, col))) &&
    (forall k :: 0 <= k < 9 ==> OnlyDigitBits(masks[k]))
  }

  /** The nine masks of `group` mark exactly the digits each row, column or box holds, and only digit bits. */
  predicate Agrees(g: Grid, group: Group, masks: seq<bv16>)
    requires IsGrid(g)
  {
    |masks| == 9 &&
    (forall k: nat, v :: k < 9 && 1 <= v <= 9 ==> (Has(masks[k], v) <==> GroupHas(g, group, k, v))) &&
    (forall k :: 0 <= k < 9 ==> OnlyDigitBits(masks[k]))
  }

  /** Every group's masks agree with the grid. */
  predicate MasksAgree(b: Board)
    requires WellFormed(b)
  {
    forall group: Group :: Agrees(b.grid, group, MasksOf(b, group))
  }

  /** `emptyCells` lists each cell holding 0, once, and nothing else. */
  predicate EmptyCellsExact(b: Board)
    requires WellFormed(b)
  {
    (forall r: nat, c: nat :: r < 9 && c < 9 ==> (b.grid[r][c] == 0 <==> (r, c) in b.emptyCells)) &&
    (forall i, j :: 0 <= i < j < |b.emptyCells| ==> b.emptyCells[i] != b.emptyCells[j])
  }

  /** The board invariant the constructor establishes and every search step keeps. */
  predicate Valid(b: Board) {
    WellFormed(b) && MasksAgree(b) && EmptyCellsExact(b)
  }

  /** The row-major position of a cell. */
  function Position(cell: (nat, nat)): nat {
    9 * cell.0 + cell.1
  }

  /** The empty cells before scan point (row, col), in the row-major order Board::new visits them. */
  function ZeroCells(g: Grid, row: nat, col: nat): seq<(nat, nat)>
    requires IsGrid(g) && ScanPoint(row, col)
    decreases row, col
  {
    if col == 0 then (if row == 0 then [] else ZeroCells(g, row - 1, 9))
    else ZeroCells(g, row, col - 1) + (if g[row][col - 1] == 0 then [(row, col - 1)] else [])
  }

  /** Every listed cell is a zero cell before the scan point. */
  lemma {:induction false} ZeroCellsSound(g: Grid, row: nat, col: nat)
    requires IsGrid(g) && ScanPoint(row, col)
    ensures forall i :: 0 <= i < |ZeroCells(g, row, col)| ==>
              ZeroCells(g, row, col)[i].0 < 9 && ZeroCells(g, row, col)[i].1 < 9 &&
              Position(ZeroCells(g, row, col)[i]) < 9 * row + col &&
              g[ZeroCells(g, row, col)[i].0][ZeroCells(g, row, col)[i].1] == 0
    decreases row, col
  {
    if col == 0 {
      if row > 0 {
        ZeroCellsSound(g, row - 1, 9);
        assert 9 * (row - 1) + 9 == 9 * row + col;
      }
    } else {
      ZeroCellsSound(g, row, col - 1);
    }
  }

  /** Every zero cell before the scan point is listed. */
  lemma {:induction false} ZeroCellsComplete(g: Grid, row: nat, col: nat)
    requires IsGrid(g) && ScanPoint(row, col)
    ensures forall r: nat, c: nat :: r < 9 && c < 9 && 9 * r + c < 9 * row + col && g[r][c] == 0 ==> (r, c) in ZeroCells(g, row, col)
    decreases row, col
  {
    if col == 0 {
      if row > 0 {
        ZeroCellsComplete(g, row - 1, 9);
        assert 9 * (row - 1) + 9 == 9 * row + col;
      }
    } else {
      ZeroCellsComplete(g, row, col - 1);
      var z, z0 := ZeroCells(g, row, col), ZeroCells(g, row, col - 1);
      forall r: nat, c: nat | r < 9 && c < 9 && 9 * r + c < 9 * row + col && g[r][c] == 0 ensures (r, c) in z {
        if r == row && c == col - 1 {
          assert z[|z| - 1] == (r, c);
        } else {
          PositionInjective(r, c, row, col - 1);
          assert (r, c) in z0;
        }
      }
    }
  }

  /** The listed cells are in strictly increasing scan position. */
  lemma {:induction false} ZeroCellsOrdered(g: Grid, row: nat, col: nat)
    requires IsGrid(g) && ScanPoint(row, col)
    ensures forall i, j :: 0 <= i < j < |ZeroCells(g, row, col)| ==> Position(ZeroCells(g, row, col)[i]) < Position(ZeroCells(g, row, col)[j])
    decreases row, col
  {
    if col == 0 {
      if row > 0 {
        ZeroCellsOrdered(g, row - 1, 9);
      }
    } else {
      ZeroCellsOrdered(g, row, col - 1);
      ZeroCellsSound(g, row, col - 1);
    }
  }

  /** A grid with no zero cell has no empty cell before any scan point. */
  lemma {:induction false} ZeroCellsOfComplete(g: Grid, row: nat, col: nat)
    requires IsGrid(g) && Complete(g) && ScanPoint(row, col)
    ensures ZeroCells(g, row, col) == []
    decreases row, col
  {
    if col == 0 {
      if row > 0 {
        ZeroCellsOfComplete(g, row - 1, 9);
      }
    } else {
      ZeroCellsOfComplete(g, row, col - 1);
    }
  }

  /** Cell (r, c) is a cell of group k holding v. */
  predicate HoldsAt(g: Grid, group: Group, k: nat, v: int, r: nat, c: nat)
    requires IsGrid(g)
  {
    r < 9 && c < 9 && GroupOf(group, r, c) == k && g[r][c] == v
  }

  /** Different cells have different positions in the row-major scan. */
  lemma PositionInjective(r: nat, c: nat, r': nat, c': nat)
    requires c < 9 && c' < 9 && (r != r' || c != c')
    ensures 9 * r + c != 9 * r' + c'
  {
    if r < r' {
      assert 9 * r + c < 9 * r + 9 <= 9 * r';
    } else if r' < r {
      assert 9 * r' + c' < 9 * r' + 9 <= 9 * r;
    }
  }

  /** GroupHasBefore is the search for a cell before the scan point. */
  lemma {:induction false} GroupHasBeforeExists(g: Grid, group: Group, k: nat, v: int, row: nat, col: nat)
    requires IsGrid(g) && ScanPoint(row, col)
    ensures GroupHasBefore(g, group, k, v, row, col) <==>
            exists r: nat, c: nat :: 9 * r + c < 9 * row + col && HoldsAt(g, group, k, v, r, c)
    decreases row, col
  {
    if col == 0 {
      if row > 0 {
        GroupHasBeforeExists(g, group, k, v, row - 1, 9);
        assert 9 * (row - 1) + 9 == 9 * row + col;
      }
    } else {
      GroupHasBeforeExists(g, group, k, v, row, col - 1);
      if HoldsAt(g, group, k, v, row, col - 1) {
        assert 9 * row + (col - 1) < 9 * row + col;
      } else if exists r: nat, c: nat :: 9 * r + c < 9 * row + col && HoldsAt(g, group, k, v, r, c) {
        var r: nat, c: nat :| 9 * r + c < 9 * row + col && HoldsAt(g, group, k, v, r, c);
        PositionInjective(r, c, row, col - 1);
      }
    }
  }

  /** Scanning a given cell keeps digit v of group k's mask in step with the scan. */
  lemma TracksAddAt(g: Grid, group: Group, masks: seq<bv16>, masks': seq<bv16>, r: nat, c: nat, k0: nat, k: nat, v: int)
    requires IsGrid(g) && r < 9 && c < 9 && g[r][c] != 0 && k < 9 && 1 <= v <= 9
    requires Tracks(g, group, masks, r, c)
    requires k0 == GroupOf(group, r, c) && BitSet(masks, masks', k0, g[r][c])
    ensures Has(masks'[k], v) <==> GroupHasBefore(g, group, k, v, r, c + 1)
  {
    if k == k0 {
      HasSet(masks[k], g[r][c], v);
    } else {
      assert masks'[k] == masks[k];
    }
  }

  /** Scanning a given cell: setting its bit in mask k0, the mask of its group, keeps the masks in step with the scan. */
  lemma TracksAdd(g: Grid, group: Group, masks: seq<bv16>, masks': seq<bv16>, r: nat, c: nat, k0: nat)
    requires IsGrid(g) && r < 9 && c < 9 && g[r][c] != 0
    requires Tracks(g, group, masks, r, c)
    requires k0 == GroupOf(group, r, c) && BitSet(masks, masks', k0, g[r][c])
    ensures Tracks(g, group, masks', r, c + 1)
  {
    forall k: nat, v | k < 9 && 1 <= v <= 9
      ensures Has(masks'[k], v) <==> GroupHasBefore(g, group, k, v, r, c + 1)
    {
      TracksAddAt(g, group, masks, masks', r, c, k0, k, v);
    }
    OnlyDigitBitsSet(masks[k0], g[r][c]);
  }

  /** Nine zero masks agree with an empty scan. */
  lemma TracksStart(g: Grid, group: Group, masks: seq<bv16>)
    requires IsGrid(g) && |masks| == 9 && forall k :: 0 <= k < 9 ==> masks[k] == 0
    ensures Tracks(g, group, masks, 0, 0)
  {
    forall k: nat, v | k < 9 && 1 <= v <= 9 ensures !Has(masks[k], v) {
      HasNone(v);
    }
  }

  /** The state of Board::new at scan point (row, col). */
  predicate Scanned(grid: Grid, rows: seq<bv16>, cols: seq<bv16>, boxes: seq<bv16>, empties: seq<(nat, nat)>, row: nat, col: nat)
    requires IsGrid(grid) && ScanPoint(row, col)
  {
    Tracks(grid, Row, rows, row, col) && Tracks(grid, Column, cols, row, col) && Tracks(grid, Box, boxes, row, col) &&
    empties == ZeroCells(grid, row, col)
  }

  /** Before the scan: zero masks and no empty cells. */
  lemma ScanStart(grid: Grid, zeros: seq<bv16>)
    requires IsGrid(grid) && zeros == [0, 0, 0, 0, 0, 0, 0, 0, 0]
    ensures Scanned(grid, zeros, zeros, zeros, [], 0, 0)
  {
    TracksStart(grid, Row, zeros);
    TracksStart(grid, Column, zeros);
    TracksStart(grid, Box, zeros);
  }

  /** Scanning an empty cell pushes it onto the empty list and leaves the masks as they are. */
  lemma ScanEmpty(grid: Grid, row: nat, col: nat, rows: seq<bv16>, cols: seq<bv16>, boxes: seq<bv16>, empties: seq<(nat, nat)>)
    requires IsGrid(grid) && row < 9 && col < 9 && grid[row][col] == 0
    requires Scanned(grid, rows, cols, boxes, empties, row, col)
    ensures Scanned(grid, rows, cols, boxes, empties + [(row, col)], row, col + 1)
  {
  }

  /** Scanning a given sets its bit in its row, column and box mask and leaves the empty list as it is. */
  lemma ScanGiven(grid: Grid, row: nat, col: nat, rows: seq<bv16>, cols: seq<bv16>, boxes: seq<bv16>,
                  rows': seq<bv16>, cols': seq<bv16>, boxes': seq<bv16>, empties: seq<(nat, nat)>)
    requires IsGrid(grid) && row < 9 && col < 9 && grid[row][col] != 0
    requires Scanned(grid, rows, cols, boxes, empties, row, col)
    requires BitSet(rows, rows', row, grid[row][col]) && BitSet(cols, cols', col, grid[row][col])
    requires BitSet(boxes, boxes', BoxIndex(row, col), grid[row][col])
    ensures Scanned(grid, rows', cols', boxes', empties, row, col + 1)
  {
    TracksAdd(grid, Row, rows, rows', row, col, row);
    TracksAdd(grid, Column, cols, cols', row, col, col);
    TracksAdd(grid, Box, boxes, boxes', row, col, BoxIndex(row, col));
  }

  /** The end of one row is the start of the next. */
  lemma ScanNextRow(grid: Grid, rows: seq<bv16>, cols: seq<bv16>, boxes: seq<bv16>, empties: seq<(nat, nat)>, row: nat)
    requires IsGrid(grid) && row < 9
    requires Scanned(grid, rows, cols, boxes, empties, row, 9)
    ensures Scanned(grid, rows, cols, boxes, empties, row + 1, 0)
  {
  }

  /** At the end of the scan the empty list holds each zero cell once and nothing else. */
  lemma ZeroCellsExact(grid: Grid, end: nat)
    requires IsGrid(grid) && end == 9
    ensures forall i :: 0 <= i < |ZeroCells(grid, end, 0)| ==> ZeroCells(grid, end, 0)[i].0 < 9 && ZeroCells(grid, end, 0)[i].1 < 9
    ensures forall r: nat, c: nat :: r < 9 && c < 9 ==> (grid[r][c] == 0 <==> (r, c) in ZeroCells(grid, end, 0))
    ensures forall i, j :: 0 <= i < j < |ZeroCells(grid, end, 0)| ==> ZeroCells(grid, end, 0)[i] != ZeroCells(grid, end, 0)[j]
  {
    var z := ZeroCells(grid, end, 0);
    ZeroCellsSound(grid, end, 0);
    ZeroCellsComplete(grid, end, 0);
    ZeroCellsOrdered(grid, end, 0);
    forall i, j | 0 <= i < j < |z| ensures z[i] != z[j] {
      assert Position(z[i]) < Position(z[j]);
    }
    forall r: nat, c: nat | r < 9 && c < 9 ensures grid[r][c] == 0 <==> (r, c) in z {
      if (r, c) in z {
        var i :| 0 <= i < |z| && z[i] == (r, c);
      }
    }
  }

  /** At the end of the scan a mask that tracks the scan agrees with the whole grid. */
  lemma TracksComplete(grid: Grid, group: Group, masks: seq<bv16>, end: nat)
    requires IsGrid(grid) && end == 9 && Tracks(grid, group, masks, end, 0)
    ensures Agrees(grid, group, masks)
  {
    forall k: nat, v | k < 9 && 1 <= v <= 9
      ensures GroupHasBefore(grid, group, k, v, end, 0) <==> GroupHas(grid, group, k, v)
    {
      GroupHasBeforeExists(grid, group, k, v, end, 0);
      if GroupHas(grid, group, k, v) {
        var r: nat, c: nat :| r < 9 && c < 9 && GroupOf(group, r, c) == k && grid[r][c] == v;
        assert 9 * r + c < 9 * end + 0 && HoldsAt(grid, group, k, v, r, c);
      }
    }
  }

  /** At the end of the scan (row `end` = 9, column 0) the board built satisfies the invariant. */
  lemma ScannedBoardValid(grid: Grid, rows: seq<bv16>, cols: seq<bv16>, boxes: seq<bv16>, empties: seq<(nat, nat)>, end: nat)
    requires IsGrid(grid) && end == 9 && Scanned(grid, rows, cols, boxes, empties, end, 0)
    ensures Valid(Board(grid, rows, cols, boxes, empties))
  {
    var b := Board(grid, rows, cols, boxes, empties);
    ZeroCellsExact(grid, end);
    assert WellFormed(b) && EmptyCellsExact(b);
    forall group: Group ensures Agrees(grid, group, MasksOf(b, group)) {
      match group
      case Row => TracksComplete(grid, Row, rows, end);
      case Column => TracksComplete(grid, Column, cols, end);
      case Box => TracksComplete(grid, Box, boxes, end);
    }
  }

  /**
   * The body of the loops of Board::new for cell (row, col): an empty cell is
   * pushed onto the empty list, a given sets its bit in its row, column and box mask.
   */
  method ScanCell(grid: Grid, row: nat, col: nat, rows: seq<bv16>, cols: seq<bv16>, boxes: seq<bv16>, empties: seq<(nat, nat)>)
    returns (rowContains: seq<bv16>, colContains: seq<bv16>, boxContains: seq<bv16>, emptyCells: seq<(nat, nat)>)
    requires IsGrid(grid) && row < 9 && col < 9 && Scanned(grid, rows, cols, boxes, empties, row, col)
    ensures Scanned(grid, rowContains, colContains, boxContains, emptyCells, row, col + 1)
  {
    var value := grid[row][col];
    if value == 0 {
      ScanEmpty(grid, row, col, rows, cols, boxes, empties);
      rowContains, colContains, boxContains, emptyCells := rows, cols, boxes, empties + [(row, col)];
    } else {
      var box := BoxIndex(row, col);
      rowContains := SetBit(rows, row, value);
      colContains := SetBit(cols, col, value);
      boxContains := SetBit(boxes, box, value);
      emptyCells := empties;
      ScanGiven(grid, row, col, rows, cols, boxes, rowContains, colContains, boxContains, emptyCells);
    }
  }

  /** The inner loop of Board::new: scan the nine cells of row `row` from left to right. */
  method ScanRow(grid: Grid, row: nat, rows: seq<bv16>, cols: seq<bv16>, boxes: seq<bv16>, empties: seq<(nat, nat)>)
    returns (rowContains: seq<bv16>, colContains: seq<bv16>, boxContains: seq<bv16>, emptyCells: seq<(nat, nat)>)
    requires IsGrid(grid) && row < 9 && Scanned(grid, rows, cols, boxes, empties, row, 0)
    ensures Scanned(grid, rowContains, colContains, boxContains, emptyCells, row + 1, 0)
  {
    rowContains, colContains, boxContains, emptyCells := rows, cols, boxes, empties;
    for col := 0 to 9
      invariant Scanned(grid, rowContains, colContains, boxContains, emptyCells, row, col)
    {
      rowContains, colContains, boxContains, emptyCells :=
        ScanCell(grid, row, col, rowContains, colContains, boxContains, emptyCells);
    }
    ScanNextRow(grid, rowContains, colContains, boxContains, emptyCells, row);
  }

  /** The loop of Board::new: scan the nine rows in order, starting from zero masks and no empty cells. */
  method Scan(grid: Grid) returns (rowContains: seq<bv16>, colContains: seq<bv16>, boxContains: seq<bv16>, emptyCells: seq<(nat, nat)>)
    requires IsGrid(grid)
    ensures Scanned(grid, rowContains, colContains, boxContains, emptyCells, 9, 0)
  {
    rowContains := [0, 0, 0, 0, 0, 0, 0, 0, 0];
    colContains, boxContains := rowContains, rowContains;
    emptyCells := [];
    ScanStart(grid, rowContains);
    for row := 0 to 9
      invariant Scanned(grid, rowContains, colContains, boxContains, emptyCells, row, 0)
    {
      rowContains, colContains, boxContains, emptyCells := ScanRow(grid, row, rowContains, colContains, boxContains, emptyCells);
    }
  }

  /** A board Board::new can return for `grid`: valid, over `grid`, with the zero cells stacked in scan order. */
  predicate InitialBoard(grid: Grid, b: Board)
    requires IsGrid(grid)
  {
    Valid(b) && b.grid == grid && b.emptyCells == ZeroCells(grid, 9, 0)
  }

  /** Masks that agree with the grid are the same masks. */
  lemma MasksUnique(g: Grid, group: Group, masks: seq<bv16>, masks': seq<bv16>)
    requires IsGrid(g) && Agrees(g, group, masks) && Agrees(g, group, masks')
    ensures masks == masks'
  {
    forall k | 0 <= k < 9 ensures masks[k] == masks'[k] {
      forall v | 1 <= v <= 9 ensures Has(masks[k], v) <==> Has(masks'[k], v) {
        assert Has(masks[k], v) <==> GroupHas(g, group, k, v);
      }
      MaskDetermined(masks[k], masks'[k]);
    }
  }

  /** There is only one initial board for a grid: the grid fixes every mask and the empty stack. */
  lemma InitialBoardUnique(grid: Grid, b: Board, b': Board)
    requires IsGrid(grid) && InitialBoard(grid, b) && InitialBoard(grid, b')
    ensures b == b'
  {
    assert Agrees(grid, Row, MasksOf(b, Row)) && Agrees(grid, Row, MasksOf(b', Row));
    assert Agrees(grid, Column, MasksOf(b, Column)) && Agrees(grid, Column, MasksOf(b', Column));
    assert Agrees(grid, Box, MasksOf(b, Box)) && Agrees(grid, Box, MasksOf(b', Box));
    MasksUnique(grid, Row, b.rowContains, b'.rowContains);
    MasksUnique(grid, Column, b.colContains, b'.colContains);
    MasksUnique(grid, Box, b.boxContains, b'.boxContains);
  }

  /** Board::new: a board over `grid` whose masks and empty list are the result of the scan. */
  method NewBoard(grid: Grid) returns (b: Board)
    requires IsGrid(grid)
    ensures InitialBoard(grid, b)
    ensures forall i, j :: 0 <= i < j < |b.emptyCells| ==> Position(b.emptyCells[i]) < Position(b.emptyCells[j])
  {
    var rowContains, colContains, boxContains, emptyCells := Scan(grid);
    ScannedBoardValid(grid, rowContains, colContains, boxContains, emptyCells, 9);
    ZeroCellsOrdered(grid, 9, 0);
    b := Board(grid, rowContains, colContains, boxContains, emptyCells);
  }

  /**
   * valid_moves: the digits 1..9, ascending, whose bit is clear in the union of
   * the row, column and box masks of (row, col).
   */
  function ValidMoves(b: Board, row: nat, col: nat): (moves: seq<int>)
    requires Shaped(b) && row < 9 && col < 9
    ensures forall v :: v in moves <==>
              1 <= v <= 9 && !Has(b.rowContains[row], v) && !Has(b.colContains[col], v) &&
              !Has(b.boxContains[BoxIndex(row, col)], v)
    ensures forall i, j :: 0 <= i < j < |moves| ==> moves[i] < moves[j]
    ensures |moves| <= 9
  {
    var rm, cm, xm := b.rowContains[row], b.colContains[col], b.boxContains[BoxIndex(row, col)];
    CandidatesOfUnion(rm, cm, xm);
    Candidates(rm | cm | xm, 1)
  }

  /** A digit is a candidate exactly when it is a digit whose bit is clear. */
  lemma CandidatesMember(invalid: bv16, v: int)
    ensures v in Candidates(invalid, 1) <==> 1 <= v <= 9 && !Has(invalid, v)
  {
    var moves := Candidates(invalid, 1);
    if v in moves {
      var i :| 0 <= i < |moves| && moves[i] == v;
    } else if 1 <= v <= 9 && !Has(invalid, v) {
      CandidatesComplete(invalid, 1, v);
    }
  }

  /** The candidates of a union of three masks are the digits clear in each of them. */
  lemma CandidatesOfUnion(a: bv16, b: bv16, c: bv16)
    ensures forall v :: v in Candidates(a | b | c, 1) <==> 1 <= v <= 9 && !Has(a, v) && !Has(b, v) && !Has(c, v)
  {
    forall v ensures v in Candidates(a | b | c, 1) <==> 1 <= v <= 9 && !Has(a, v) && !Has(b, v) && !Has(c, v) {
      CandidateOfUnion(a, b, c, v);
    }
  }

  /** One digit is a candidate of a union of three masks exactly when it is clear in each of them. */
  lemma CandidateOfUnion(a: bv16, b: bv16, c: bv16, v: int)
    ensures v in Candidates(a | b | c, 1) <==> 1 <= v <= 9 && !Has(a, v) && !Has(b, v) && !Has(c, v)
  {
    CandidatesMember(a | b | c, v);
    if 1 <= v <= 9 {
      HasUnion3(a, b, c, v);
    }
  }

  /** The digits from `from` to 9, ascending, whose bit is clear in `invalid`. */
  function Candidates(invalid: bv16, from: int): (moves: seq<int>)
    requires 1 <= from <= 10
    ensures forall i :: 0 <= i < |moves| ==> from <= moves[i] <= 9 && !Has(invalid, moves[i])
    ensures forall i, j :: 0 <= i < j < |moves| ==> moves[i] < moves[j]
    ensures |moves| <= 10 - from
    decreases 10 - from
  {
    if from == 10 then []
    else if Has(invalid, from) then Candidates(invalid, from + 1)
    else [from] + Candidates(invalid, from + 1)
  }

  /** Every digit from `from` to 9 whose bit is clear is a candidate. */
  lemma {:induction false} CandidatesComplete(invalid: bv16, from: int, v: int)
    requires 1 <= from <= v <= 9 && !Has(invalid, v)
    ensures v in Candidates(invalid, from)
    decreases 10 - from
  {
    if from < v {
      CandidatesComplete(invalid, from + 1, v);
    }
  }

  /** The grid with `value` written at (row, col) and every other cell as it was. */
  function Place(g: Grid, row: nat, col: nat, value: int): (g': Grid)
    requires |g| == 9 && (forall r :: 0 <= r < 9 ==> |g[r]| == 9) && row < 9 && col < 9
    ensures |g'| == 9 && forall r :: 0 <= r < 9 ==> |g'[r]| == 9
    ensures g'[row][col] == value
    ensures forall r, c :: 0 <= r < 9 && 0 <= c < 9 && (r, c) != (row, col) ==> g'[r][c] == g[r][c]
  {
    g[row := g[row][col := value]]
  }

  /**
   * make_move: a copy of the board with `value` written at (row, col), its bit set
   * in the row, column and box masks of that cell, and the last empty cell popped
   * (popping an empty stack leaves it empty).
   */
  function MakeMove(b: Board, row: nat, col: nat, value: int): (r: Board)
    requires Shaped(b) && row < 9 && col < 9 && 1 <= value <= 9
    ensures Shaped(r)
    ensures r.grid[row][col] == value
    ensures forall i, j :: 0 <= i < 9 && 0 <= j < 9 && (i, j) != (row, col) ==> r.grid[i][j] == b.grid[i][j]
    ensures BitSet(b.rowContains, r.rowContains, row, value)
    ensures BitSet(b.colContains, r.colContains, col, value)
    ensures BitSet(b.boxContains, r.boxContains, BoxIndex(row, col), value)
    ensures r.emptyCells == if b.emptyCells == [] then [] else b.emptyCells[..|b.emptyCells| - 1]
    ensures WellFormed(b) ==> WellFormed(r)
  {
    Board(Place(b.grid, row, col, value),
          SetBit(b.rowContains, row, value),
          SetBit(b.colContains, col, value),
          SetBit(b.boxContains, BoxIndex(row, col), value),
          if b.emptyCells == [] then [] else b.emptyCells[..|b.emptyCells| - 1])
  }

  /** The last cell of the empty-cell stack: the cell solve_recursive fills next. */
  function LastEmpty(b: Board): (cell: (nat, nat))
    requires WellFormed(b) && b.emptyCells != []
    ensures cell.0 < 9 && cell.1 < 9 && cell in b.emptyCells
  {
    b.emptyCells[|b.emptyCells| - 1]
  }

  /** Writing v at (row, col) and setting its bit in group k0's mask keeps that kind of group's masks in agreement, for one mask and digit. */
  lemma AgreesAfterMoveAt(g: Grid, h: Grid, group: Group, masks: seq<bv16>, masks': seq<bv16>, row: nat, col: nat, k0: nat, v: int, k: nat, w: int)
    requires IsGrid(g) && IsGrid(h) && row < 9 && col < 9 && g[row][col] == 0 && h[row][col] == v && 1 <= v <= 9
    requires forall r, c :: 0 <= r < 9 && 0 <= c < 9 && (r, c) != (row, col) ==> h[r][c] == g[r][c]
    requires Agrees(g, group, masks) && k0 == GroupOf(group, row, col) && k0 < 9 && BitSet(masks, masks', k0, v)
    requires k < 9 && 1 <= w <= 9
    ensures Has(masks'[k], w) <==> GroupHas(h, group, k, w)
  {
    GroupHasPlace(g, h, row, col, v, group, k, w);
    if k == k0 {
      HasSet(masks[k0], v, w);
    } else {
      assert masks'[k] == masks[k];
    }
  }

  /** Writing v into the empty cell (row, col) and setting its bit in group k0's mask keeps that kind of group's masks in agreement. */
  lemma AgreesAfterMove(g: Grid, h: Grid, group: Group, masks: seq<bv16>, masks': seq<bv16>, row: nat, col: nat, k0: nat, v: int)
    requires IsGrid(g) && IsGrid(h) && row < 9 && col < 9 && g[row][col] == 0 && h[row][col] == v && 1 <= v <= 9
    requires forall r, c :: 0 <= r < 9 && 0 <= c < 9 && (r, c) != (row, col) ==> h[r][c] == g[r][c]
    requires Agrees(g, group, masks) && k0 == GroupOf(group, row, col) && k0 < 9 && BitSet(masks, masks', k0, v)
    ensures Agrees(h, group, masks')
  {
    forall k: nat, w | k < 9 && 1 <= w <= 9 ensures Has(masks'[k], w) <==> GroupHas(h, group, k, w) {
      AgreesAfterMoveAt(g, h, group, masks, masks', row, col, k0, v, k, w);
    }
    OnlyDigitBitsSet(masks[k0], v);
  }

  /** After a move at the last empty cell, the popped stack lists exactly the zero cells, once each. */
  lemma MakeMoveEmptyCells(b: Board, v: int)
    requires Valid(b) && b.emptyCells != [] && 1 <= v <= 9
    ensures EmptyCellsExact(MakeMove(b, LastEmpty(b).0, LastEmpty(b).1, v))
  {
    var n := |b.emptyCells|;
    var row, col := LastEmpty(b).0, LastEmpty(b).1;
    var b' := MakeMove(b, row, col, v);
    var pre := b'.emptyCells;
    assert b.emptyCells == pre + [(row, col)];
    forall r: nat, c: nat | r < 9 && c < 9 ensures b'.grid[r][c] == 0 <==> (r, c) in pre {
      if (r, c) != (row, col) {
        assert b'.grid[r][c] == b.grid[r][c];
        assert (r, c) in b.emptyCells <==> (r, c) in pre;
      }
    }
    assert forall i :: 0 <= i < n - 1 ==> pre[i] == b.emptyCells[i];
  }

  /**
   * make_move at the last empty cell keeps the board invariant for any digit:
   * the masks still agree with the grid and the popped stack still lists the zero cells.
   */
  lemma MakeMoveValid(b: Board, v: int)
    requires Valid(b) && b.emptyCells != [] && 1 <= v <= 9
    ensures Valid(MakeMove(b, LastEmpty(b).0, LastEmpty(b).1, v))
  {
    var row, col := LastEmpty(b).0, LastEmpty(b).1;
    var b' := MakeMove(b, row, col, v);
    assert b.grid[row][col] == 0;
    forall group: Group ensures Agrees(b'.grid, group, MasksOf(b', group)) {
      assert Agrees(b.grid, group, MasksOf(b, group));
      match group
      case Row => AgreesAfterMove(b.grid, b'.grid, Row, b.rowContains, b'.rowContains, row, col, row, v);
      case Column => AgreesAfterMove(b.grid, b'.grid, Column, b.colContains, b'.colContains, row, col, col, v);
      case Box => AgreesAfterMove(b.grid, b'.grid, Box, b.boxContains, b'.boxContains, row, col, BoxIndex(row, col), v);
    }
    MakeMoveEmptyCells(b, v);
  }

  /** On a valid board, the valid moves at a cell are the digits its row, column and box do not hold yet. */
  lemma ValidMovesExact(b: Board, row: nat, col: nat, v: int)
    requires Valid(b) && row < 9 && col < 9
    ensures v in ValidMoves(b, row, col) <==>
            1 <= v <= 9 && !GroupHas(b.grid, Row, row, v) && !GroupHas(b.grid, Column, col, v) &&
            !GroupHas(b.grid, Box, BoxIndex(row, col), v)
  {
    assert Agrees(b.grid, Row, MasksOf(b, Row));
    assert Agrees(b.grid, Column, MasksOf(b, Column));
    assert Agrees(b.grid, Box, MasksOf(b, Box));
  }

  /** A valid move at (row, col) is held by none of the groups of that cell. */
  lemma ValidMoveNotInGroup(b: Board, row: nat, col: nat, v: int, group: Group)
    requires Valid(b) && row < 9 && col < 9 && v in ValidMoves(b, row, col)
    ensures !GroupHas(b.grid, group, GroupOf(group, row, col), v)
  {
    ValidMovesExact(b, row, col, v);
    match group
    case Row =>
    case Column =>
    case Box =>
  }

  /** Committing a valid move at the last empty cell of a conflict-free board leaves it conflict-free. */
  lemma MakeMoveConflictFree(b: Board, v: int)
    requires Valid(b) && ConflictFree(b.grid) && b.emptyCells != []
    requires v in ValidMoves(b, LastEmpty(b).0, LastEmpty(b).1)
    ensures IsGrid(MakeMove(b, LastEmpty(b).0, LastEmpty(b).1, v).grid)
    ensures ConflictFree(MakeMove(b, LastEmpty(b).0, LastEmpty(b).1, v).grid)
  {
    var row, col := LastEmpty(b).0, LastEmpty(b).1;
    var g, h := b.grid, MakeMove(b, row, col, v).grid;
    ValidMovesExact(b, row, col, v);
    forall group: Group, r1: nat, c1: nat, r2: nat, c2: nat |
      r1 < 9 && c1 < 9 && r2 < 9 && c2 < 9 && (r1, c1) != (r2, c2) &&
      GroupOf(group, r1, c1) == GroupOf(group, r2, c2) && h[r1][c1] != 0
      ensures h[r1][c1] != h[r2][c2]
    {
      if (r1, c1) == (row, col) {
        ValidMoveNotInGroup(b, row, col, v, group);
        assert h[r2][c2] == g[r2][c2];
      } else if (r2, c2) == (row, col) {
        ValidMoveNotInGroup(b, row, col, v, group);
        assert h[r1][c1] == g[r1][c1];
      } else {
        assert h[r1][c1] == g[r1][c1] && h[r2][c2] == g[r2][c2];
      }
    }
  }
}
