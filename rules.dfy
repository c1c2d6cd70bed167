/**
 * The rules of 9x9 Sudoku over a grid of numbers, 0 meaning an empty cell.
 * Rows and columns are numbered 0..8; cells are visited in row-major order.
 */
module SudokuRules {

  /** The numbers of a board, one inner sequence per row. */
  type Grid = seq<seq<int>>

  predicate InRange(k: int) { 0 <= k < 9 }

  predicate IsGrid(g: Grid)
  {
    |g| == 9 && forall i :: 0 <= i < 9 ==> |g[i]| == 9
  }

  /** Row-major position of a cell: (0, 0) is 0, (8, 8) is 80. */
  function Pos(row: int, col: int): (p: int)
  {
    9 * row + col
  }

  /** Cell (i, j) comes strictly before cell (row, col) in row-major order. */
  predicate Before(i: int, j: int, row: int, col: int) { Pos(i, j) < Pos(row, col) }

  /** The cell after (row, col) in row-major order. */
  function Next(row: int, col: int): (n: (int, int))
    requires InRange(row) && InRange(col) && (row, col) != (8, 8)
    ensures InRange(n.0) && InRange(n.1) && Pos(n.0, n.1) == Pos(row, col) + 1
  {
    if col == 8 then (row + 1, 0) else (row, col + 1)
  }

  /** First row (or column) of the 3x3 box holding row (or column) k. */
  function BoxOrigin(k: int): (o: int)
  {
    k / 3 * 3
  }

  /**
   * (i, j) is another cell that shares the row, the column or the 3x3 box of
   * (row, col). A cell is never its own peer.
   */
  predicate Peer(row: int, col: int, i: int, j: int)
  {
    (i != row || j != col) &&
    (i == row || j == col || (BoxOrigin(i) == BoxOrigin(row) && BoxOrigin(j) == BoxOrigin(col)))
  }

  /** The grid with the number at (row, col) replaced by v. */
  function Place(g: Grid, row: int, col: int, v: int): (h: Grid)
    requires IsGrid(g) && InRange(row) && InRange(col)
    ensures IsGrid(h) && h[row][col] == v
    ensures forall i, j :: 0 <= i < 9 && 0 <= j < 9 && (i != row || j != col) ==> h[i][j] == g[i][j]
  {
    g[row := g[row][col := v]]
  }

  /** Number n may stand at (row, col): no peer of that cell holds n. */
  predicate Legal(g: Grid, n: int, row: int, col: int)
    requires IsGrid(g) && InRange(row) && InRange(col)
  {
    forall i, j :: 0 <= i < 9 && 0 <= j < 9 && Peer(row, col, i, j) ==> g[i][j] != n
  }

  /** The flag the board shows for a cell: empty cells are always valid. */
  predicate ValidFlag(g: Grid, i: int, j: int)
    requires IsGrid(g) && InRange(i) && InRange(j)
  {
    g[i][j] == 0 || Legal(g, g[i][j], i, j)
  }

  /** No non-zero number occurs twice in a row, a column or a box. */
  predicate Consistent(g: Grid)
    requires IsGrid(g)
  {
    (forall r, j1, j2 :: 0 <= r < 9 && 0 <= j1 < 9 && 0 <= j2 < 9 && j1 != j2 && g[r][j1] != 0 ==>
       g[r][j1] != g[r][j2]) &&
    (forall c, i1, i2 :: 0 <= c < 9 && 0 <= i1 < 9 && 0 <= i2 < 9 && i1 != i2 && g[i1][c] != 0 ==>
       g[i1][c] != g[i2][c]) &&
    (forall i1, j1, i2, j2 ::
       0 <= i1 < 9 && 0 <= j1 < 9 && 0 <= i2 < 9 && 0 <= j2 < 9 && (i1 != i2 || j1 != j2) &&
       BoxOrigin(i1) == BoxOrigin(i2) && BoxOrigin(j1) == BoxOrigin(j2) && g[i1][j1] != 0 ==>
       g[i1][j1] != g[i2][j2])
  }

  /** Every cell holds a digit 1..9 that is legal where it stands. */
  predicate Solved(g: Grid)
    requires IsGrid(g)
  {
    forall i, j :: 0 <= i < 9 && 0 <= j < 9 ==> 1 <= g[i][j] <= 9 && Legal(g, g[i][j], i, j)
  }

  /** (i, j) shares the box of (row, col) exactly when it lies in the 3x3 block at that box's origin. */
  lemma BoxMembership(row: int, col: int, i: int, j: int)
    requires InRange(row) && InRange(col) && InRange(i) && InRange(j)
    ensures (BoxOrigin(i) == BoxOrigin(row) && BoxOrigin(j) == BoxOrigin(col)) <==>
            (BoxOrigin(row) <= i < BoxOrigin(row) + 3 && BoxOrigin(col) <= j < BoxOrigin(col) + 3)
  {
  }

  /**
   * n is illegal at (row, col) exactly when it occurs elsewhere in column col,
   * elsewhere in row row, or in another cell of the box whose origin is
   * (row / 3 * 3, col / 3 * 3).
   */
  lemma LegalCharacterisation(g: Grid, n: int, row: int, col: int)
    requires IsGrid(g) && InRange(row) && InRange(col)
    ensures !Legal(g, n, row, col) <==>
      (exists i :: 0 <= i < 9 && i != row && g[i][col] == n) ||
      (exists j :: 0 <= j < 9 && j != col && g[row][j] == n) ||
      (exists i, j :: BoxOrigin(row) <= i < BoxOrigin(row) + 3 && BoxOrigin(col) <= j < BoxOrigin(col) + 3 &&
                      (i != row || j != col) && g[i][j] == n)
  {
    if !Legal(g, n, row, col) {
      var i, j :| 0 <= i < 9 && 0 <= j < 9 && Peer(row, col, i, j) && g[i][j] == n;
      BoxMembership(row, col, i, j);
    }
    forall i, j | BoxOrigin(row) <= i < BoxOrigin(row) + 3 && BoxOrigin(col) <= j < BoxOrigin(col) + 3
      ensures InRange(i) && InRange(j) && BoxOrigin(i) == BoxOrigin(row) && BoxOrigin(j) == BoxOrigin(col)
    {
      BoxMembership(row, col, i, j);
    }
  }

  /** Whatever (row, col) itself holds never makes a number illegal there. */
  lemma LegalIgnoresOwnCell(g: Grid, n: int, row: int, col: int, v: int)
    requires IsGrid(g) && InRange(row) && InRange(col)
    ensures Legal(Place(g, row, col, v), n, row, col) == Legal(g, n, row, col)
  {
  }

  /** A grid is consistent exactly when every cell's flag is valid. */
  lemma ConsistentIffAllValid(g: Grid)
    requires IsGrid(g)
    ensures Consistent(g) <==> forall i, j :: InRange(i) && InRange(j) ==> ValidFlag(g, i, j)
  {
    if Consistent(g) {
      forall i, j | InRange(i) && InRange(j) ensures ValidFlag(g, i, j) {
        if g[i][j] != 0 {
          forall i', j' | 0 <= i' < 9 && 0 <= j' < 9 && Peer(i, j, i', j') ensures g[i'][j'] != g[i][j] {
            if i' == i {
              assert g[i][j] != g[i][j'];
            } else if j' == j {
              assert g[i][j] != g[i'][j];
            } else {
              assert g[i][j] != g[i'][j'];
            }
          }
        }
      }
    }
    if forall i, j :: InRange(i) && InRange(j) ==> ValidFlag(g, i, j) {
      forall r, j1, j2 | 0 <= r < 9 && 0 <= j1 < 9 && 0 <= j2 < 9 && j1 != j2 && g[r][j1] != 0
        ensures g[r][j1] != g[r][j2]
      {
        assert ValidFlag(g, r, j1) && Peer(r, j1, r, j2);
      }
      forall c, i1, i2 | 0 <= c < 9 && 0 <= i1 < 9 && 0 <= i2 < 9 && i1 != i2 && g[i1][c] != 0
        ensures g[i1][c] != g[i2][c]
      {
        assert ValidFlag(g, i1, c) && Peer(i1, c, i2, c);
      }
      forall i1, j1, i2, j2 |
        0 <= i1 < 9 && 0 <= j1 < 9 && 0 <= i2 < 9 && 0 <= j2 < 9 && (i1 != i2 || j1 != j2) &&
        BoxOrigin(i1) == BoxOrigin(i2) && BoxOrigin(j1) == BoxOrigin(j2) && g[i1][j1] != 0
        ensures g[i1][j1] != g[i2][j2]
      {
        assert ValidFlag(g, i1, j1) && Peer(i1, j1, i2, j2);
      }
    }
  }

  /** Nine pairwise different values, all drawn from s, need at least nine values in s. */
  lemma {:induction false} DistinctWithin(xs: seq<int>, s: set<int>)
    requires forall k :: 0 <= k < |xs| ==> xs[k] in s
    requires forall k1, k2 :: 0 <= k1 < k2 < |xs| ==> xs[k1] != xs[k2]
    ensures |xs| <= |s|
  {
    if xs != [] {
      DistinctWithin(xs[1..], s - {xs[0]});
    }
  }

  /** Nine pairwise different digits 1..9 include every digit. */
  lemma Pigeonhole(xs: seq<int>)
    requires |xs| == 9
    requires forall k :: 0 <= k < 9 ==> 1 <= xs[k] <= 9
    requires forall k1, k2 :: 0 <= k1 < k2 < 9 ==> xs[k1] != xs[k2]
    ensures forall d :: 1 <= d <= 9 ==> d in xs
  {
    forall d | 1 <= d <= 9
      ensures d in xs
    {
      if d !in xs {
        var others := {1, 2, 3, 4, 5, 6, 7, 8, 9} - {d};
        assert |{1, 2, 3, 4, 5, 6, 7, 8, 9}| == 9;
        assert |others| == 8;
        DistinctWithin(xs, others);
      }
    }
  }

  predicate RowHas(g: Grid, r: int, d: int)
    requires IsGrid(g) && InRange(r)
  {
    exists j :: 0 <= j < 9 && g[r][j] == d
  }

  predicate ColumnHas(g: Grid, c: int, d: int)
    requires IsGrid(g) && InRange(c)
  {
    exists i :: 0 <= i < 9 && g[i][c] == d
  }

  /** Cell k (0..8, row-major) of box b (0..8, row-major). */
  function BoxCell(b: int, k: int): (cell: (int, int))
    requires InRange(b) && InRange(k)
    ensures InRange(cell.0) && InRange(cell.1)
    ensures BoxOrigin(cell.0) == b / 3 * 3 && BoxOrigin(cell.1) == b % 3 * 3
  {
    (b / 3 * 3 + k / 3, b % 3 * 3 + k % 3)
  }

  /** Box b holds d somewhere. */
  predicate BoxHas(g: Grid, b: int, d: int)
    requires IsGrid(g) && InRange(b)
  {
    exists k :: 0 <= k < 9 && g[BoxCell(b, k).0][BoxCell(b, k).1] == d
  }

  lemma BoxCellsDiffer(b: int, k1: int, k2: int)
    requires InRange(b) && InRange(k1) && InRange(k2) && k1 != k2
    ensures BoxCell(b, k1) != BoxCell(b, k2)
  {
    assert k1 == k1 / 3 * 3 + k1 % 3 && k2 == k2 / 3 * 3 + k2 % 3;
  }

  lemma SolvedRowHas(g: Grid, r: int, d: int)
    requires IsGrid(g) && Solved(g) && InRange(r) && 1 <= d <= 9
    ensures RowHas(g, r, d)
  {
    forall k1, k2 | 0 <= k1 < k2 < 9 ensures g[r][k1] != g[r][k2] {
      assert Peer(r, k1, r, k2) && Legal(g, g[r][k1], r, k1);
    }
    Pigeonhole(g[r]);
    assert d in g[r];
    var j :| 0 <= j < |g[r]| && g[r][j] == d;
  }

  lemma SolvedColumnHas(g: Grid, c: int, d: int)
    requires IsGrid(g) && Solved(g) && InRange(c) && 1 <= d <= 9
    ensures ColumnHas(g, c, d)
  {
    var column := seq(9, i requires 0 <= i < 9 => g[i][c]);
    forall k1, k2 | 0 <= k1 < k2 < 9 ensures column[k1] != column[k2] {
      assert Peer(k1, c, k2, c) && Legal(g, g[k1][c], k1, c);
    }
    Pigeonhole(column);
    assert d in column;
    var i :| 0 <= i < |column| && column[i] == d;
  }

  lemma SolvedBoxHas(g: Grid, b: int, d: int)
    requires IsGrid(g) && Solved(g) && InRange(b) && 1 <= d <= 9
    ensures BoxHas(g, b, d)
  {
    var box := seq(9, k requires 0 <= k < 9 => g[BoxCell(b, k).0][BoxCell(b, k).1]);
    forall k1, k2 | 0 <= k1 < k2 < 9 ensures box[k1] != box[k2] {
      var (i1, j1) := BoxCell(b, k1);
      var (i2, j2) := BoxCell(b, k2);
      BoxCellsDiffer(b, k1, k2);
      assert Peer(i1, j1, i2, j2) && Legal(g, g[i1][j1], i1, j1);
    }
    Pigeonhole(box);
    assert d in box;
    var k :| 0 <= k < |box| && box[k] == d;
  }

  /**
   * In a solved grid every row, every column and every box holds each of the
   * digits 1..9.
   */
  lemma SolvedHasEveryDigit(g: Grid)
    requires IsGrid(g) && Solved(g)
    ensures forall r, d :: InRange(r) && 1 <= d <= 9 ==> RowHas(g, r, d)
    ensures forall c, d :: InRange(c) && 1 <= d <= 9 ==> ColumnHas(g, c, d)
    ensures forall b, d :: InRange(b) && 1 <= d <= 9 ==> BoxHas(g, b, d)
  {
    forall r, d | InRange(r) && 1 <= d <= 9 ensures RowHas(g, r, d) {
      SolvedRowHas(g, r, d);
    }
    forall c, d | InRange(c) && 1 <= d <= 9 ensures ColumnHas(g, c, d) {
      SolvedColumnHas(g, c, d);
    }
    forall b, d | InRange(b) && 1 <= d <= 9 ensures BoxHas(g, b, d) {
      SolvedBoxHas(g, b, d);
    }
  }

  /**
   * Legality of a non-zero number carries over to a grid that agrees with the
   * first one on all its own non-zero cells.
   */
  lemma LegalInAgreeingGrid(s: Grid, g: Grid, n: int, row: int, col: int)
    requires IsGrid(s) && IsGrid(g) && InRange(row) && InRange(col) && n != 0
    requires forall i, j :: 0 <= i < 9 && 0 <= j < 9 && g[i][j] != 0 ==> g[i][j] == s[i][j]
    requires Legal(s, n, row, col)
    ensures Legal(g, n, row, col)
  {
  }
}
