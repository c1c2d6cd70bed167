/**
 * The backtracking search as a function of the grid: the reference the
 * solver method is proved against, with its soundness and completeness.
 */
module SudokuSearch {
  import opened Wrappers
  import opened SudokuRules

  /**
   * The search from (row, col) onwards. A filled cell is skipped; an empty
   * cell tries the candidates 1..9. The first grid found is the result; None
   * means every candidate of the cell failed.
   */
  function Search(g: Grid, row: int, col: int): (r: Option<Grid>)
    requires IsGrid(g) && InRange(row) && InRange(col)
    ensures r.Some? ==> IsGrid(r.value)
    decreases 81 - Pos(row, col), 1, 0
  {
    if g[row][col] != 0 then
      if row == 8 && col == 8 then Some(g)
      else
        var (nr, nc) := Next(row, col);
        Search(g, nr, nc)
    else
      TryFrom(g, row, col, 1)
  }

  /**
   * One pass of the candidate loop: the candidate is placed and checked; if
   * it is legal the search continues with the next cell, or succeeds at once
   * on the last cell. None means the candidate was rejected or led nowhere.
   */
  function Attempt(g: Grid, row: int, col: int, candidate: int): (r: Option<Grid>)
    requires IsGrid(g) && InRange(row) && InRange(col) && g[row][col] == 0
    requires 1 <= candidate <= 9
    ensures r.Some? ==> IsGrid(r.value)
    decreases 81 - Pos(row, col), 0, 0
  {
    var trial := Place(g, row, col, candidate);
    if Legal(trial, candidate, row, col) then
      if row == 8 && col == 8 then Some(trial)
      else
        var (nr, nc) := Next(row, col);
        Search(trial, nr, nc)
    else
      None
  }

  /**
   * The candidate loop of an empty cell, from candidate onwards: the first
   * candidate whose attempt succeeds gives the result. A failed candidate
   * leaves the cell empty again before the next one is tried.
   */
  function TryFrom(g: Grid, row: int, col: int, candidate: int): (r: Option<Grid>)
    requires IsGrid(g) && InRange(row) && InRange(col) && g[row][col] == 0
    requires 1 <= candidate <= 10
    ensures r.Some? ==> IsGrid(r.value)
    decreases 81 - Pos(row, col), 0, 10 - candidate
  {
    if candidate == 10 then None
    else
      match Attempt(g, row, col, candidate)
      case Some(s) => Some(s)
      case None => TryFrom(g, row, col, candidate + 1)
  }

  /**
   * s completes g from (row, col): s agrees with g on every cell before
   * (row, col) and on every filled cell, and every cell from (row, col) on
   * that g leaves empty holds a digit 1..9 that is legal in s.
   */
  predicate IsCompletion(g: Grid, s: Grid, row: int, col: int)
    requires IsGrid(g) && InRange(row) && InRange(col)
  {
    IsGrid(s) &&
    (forall i, j :: 0 <= i < 9 && 0 <= j < 9 && (Before(i, j, row, col) || g[i][j] != 0) ==>
       s[i][j] == g[i][j]) &&
    (forall i, j :: 0 <= i < 9 && 0 <= j < 9 && !Before(i, j, row, col) && g[i][j] == 0 ==>
       1 <= s[i][j] <= 9 && Legal(s, s[i][j], i, j))
  }

  /** Some cell from (row, col) on is empty. */
  predicate HasEmptyFrom(g: Grid, row: int, col: int)
    requires IsGrid(g)
  {
    exists i, j :: 0 <= i < 9 && 0 <= j < 9 && !Before(i, j, row, col) && g[i][j] == 0
  }

  /** Past a filled cell, an empty cell remains from it on exactly when one remains from the next cell on. */
  lemma HasEmptyFromNext(g: Grid, row: int, col: int)
    requires IsGrid(g) && InRange(row) && InRange(col) && (row != 8 || col != 8)
    requires g[row][col] != 0
    ensures HasEmptyFrom(g, row, col) <==> HasEmptyFrom(g, Next(row, col).0, Next(row, col).1)
  {
    var (nr, nc) := Next(row, col);
    if HasEmptyFrom(g, row, col) {
      var i, j :| 0 <= i < 9 && 0 <= j < 9 && !Before(i, j, row, col) && g[i][j] == 0;
      assert !Before(i, j, nr, nc);
    }
    if HasEmptyFrom(g, nr, nc) {
      var i, j :| 0 <= i < 9 && 0 <= j < 9 && !Before(i, j, nr, nc) && g[i][j] == 0;
      assert !Before(i, j, row, col);
    }
  }

  /**
   * A legal number placed at (row, col) stays legal when the cells after it
   * are completed: a clash with a later cell would make that cell illegal.
   */
  lemma PlacedStaysLegal(t: Grid, s: Grid, row: int, col: int, nr: int, nc: int)
    requires IsGrid(t) && InRange(row) && InRange(col) && InRange(nr) && InRange(nc)
    requires Pos(nr, nc) == Pos(row, col) + 1
    requires Legal(t, t[row][col], row, col)
    requires IsCompletion(t, s, nr, nc)
    ensures Legal(s, t[row][col], row, col)
  {
    var v := t[row][col];
    assert s[row][col] == v;
    forall i, j | 0 <= i < 9 && 0 <= j < 9 && Peer(row, col, i, j)
      ensures s[i][j] != v
    {
      if !Before(i, j, nr, nc) && t[i][j] == 0 {
        assert Legal(s, s[i][j], i, j);
        assert Peer(i, j, row, col);
      }
    }
  }

  /** Soundness: a grid the search returns completes the grid it started from. */
  lemma {:induction false} SearchSound(g: Grid, row: int, col: int)
    requires IsGrid(g) && InRange(row) && InRange(col)
    ensures Search(g, row, col).Some? ==> IsCompletion(g, Search(g, row, col).value, row, col)
    decreases 81 - Pos(row, col), 1, 0
  {
    if g[row][col] != 0 {
      if row != 8 || col != 8 {
        var (nr, nc) := Next(row, col);
        SearchSound(g, nr, nc);
      }
    } else {
      TryFromSound(g, row, col, 1);
    }
  }

  lemma {:induction false} TryFromSound(g: Grid, row: int, col: int, candidate: int)
    requires IsGrid(g) && InRange(row) && InRange(col) && g[row][col] == 0
    requires 1 <= candidate <= 10
    ensures TryFrom(g, row, col, candidate).Some? ==>
              IsCompletion(g, TryFrom(g, row, col, candidate).value, row, col)
    decreases 81 - Pos(row, col), 0, 10 - candidate
  {
    if candidate < 10 {
      var trial := Place(g, row, col, candidate);
      if Legal(trial, candidate, row, col) && (row != 8 || col != 8) {
        var (nr, nc) := Next(row, col);
        SearchSound(trial, nr, nc);
        match Search(trial, nr, nc)
        case Some(s) =>
          PlacedStaysLegal(trial, s, row, col, nr, nc);
        case None =>
          TryFromSound(g, row, col, candidate + 1);
      } else if !Legal(trial, candidate, row, col) {
        TryFromSound(g, row, col, candidate + 1);
      }
    }
  }

  /** Completeness: if any completion exists, the search finds one. */
  lemma {:induction false} SearchComplete(g: Grid, row: int, col: int, s: Grid)
    requires IsGrid(g) && InRange(row) && InRange(col)
    requires IsCompletion(g, s, row, col)
    ensures Search(g, row, col).Some?
    decreases 81 - Pos(row, col), 1, 0
  {
    if g[row][col] != 0 {
      if row != 8 || col != 8 {
        var (nr, nc) := Next(row, col);
        SearchComplete(g, nr, nc, s);
      }
    } else {
      TryFromComplete(g, row, col, 1, s);
    }
  }

  lemma {:induction false} TryFromComplete(g: Grid, row: int, col: int, candidate: int, s: Grid)
    requires IsGrid(g) && InRange(row) && InRange(col) && g[row][col] == 0
    requires IsCompletion(g, s, row, col)
    requires 1 <= candidate <= s[row][col]
    ensures TryFrom(g, row, col, candidate).Some?
    decreases 81 - Pos(row, col), 0, 10 - candidate
  {
    var trial := Place(g, row, col, candidate);
    if candidate == s[row][col] {
      forall i, j | 0 <= i < 9 && 0 <= j < 9 && Peer(row, col, i, j)
        ensures trial[i][j] != candidate
      {
        if g[i][j] != 0 {
          assert Legal(s, s[row][col], row, col);
        }
      }
      if row != 8 || col != 8 {
        var (nr, nc) := Next(row, col);
        SearchComplete(trial, nr, nc, s);
      }
    } else if Attempt(g, row, col, candidate).None? {
      TryFromComplete(g, row, col, candidate + 1, s);
    }
  }

  /** The search succeeds exactly when a completion exists. */
  lemma SearchSucceedsIff(g: Grid, row: int, col: int)
    requires IsGrid(g) && InRange(row) && InRange(col)
    ensures Search(g, row, col).Some? <==> exists s :: IsCompletion(g, s, row, col)
  {
    SearchSound(g, row, col);
    if exists s :: IsCompletion(g, s, row, col) {
      var s :| IsCompletion(g, s, row, col);
      SearchComplete(g, row, col, s);
    }
  }

  /** With no empty cell left from (row, col) on, the search succeeds and changes nothing. */
  lemma {:induction false} SearchOfFullGrid(g: Grid, row: int, col: int)
    requires IsGrid(g) && InRange(row) && InRange(col)
    requires !HasEmptyFrom(g, row, col)
    ensures Search(g, row, col) == Some(g)
    decreases 81 - Pos(row, col)
  {
    assert g[row][col] != 0;
    if row != 8 || col != 8 {
      var (nr, nc) := Next(row, col);
      SearchOfFullGrid(g, nr, nc);
    }
  }

  /**
   * A completion from the first cell of a grid whose givens are digits that
   * are legal where they stand is a solved grid.
   */
  lemma CompletionIsSolved(g: Grid, s: Grid)
    requires IsGrid(g) && IsCompletion(g, s, 0, 0)
    requires forall i, j :: 0 <= i < 9 && 0 <= j < 9 && g[i][j] != 0 ==> 1 <= g[i][j] <= 9 && Legal(g, g[i][j], i, j)
    ensures Solved(s)
  {
    forall i, j | 0 <= i < 9 && 0 <= j < 9 && g[i][j] != 0
      ensures Legal(s, s[i][j], i, j)
    {
      var v := g[i][j];
      forall i', j' | 0 <= i' < 9 && 0 <= j' < 9 && Peer(i, j, i', j')
        ensures s[i'][j'] != v
      {
        if g[i'][j'] == 0 {
          assert Legal(s, s[i'][j'], i', j');
          assert Peer(i', j', i, j);
        } else {
          assert Legal(g, v, i, j);
        }
      }
    }
  }
}
