/**
 * The game state: a 9x9 board of cells, the selected cell, the rules check,
 * the full-board flagging, the user's edits and the backtracking solver.
 */
module SudokuGame {
  import opened Wrappers
  import opened SudokuRules
  import opened SudokuSearch
  import opened SudokuPuzzle
  import opened Geometry

  /** Two grids with the same numbers everywhere are equal. */
  lemma SameGrid(a: Grid, b: Grid)
    requires IsGrid(a) && IsGrid(b)
    requires forall i, j :: 0 <= i < 9 && 0 <= j < 9 ==> a[i][j] == b[i][j]
    ensures a == b
  {
    assert forall i :: 0 <= i < 9 ==> a[i] == b[i];
  }

  /**
   * The game. Cell (i, j) of the board is number[i, j] (0 for empty) with
   * its flags editable[i, j], valid[i, j], selected[i, j] and
   * underConsideration[i, j].
   */
  class Game {
    var number: array2<int>
    var editable: array2<bool>
    var valid: array2<bool>
    var selected: array2<bool>
    var underConsideration: array2<bool>
    var selectedCell: Option<(int, int)>

    ghost predicate Shape()
      reads this
    {
      number.Length0 == 9 && number.Length1 == 9 &&
      editable.Length0 == 9 && editable.Length1 == 9 &&
      valid.Length0 == 9 && valid.Length1 == 9 &&
      selected.Length0 == 9 && selected.Length1 == 9 &&
      underConsideration.Length0 == 9 && underConsideration.Length1 == 9 &&
      editable != valid && editable != selected && editable != underConsideration &&
      valid != selected && valid != underConsideration && selected != underConsideration
    }

    /** The numbers on the board, row by row. */
    ghost function Numbers(): (g: Grid)
      reads this, number
      requires Shape()
      ensures IsGrid(g)
      ensures forall i, j :: 0 <= i < 9 && 0 <= j < 9 ==> g[i][j] == number[i, j]
    {
      seq(9, i requires 0 <= i < 9 && Shape() reads this, number =>
        seq(9, j requires 0 <= j < 9 && Shape() reads this, number => number[i, j]))
    }

    /** Every cell's valid flag is the one the current numbers call for. */
    ghost predicate FlagsCurrent()
      reads this, number, valid
      requires Shape()
    {
      forall i, j :: 0 <= i < 9 && 0 <= j < 9 ==> valid[i, j] == ValidFlag(Numbers(), i, j)
    }

    /** No cell is under consideration. */
    ghost predicate Idle()
      reads this, underConsideration
      requires Shape()
    {
      forall i, j :: 0 <= i < 9 && 0 <= j < 9 ==> !underConsideration[i, j]
    }

    /**
     * The invariant kept between user actions: the selection is on the board,
     * exactly the puzzle's blanks are editable, every given still holds the
     * puzzle's number, at most the selected cell is flagged as selected, and
     * no cell is under consideration.
     */
    ghost predicate Valid()
      reads this, number, editable, selected, underConsideration
    {
      Shape() &&
      (selectedCell.Some? ==> InRange(selectedCell.value.0) && InRange(selectedCell.value.1)) &&
      (forall i, j :: 0 <= i < 9 && 0 <= j < 9 ==> editable[i, j] == (Puzzle[i][j] == 0)) &&
      (forall i, j :: 0 <= i < 9 && 0 <= j < 9 && !editable[i, j] ==> number[i, j] == Puzzle[i][j]) &&
      (forall i, j :: 0 <= i < 9 && 0 <= j < 9 && selected[i, j] ==> selectedCell == Some((i, j))) &&
      Idle()
    }

    /** A new game: nothing selected, the board loaded from the puzzle. */
    constructor ()
      ensures Valid() && selectedCell == None
      ensures fresh(number) && fresh(editable) && fresh(valid) && fresh(selected) && fresh(underConsideration)
      ensures Numbers() == Puzzle
      ensures forall i, j :: 0 <= i < 9 && 0 <= j < 9 ==> valid[i, j] && !selected[i, j]
    {
      number := new int[9, 9];
      editable := new bool[9, 9];
      valid := new bool[9, 9];
      selected := new bool[9, 9];
      underConsideration := new bool[9, 9];
      selectedCell := None;
      new;
      ResetBoard();
    }

    /**
     * Reloads every cell from the puzzle as a freshly built cell: the
     * puzzle's number, editable exactly when that number is 0, valid, not
     * selected and not under consideration.
     */
    method ResetBoard()
      requires Shape()
      modifies number, editable, valid, selected, underConsideration
      ensures Numbers() == Puzzle && Idle()
      ensures forall i, j :: 0 <= i < 9 && 0 <= j < 9 ==>
                editable[i, j] == (Puzzle[i][j] == 0) && valid[i, j] && !selected[i, j]
    {
      for row := 0 to 9
        invariant forall i, j :: 0 <= i < row && 0 <= j < 9 ==>
                    number[i, j] == Puzzle[i][j] && editable[i, j] == (Puzzle[i][j] == 0) &&
                    valid[i, j] && !selected[i, j] && !underConsideration[i, j]
      {
        for col := 0 to 9
          invariant forall i, j :: 0 <= i < row && 0 <= j < 9 ==>
                      number[i, j] == Puzzle[i][j] && editable[i, j] == (Puzzle[i][j] == 0) &&
                      valid[i, j] && !selected[i, j] && !underConsideration[i, j]
          invariant forall j :: 0 <= j < col ==>
                      number[row, j] == Puzzle[row][j] && editable[row, j] == (Puzzle[row][j] == 0) &&
                      valid[row, j] && !selected[row, j] && !underConsideration[row, j]
        {
          var n := Puzzle[row][col];
          number[row, col] := n;
          editable[row, col] := n == 0;
          valid[row, col] := true;
          selected[row, col] := false;
          underConsideration[row, col] := false;
        }
      }
      SameGrid(Numbers(), Puzzle);
    }

    /**
     * Whether n may stand at (row, col): scans the column and the row,
     * then the 3x3 box, always skipping (row, col) itself. Changes nothing.
     */
    method IsValid(n: int, row: int, col: int) returns (ok: bool)
      requires Shape() && InRange(row) && InRange(col)
      ensures ok == Legal(Numbers(), n, row, col)
    {
      LegalCharacterisation(Numbers(), n, row, col);
      for idx := 0 to 9
        invariant forall i :: 0 <= i < idx ==> (number[i, col] == n ==> i == row)
        invariant forall i :: 0 <= i < idx ==> (number[row, i] == n ==> i == col)
      {
        if number[idx, col] == n && idx != row {
          return false;
        }
        if number[row, idx] == n && idx != col {
          return false;
        }
      }
      var squareRow := row / 3 * 3;
      var squareCol := col / 3 * 3;
      for r := squareRow to squareRow + 3
        invariant forall i, j :: squareRow <= i < r && squareCol <= j < squareCol + 3 && (i != row || j != col) ==>
                    number[i, j] != n
      {
        for c := squareCol to squareCol + 3
          invariant forall i, j :: squareRow <= i < r && squareCol <= j < squareCol + 3 && (i != row || j != col) ==>
                      number[i, j] != n
          invariant forall j :: squareCol <= j < c && (r != row || j != col) ==> number[r, j] != n
        {
          if r == row && c == col {
            continue;
          }
          if number[r, c] == n {
            return false;
          }
        }
      }
      return true;
    }

    /**
     * Sets every cell's valid flag: true for an empty cell, otherwise whether
     * its number is legal where it stands. Only valid flags change.
     */
    method ValidateBoard()
      requires Shape()
      modifies valid
      ensures FlagsCurrent()
    {
      for row := 0 to 9
        invariant forall i, j :: 0 <= i < row && 0 <= j < 9 ==> valid[i, j] == ValidFlag(Numbers(), i, j)
      {
        for col := 0 to 9
          invariant forall i, j :: 0 <= i < row && 0 <= j < 9 ==> valid[i, j] == ValidFlag(Numbers(), i, j)
          invariant forall j :: 0 <= j < col ==> valid[row, j] == ValidFlag(Numbers(), row, j)
        {
          if number[row, col] == 0 {
            valid[row, col] := true;
          } else {
            var ok := IsValid(number[row, col], row, col);
            valid[row, col] := ok;
          }
        }
      }
    }

    /**
     * Writes n into the selected cell if that cell is editable; does nothing
     * when no cell is selected.
     */
    method SetNumber(n: int)
      requires Valid()
      modifies number
      ensures Valid()
      ensures forall i, j :: 0 <= i < 9 && 0 <= j < 9 ==>
                number[i, j] == if selectedCell == Some((i, j)) && editable[i, j] then n else old(number[i, j])
    {
      if selectedCell.None? {
        return;
      }
      var (row, col) := selectedCell.value;
      if editable[row, col] {
        number[row, col] := n;
      }
    }

    /** Clears the selected cell if it is editable; does nothing when no cell is selected. */
    method Delete()
      requires Valid()
      modifies number
      ensures Valid()
      ensures forall i, j :: 0 <= i < 9 && 0 <= j < 9 ==>
                number[i, j] == if selectedCell == Some((i, j)) && editable[i, j] then 0 else old(number[i, j])
    {
      if selectedCell.None? {
        return;
      }
      SetNumber(0);
    }

    /**
     * Moves the selection by (rowMove, colMove) when the target is on the
     * board, clearing the old cell's flag and setting the new one's; nothing
     * changes when no cell is selected or the target is off the board.
     */
    method MoveSelectedCell(rowMove: int, colMove: int)
      requires Valid()
      modifies this`selectedCell, selected
      ensures Valid()
      ensures old(selectedCell).Some? && InRange(old(selectedCell).value.0 + rowMove) &&
              InRange(old(selectedCell).value.1 + colMove) ==>
                var (oldRow, oldCol) := old(selectedCell).value;
                var (newRow, newCol) := (oldRow + rowMove, oldCol + colMove);
                selectedCell == Some((newRow, newCol)) &&
                forall i, j :: 0 <= i < 9 && 0 <= j < 9 ==>
                  selected[i, j] == if i == newRow && j == newCol then true
                                    else if i == oldRow && j == oldCol then false
                                    else old(selected[i, j])
      ensures !(old(selectedCell).Some? && InRange(old(selectedCell).value.0 + rowMove) &&
                InRange(old(selectedCell).value.1 + colMove)) ==>
                selectedCell == old(selectedCell) &&
                forall i, j :: 0 <= i < 9 && 0 <= j < 9 ==> selected[i, j] == old(selected[i, j])
    {
      if selectedCell.None? {
        return;
      }
      var (oldRow, oldCol) := selectedCell.value;
      var newRow := oldRow + rowMove;
      var newCol := oldCol + colMove;
      if -1 < newRow < 9 && -1 < newCol < 9 {
        selectedCell := Some((newRow, newCol));
        selected[oldRow, oldCol] := false;
        selected[newRow, newCol] := true;
      }
    }

    /**
     * Selects the cell under the mouse position (x, y): x picks the column and
     * y the row. A click that lies on no cell changes nothing (the corrected
     * behaviour; SelectAsWritten is the code as written).
     */
    method SetSelectedCell(x: int, y: int)
      requires Valid()
      modifies this`selectedCell, selected
      ensures Valid()
      ensures (exists k :: 0 <= k < 9 && OnCell(x, k)) && (exists k :: 0 <= k < 9 && OnCell(y, k)) ==>
                selectedCell.Some? &&
                var (row, col) := selectedCell.value;
                OnCell(y, row) && OnCell(x, col) &&
                forall i, j :: 0 <= i < 9 && 0 <= j < 9 ==>
                  selected[i, j] == if i == row && j == col then true
                                    else if old(selectedCell) == Some((i, j)) then false
                                    else old(selected[i, j])
      ensures !((exists k :: 0 <= k < 9 && OnCell(x, k)) && (exists k :: 0 <= k < 9 && OnCell(y, k))) ==>
                selectedCell == old(selectedCell) &&
                forall i, j :: 0 <= i < 9 && 0 <= j < 9 ==> selected[i, j] == old(selected[i, j])
    {
      var clickedCol := GetCell(x);
      var clickedRow := GetCell(y);
      if clickedRow == -1 || clickedCol == -1 {
        return;
      }
      if selectedCell.Some? {
        var (row, col) := selectedCell.value;
        selected[row, col] := false;
      }
      selectedCell := Some((clickedRow, clickedCol));
      selected[clickedRow, clickedCol] := true;
    }

    /**
     * The recursive search from (row, col). Its result and the numbers it
     * leaves are those of Search on the numbers it started from, so a
     * failing call leaves every number as it found it. It never leaves a
     * cell under consideration that was not so before, nor the cell it
     * started on if that was empty. When it succeeds after filling some
     * cell, the valid flags match the final numbers; with nothing left to
     * fill it changes nothing.
     */
    method SolveHelper(row: int, col: int) returns (ok: bool)
      requires Shape() && InRange(row) && InRange(col)
      modifies number, valid, underConsideration
      ensures ok == Search(old(Numbers()), row, col).Some?
      ensures ok ==> Numbers() == Search(old(Numbers()), row, col).value
      ensures !ok ==> Numbers() == old(Numbers())
      ensures forall i, j :: 0 <= i < 9 && 0 <= j < 9 && underConsideration[i, j] ==> old(underConsideration[i, j])
      ensures old(number[row, col]) == 0 ==> !underConsideration[row, col]
      ensures !ok && old(number[row, col]) == 0 ==> forall i, j :: 0 <= i < 9 && 0 <= j < 9 ==>
                valid[i, j] == ValidFlag(Place(old(Numbers()), row, col, 9), i, j)
      ensures ok && HasEmptyFrom(old(Numbers()), row, col) ==> FlagsCurrent()
      ensures !HasEmptyFrom(old(Numbers()), row, col) ==> unchanged(number, valid, underConsideration)
      decreases 81 - Pos(row, col), 2
    {
      ghost var g0 := Numbers();
      if number[row, col] != 0 {
        if col == 8 && row == 8 {
          return true;
        }
        var (nr, nc) := if col == 8 then (row + 1, 0) else (row, col + 1);
        HasEmptyFromNext(g0, row, col);
        ok := SolveHelper(nr, nc);
        return;
      }
      underConsideration[row, col] := true;
      for candidate := 1 to 10
        invariant Numbers() == g0
        invariant TryFrom(g0, row, col, candidate) == Search(g0, row, col)
        invariant candidate > 1 ==> forall i, j :: 0 <= i < 9 && 0 <= j < 9 ==>
                    valid[i, j] == ValidFlag(Place(g0, row, col, candidate - 1), i, j)
        invariant underConsideration[row, col]
        invariant forall i, j :: 0 <= i < 9 && 0 <= j < 9 && (i != row || j != col) && underConsideration[i, j] ==>
                    old(underConsideration[i, j])
      {
        ok := TryCandidate(row, col, candidate);
        if ok {
          return;
        }
      }
      underConsideration[row, col] := false;
      return false;
    }

    /**
     * One pass of the candidate loop on the empty cell (row, col): the
     * candidate is written and the board validated; a legal candidate leads
     * to the search from the next cell. Success leaves the numbers Attempt
     * gives and the valid flags current; failure marks the cell under
     * consideration, validates again and clears the cell, leaving the
     * numbers as they were.
     */
    method TryCandidate(row: int, col: int, candidate: int) returns (ok: bool)
      requires Shape() && InRange(row) && InRange(col) && 1 <= candidate <= 9
      requires number[row, col] == 0
      modifies number, valid, underConsideration
      ensures ok == Attempt(old(Numbers()), row, col, candidate).Some?
      ensures ok ==> Numbers() == Attempt(old(Numbers()), row, col, candidate).value && FlagsCurrent()
      ensures !ok ==> Numbers() == old(Numbers())
      ensures !ok ==> forall i, j :: 0 <= i < 9 && 0 <= j < 9 ==>
                valid[i, j] == ValidFlag(Place(old(Numbers()), row, col, candidate), i, j)
      ensures underConsideration[row, col] == !ok
      ensures forall i, j :: 0 <= i < 9 && 0 <= j < 9 && (i != row || j != col) && underConsideration[i, j] ==>
                old(underConsideration[i, j])
      decreases 81 - Pos(row, col), 1
    {
      ghost var g0 := Numbers();
      ghost var trial := Place(g0, row, col, candidate);
      var legal := PlaceCandidate(row, col, candidate);
      if legal {
        if col == 8 && row == 8 {
          underConsideration[row, col] := false;
          return true;
        }
        var result := Descend(row, col);
        if result {
          return true;
        }
      }
      Retract(row, col);
      assert Place(trial, row, col, 0) == g0 by { SameGrid(Place(trial, row, col, 0), g0); }
      return false;
    }

    /**
     * The search past a legal candidate at (row, col): the cell is released
     * from consideration and the search goes on from the next cell. Success
     * leaves what that search gives, with the valid flags current; failure
     * leaves the numbers as they were.
     */
    method Descend(row: int, col: int) returns (result: bool)
      requires Shape() && InRange(row) && InRange(col) && (row != 8 || col != 8)
      requires FlagsCurrent()
      modifies number, valid, underConsideration
      ensures result == Search(old(Numbers()), Next(row, col).0, Next(row, col).1).Some?
      ensures result ==> Numbers() == Search(old(Numbers()), Next(row, col).0, Next(row, col).1).value && FlagsCurrent()
      ensures !result ==> Numbers() == old(Numbers())
      ensures !underConsideration[row, col]
      ensures forall i, j :: 0 <= i < 9 && 0 <= j < 9 && (i != row || j != col) && underConsideration[i, j] ==>
                old(underConsideration[i, j])
      decreases 81 - Pos(row, col), 0
    {
      var (nr, nc) := if col == 8 then (row + 1, 0) else (row, col + 1);
      underConsideration[row, col] := false;
      result := SolveHelper(nr, nc);
      if result {
        underConsideration[row, col] := false;
      }
    }

    /**
     * The head of a candidate pass: the candidate is written into the cell,
     * the board validated, and the candidate checked where it stands.
     */
    method PlaceCandidate(row: int, col: int, candidate: int) returns (legal: bool)
      requires Shape() && InRange(row) && InRange(col)
      modifies number, valid
      ensures Numbers() == Place(old(Numbers()), row, col, candidate)
      ensures FlagsCurrent()
      ensures legal == Legal(Numbers(), candidate, row, col)
    {
      WriteNumber(row, col, candidate);
      ValidateBoard();
      legal := IsValid(candidate, row, col);
    }

    /** Writes n into cell (row, col); every other number stays. */
    method WriteNumber(row: int, col: int, n: int)
      requires Shape() && InRange(row) && InRange(col)
      modifies number
      ensures Numbers() == Place(old(Numbers()), row, col, n)
    {
      number[row, col] := n;
      SameGrid(Numbers(), Place(old(Numbers()), row, col, n));
    }

    /**
     * The tail of a failed candidate: the cell is marked under consideration,
     * the board validated, and the cell cleared.
     */
    method Retract(row: int, col: int)
      requires Shape() && InRange(row) && InRange(col)
      modifies number, valid, underConsideration
      ensures Numbers() == Place(old(Numbers()), row, col, 0)
      ensures forall i, j :: 0 <= i < 9 && 0 <= j < 9 ==> valid[i, j] == ValidFlag(old(Numbers()), i, j)
      ensures underConsideration[row, col]
      ensures forall i, j :: 0 <= i < 9 && 0 <= j < 9 && (i != row || j != col) ==>
                underConsideration[i, j] == old(underConsideration[i, j])
    {
      underConsideration[row, col] := true;
      ValidateBoard();
      WriteNumber(row, col, 0);
    }

    /**
     * Reloads the puzzle and runs the search from the first cell; the
     * search's result is not reported, and the stored selection is kept.
     * On the built-in puzzle the board ends solved.
     */
    method Solve()
      requires Valid()
      modifies number, editable, valid, selected, underConsideration
      ensures Valid()
      ensures Search(Puzzle, 0, 0) == Some(Numbers())
      ensures IsCompletion(Puzzle, Numbers(), 0, 0) && Solved(Numbers())
      ensures forall i, j :: 0 <= i < 9 && 0 <= j < 9 ==> !selected[i, j]
      ensures selectedCell == old(selectedCell)
      ensures FlagsCurrent()
    {
      ResetBoard();
      PuzzleSolvable();
      assert HasEmptyFrom(Puzzle, 0, 0) by {
        assert !Before(0, 0, 0, 0) && Puzzle[0][0] == 0;
      }
      var solved := SolveHelper(0, 0);
    }
  }
}
