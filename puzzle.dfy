/** The fixed puzzle the game loads, and what the search does with it. */
module SudokuPuzzle {
  import opened Wrappers
  import opened SudokuRules
  import opened SudokuSearch

  /** The built-in puzzle, row by row, 0 for a blank cell. */
  const Puzzle: Grid := [
    [0, 0, 9, 2, 1, 8, 0, 0, 0],
    [1, 7, 0, 0, 9, 6, 8, 0, 0],
    [0, 4, 0, 0, 5, 0, 0, 0, 6],
    [4, 5, 1, 0, 6, 0, 3, 7, 0],
    [0, 0, 0, 0, 0, 5, 0, 0, 9],
    [9, 0, 2, 3, 7, 0, 5, 0, 0],
    [6, 0, 0, 5, 0, 1, 0, 0, 0],
    [0, 0, 0, 0, 4, 9, 2, 5, 7],
    [0, 9, 4, 8, 0, 0, 0, 1, 3]
  ]

  /** A completion of the built-in puzzle, used as a witness that it is solvable. */
  const Solution: Grid := [
    [3, 6, 9, 2, 1, 8, 7, 4, 5],
    [1, 7, 5, 4, 9, 6, 8, 3, 2],
    [2, 4, 8, 7, 5, 3, 1, 9, 6],
    [4, 5, 1, 9, 6, 2, 3, 7, 8],
    [7, 3, 6, 1, 8, 5, 4, 2, 9],
    [9, 8, 2, 3, 7, 4, 5, 6, 1],
    [6, 2, 7, 5, 3, 1, 9, 8, 4],
    [8, 1, 3, 6, 4, 9, 2, 5, 7],
    [5, 9, 4, 8, 2, 7, 6, 1, 3]
  ]

  /** Cell (i, j) of the witness is a legal digit and agrees with the puzzle's given there. */
  predicate SolutionCellOk(i: int, j: int)
    requires InRange(i) && InRange(j)
  {
    1 <= Solution[i][j] <= 9 && Legal(Solution, Solution[i][j], i, j) &&
    (Puzzle[i][j] != 0 ==> Puzzle[i][j] == Solution[i][j])
  }

  // One lemma per row keeps each proof obligation to nine concrete cells.
  lemma SolutionRow0()
    ensures forall j :: 0 <= j < 9 ==> SolutionCellOk(0, j)
  {
    forall j | 0 <= j < 9 ensures SolutionCellOk(0, j) {
      assert j == 0 || j == 1 || j == 2 || j == 3 || j == 4 || j == 5 || j == 6 || j == 7 || j == 8;
    }
  }

  lemma SolutionRow1()
    ensures forall j :: 0 <= j < 9 ==> SolutionCellOk(1, j)
  {
    forall j | 0 <= j < 9 ensures SolutionCellOk(1, j) {
      assert j == 0 || j == 1 || j == 2 || j == 3 || j == 4 || j == 5 || j == 6 || j == 7 || j == 8;
    }
  }

  lemma SolutionRow2()
    ensures forall j :: 0 <= j < 9 ==> SolutionCellOk(2, j)
  {
    forall j | 0 <= j < 9 ensures SolutionCellOk(2, j) {
      assert j == 0 || j == 1 || j == 2 || j == 3 || j == 4 || j == 5 || j == 6 || j == 7 || j == 8;
    }
  }

  lemma SolutionRow3()
    ensures forall j :: 0 <= j < 9 ==> SolutionCellOk(3, j)
  {
    forall j | 0 <= j < 9 ensures SolutionCellOk(3, j) {
      assert j == 0 || j == 1 || j == 2 || j == 3 || j == 4 || j == 5 || j == 6 || j == 7 || j == 8;
    }
  }

  lemma SolutionRow4()
    ensures forall j :: 0 <= j < 9 ==> SolutionCellOk(4, j)
  {
    forall j | 0 <= j < 9 ensures SolutionCellOk(4, j) {
      assert j == 0 || j == 1 || j == 2 || j == 3 || j == 4 || j == 5 || j == 6 || j == 7 || j == 8;
    }
  }

  lemma SolutionRow5()
    ensures forall j :: 0 <= j < 9 ==> SolutionCellOk(5, j)
  {
    forall j | 0 <= j < 9 ensures SolutionCellOk(5, j) {
      assert j == 0 || j == 1 || j == 2 || j == 3 || j == 4 || j == 5 || j == 6 || j == 7 || j == 8;
    }
  }

  lemma SolutionRow6()
    ensures forall j :: 0 <= j < 9 ==> SolutionCellOk(6, j)
  {
    forall j | 0 <= j < 9 ensures SolutionCellOk(6, j) {
      assert j == 0 || j == 1 || j == 2 || j == 3 || j == 4 || j == 5 || j == 6 || j == 7 || j == 8;
    }
  }

  lemma SolutionRow7()
    ensures forall j :: 0 <= j < 9 ==> SolutionCellOk(7, j)
  {
    forall j | 0 <= j < 9 ensures SolutionCellOk(7, j) {
      assert j == 0 || j == 1 || j == 2 || j == 3 || j == 4 || j == 5 || j == 6 || j == 7 || j == 8;
    }
  }

  lemma SolutionRow8()
    ensures forall j :: 0 <= j < 9 ==> SolutionCellOk(8, j)
  {
    forall j | 0 <= j < 9 ensures SolutionCellOk(8, j) {
      assert j == 0 || j == 1 || j == 2 || j == 3 || j == 4 || j == 5 || j == 6 || j == 7 || j == 8;
    }
  }

  lemma AllSolutionCellsOk()
    ensures forall i, j :: 0 <= i < 9 && 0 <= j < 9 ==> SolutionCellOk(i, j)
  {
    SolutionRow0(); SolutionRow1(); SolutionRow2(); SolutionRow3(); SolutionRow4();
    SolutionRow5(); SolutionRow6(); SolutionRow7(); SolutionRow8();
    forall i, j | 0 <= i < 9 && 0 <= j < 9 ensures SolutionCellOk(i, j) {
      assert i == 0 || i == 1 || i == 2 || i == 3 || i == 4 || i == 5 || i == 6 || i == 7 || i == 8;
    }
  }

  /** The witness keeps the puzzle's givens, fills its blanks with legal digits and is solved. */
  lemma SolutionCompletesPuzzle()
    ensures IsGrid(Puzzle) && IsCompletion(Puzzle, Solution, 0, 0) && Solved(Solution)
  {
    AllSolutionCellsOk();
    forall i, j | 0 <= i < 9 && 0 <= j < 9 && Puzzle[i][j] != 0 ensures Solution[i][j] == Puzzle[i][j] {
      assert SolutionCellOk(i, j);
    }
    forall i, j | 0 <= i < 9 && 0 <= j < 9
      ensures 1 <= Solution[i][j] <= 9 && Legal(Solution, Solution[i][j], i, j)
    {
      assert SolutionCellOk(i, j);
    }
  }

  /** Every given of the puzzle is a digit that is legal where it stands. */
  lemma PuzzleGivensLegal()
    ensures IsGrid(Puzzle)
    ensures forall i, j :: 0 <= i < 9 && 0 <= j < 9 && Puzzle[i][j] != 0 ==>
              1 <= Puzzle[i][j] <= 9 && Legal(Puzzle, Puzzle[i][j], i, j)
  {
    SolutionCompletesPuzzle();
    forall i, j | 0 <= i < 9 && 0 <= j < 9 && Puzzle[i][j] != 0
      ensures 1 <= Puzzle[i][j] <= 9 && Legal(Puzzle, Puzzle[i][j], i, j)
    {
      assert SolutionCellOk(i, j);
      LegalInAgreeingGrid(Solution, Puzzle, Puzzle[i][j], i, j);
    }
  }

  /**
   * The search from the first cell succeeds on the built-in puzzle, and the
   * grid it finds keeps the givens and is solved.
   */
  lemma PuzzleSolvable()
    ensures IsGrid(Puzzle) && Search(Puzzle, 0, 0).Some?
    ensures IsCompletion(Puzzle, Search(Puzzle, 0, 0).value, 0, 0)
    ensures Solved(Search(Puzzle, 0, 0).value)
  {
    SolutionCompletesPuzzle();
    SearchComplete(Puzzle, 0, 0, Solution);
    SearchSound(Puzzle, 0, 0);
    PuzzleGivensLegal();
    CompletionIsSolved(Puzzle, Search(Puzzle, 0, 0).value);
  }
}
