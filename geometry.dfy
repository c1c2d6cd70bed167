/**
 * Pixel geometry of the board: which cell a mouse coordinate falls in.
 */
module Geometry {

  /** Pixel centre of each row (and each column) of cells. */
  const CellCenters: seq<int> := [40, 120, 200, 282, 362, 442, 524, 604, 684]

  /** Coordinate x lies strictly inside the 80-pixel span centred on cell k. */
  predicate OnCell(x: int, k: int)
    requires 0 <= k < 9
  {
    CellCenters[k] - 40 < x < CellCenters[k] + 40
  }

  /**
   * The index of the cell whose span holds x, scanning the centres in order;
   * -1 when x lies on no cell (on a grid line or outside the board).
   */
  method GetCell(x: int) returns (idx: int)
    ensures -1 <= idx < 9
    ensures idx == -1 <==> forall k :: 0 <= k < 9 ==> !OnCell(x, k)
    ensures idx != -1 ==> OnCell(x, idx)
  {
    for k := 0 to 9
      invariant forall m :: 0 <= m < k ==> !OnCell(x, m)
    {
      var center := CellCenters[k];
      if center - 40 < x < center + 40 {
        assert OnCell(x, k);
        return k;
      }
    }
    return -1;
  }

  /** The spans of two different cells never overlap, so a coordinate is on at most one cell. */
  lemma SpansDisjoint(x: int, k1: int, k2: int)
    requires 0 <= k1 < 9 && 0 <= k2 < 9
    requires OnCell(x, k1) && OnCell(x, k2)
    ensures k1 == k2
  {
    assert forall k :: 0 <= k < 8 ==> CellCenters[k] + 80 <= CellCenters[k + 1];
    if k1 < k2 {
      SpansOrdered(k1, k2);
    } else if k2 < k1 {
      SpansOrdered(k2, k1);
    }
  }

  lemma {:induction false} SpansOrdered(k1: int, k2: int)
    requires 0 <= k1 < k2 < 9
    ensures CellCenters[k1] + 80 <= CellCenters[k2]
    decreases k2 - k1
  {
    assert forall k :: 0 <= k < 8 ==> CellCenters[k] + 80 <= CellCenters[k + 1];
    if k1 + 1 < k2 {
      SpansOrdered(k1 + 1, k2);
    }
  }

  /** Python's list indexing: index -1 reaches the last element. */
  function PyIndex(k: int): (i: int)
    requires -1 <= k < 9
    ensures 0 <= i < 9 && (k == -1 ==> i == 8) && (k != -1 ==> i == k)
  {
    if k < 0 then k + 9 else k
  }

  /**
   * The selection step of set_selected_cell as written: the indices returned
   * by get_cell are stored as the selection unchecked, and the cell whose
   * flag is set is the one Python's indexing reaches, so -1 reaches row or
   * column 8. The first component is the stored selection, the second the
   * cell flagged.
   */
  function SelectAsWritten(clickedRow: int, clickedCol: int): (r: ((int, int), (int, int)))
    requires -1 <= clickedRow < 9 && -1 <= clickedCol < 9
    ensures 0 <= r.1.0 < 9 && 0 <= r.1.1 < 9
    ensures r.0 == (clickedRow, clickedCol)
    ensures r.1 == r.0 <==> clickedRow != -1 && clickedCol != -1
  {
    ((clickedRow, clickedCol), (PyIndex(clickedRow), PyIndex(clickedCol)))
  }

  /**
   * A click at pixel (40, 80) lies on the line between rows 0 and 1, on no
   * cell, yet set_selected_cell as written stores row -1 and flags cell
   * (8, 0), the bottom row.
   */
  lemma GridLineClickFlagsBottomRow()
    ensures forall k :: 0 <= k < 9 ==> !OnCell(80, k)
    ensures OnCell(40, 0)
    ensures SelectAsWritten(-1, 0) == ((-1, 0), (8, 0))
  {
    assert forall k :: 0 <= k < 9 ==> CellCenters[k] <= 40 || 120 <= CellCenters[k];
  }
}
