/** The fixed 100 x 100 cell grid and the conversion between a flat cell
    index and its `(x, y)` coordinates. The conversion divides by the
    height where a row-major layout would divide by the width; it is
    correct only because the grid is square. */
module Grid {

  const CellWidth: nat := 100
  const CellHeight: nat := 100
  const CellCount: nat := CellWidth * CellHeight

  /** Flat index to coordinates: `(i % CELL_WIDTH, i / CELL_HEIGHT)`. It is
      the row-major decomposition of `i`, column below the width, because
      the grid is square. */
  function GetXY(i: nat): (r: (nat, nat))
    ensures r.0 < CellWidth && r.1 * CellWidth + r.0 == i
  {
    (i % CellWidth, i / CellHeight)
  }

  /** Coordinates to flat index: `y * CELL_HEIGHT + x`. No bound check:
      an `x` of `CellWidth` lands on the first cell of the next row. For an
      in-range column, the index divided by the width gives back the row,
      and its remainder the column. */
  function GetIdx(x: nat, y: nat): (r: nat)
    ensures x < CellWidth ==> r / CellWidth == y && r % CellWidth == x
  {
    y * CellHeight + x
  }

  /** Every index of the grid maps to in-range coordinates, and back to
      itself. */
  lemma IndexRoundTrip(i: nat)
    requires i < CellCount
    ensures GetXY(i).0 < CellWidth && GetXY(i).1 < CellHeight
    ensures GetIdx(GetXY(i).0, GetXY(i).1) == i
  {
    assert CellWidth == CellHeight;
  }

  /** Every in-range coordinate pair maps to an index of the grid, and
      back to itself. */
  lemma CoordRoundTrip(x: nat, y: nat)
    requires x < CellWidth && y < CellHeight
    ensures GetIdx(x, y) < CellCount
    ensures GetXY(GetIdx(x, y)) == (x, y)
  {
    assert CellWidth == CellHeight;
  }

  /** An `x` one past the right edge aliases the first cell of the next
      row down. */
  lemma PastRightEdge(y: nat)
    ensures GetIdx(CellWidth, y) == GetIdx(0, y + 1)
  {
  }
}
