/**
 * The column and row offsets of the grid: per-axis size overrides and the
 * walks that turn an index into a pixel placement and a pixel back into an
 * index.
 */
module Offsets {
  import opened Axis

  /** Default width of a column without an override, in pixels. */
  const CellWidth: int := 100
  /** Default height of a row without an override, in pixels. */
  const CellHeight: int := 20

  /** Pixel rectangle of one cell. */
  datatype CellRect = CellRect(x: int, y: int, width: int, height: int)

  class GridOffsets {
    var columns: Table
    var rows: Table

    /** No column or row ever has a non-positive size. */
    ghost predicate Valid()
      reads this
    {
      Positive(columns, CellWidth) && Positive(rows, CellHeight)
    }

    constructor ()
      ensures Valid() && columns == map[] && rows == map[]
    {
      columns := map[];
      rows := map[];
    }

    /** Replaces both override tables wholesale; the last heading with a given id wins. */
    method Populate(columnHeadings: seq<Heading>, rowHeadings: seq<Heading>)
      requires forall h | h in columnHeadings :: h.size > 0
      requires forall h | h in rowHeadings :: h.size > 0
      modifies this
      ensures Valid()
      ensures columns == TableOf(columnHeadings) && rows == TableOf(rowHeadings)
    {
      columns := map[];
      for i := 0 to |columnHeadings|
        invariant columns == TableOf(columnHeadings[..i])
      {
        assert columnHeadings[..i + 1][..i] == columnHeadings[..i];
        columns := columns[columnHeadings[i].id := columnHeadings[i]];
      }
      assert columnHeadings[..|columnHeadings|] == columnHeadings;
      rows := map[];
      for i := 0 to |rowHeadings|
        invariant columns == TableOf(columnHeadings)
        invariant rows == TableOf(rowHeadings[..i])
      {
        assert rowHeadings[..i + 1][..i] == rowHeadings[..i];
        rows := rows[rowHeadings[i].id := rowHeadings[i]];
      }
      assert rowHeadings[..|rowHeadings|] == rowHeadings;
      TableOfPositive(columnHeadings, CellWidth);
      TableOfPositive(rowHeadings, CellHeight);
    }

    function GetColumnWidth(column: int): (width: int)
      reads this
      ensures column in columns ==> width == columns[column].size
      ensures column !in columns ==> width == CellWidth
      ensures Valid() ==> width > 0
    {
      SizeAt(columns, CellWidth, column)
    }

    function GetRowHeight(row: int): (height: int)
      reads this
      ensures row in rows ==> height == rows[row].size
      ensures row !in rows ==> height == CellHeight
      ensures Valid() ==> height > 0
    {
      SizeAt(rows, CellHeight, row)
    }

    /** Leading edge and width of a column, summed outward from column 0. */
    method GetColumnPlacement(column: int) returns (x: int, width: int)
      ensures x == StartOf(columns, CellWidth, column)
      ensures width == GetColumnWidth(column)
    {
      var position := 0;
      if column >= 0 {
        for i := 0 to column
          invariant position == SumSizes(columns, CellWidth, 0, i)
        {
          position := position + GetColumnWidth(i);
        }
      } else {
        for i := column to 0
          invariant position == -SumSizes(columns, CellWidth, column, i)
        {
          position := position - GetColumnWidth(i);
        }
      }
      return position, GetColumnWidth(column);
    }

    /** Leading edge and height of a row, summed outward from row 0. */
    method GetRowPlacement(row: int) returns (y: int, height: int)
      ensures y == StartOf(rows, CellHeight, row)
      ensures height == GetRowHeight(row)
    {
      var position := 0;
      if row >= 0 {
        for i := 0 to row
          invariant position == SumSizes(rows, CellHeight, 0, i)
        {
          position := position + GetRowHeight(i);
        }
      } else {
        for i := row to 0
          invariant position == -SumSizes(rows, CellHeight, row, i)
        {
          position := position - GetRowHeight(i);
        }
      }
      return position, GetRowHeight(row);
    }

    /**
     * The column containing pixel `x` and that column's leading edge. The walk
     * terminates only because every width is positive.
     */
    method GetColumnIndex(x: int) returns (index: int, position: int)
      requires Valid()
      ensures Covers(columns, CellWidth, x, index)
      ensures position == StartOf(columns, CellWidth, index)
    {
      index, position := 0, 0;
      if x >= 0 {
        var nextWidth := GetColumnWidth(0);
        while position + nextWidth < x
          invariant index >= 0 && position == StartOf(columns, CellWidth, index)
          invariant nextWidth == GetColumnWidth(index)
          invariant position <= x && (index > 0 ==> position < x)
          decreases x - position
        {
          Contiguous(columns, CellWidth, index);
          position := position + nextWidth;
          index := index + 1;
          nextWidth := GetColumnWidth(index);
        }
      } else {
        while position > x
          invariant index <= 0 && position == StartOf(columns, CellWidth, index)
          invariant index < 0 ==> x < position + GetColumnWidth(index)
          decreases position - x
        {
          index := index - 1;
          position := position - GetColumnWidth(index);
          Contiguous(columns, CellWidth, index);
        }
      }
    }

    /** The row containing pixel `y` and that row's leading edge. */
    method GetRowIndex(y: int) returns (index: int, position: int)
      requires Valid()
      ensures Covers(rows, CellHeight, y, index)
      ensures position == StartOf(rows, CellHeight, index)
    {
      index, position := 0, 0;
      if y >= 0 {
        var nextHeight := GetRowHeight(0);
        while position + nextHeight < y
          invariant index >= 0 && position == StartOf(rows, CellHeight, index)
          invariant nextHeight == GetRowHeight(index)
          invariant position <= y && (index > 0 ==> position < y)
          decreases y - position
        {
          Contiguous(rows, CellHeight, index);
          position := position + nextHeight;
          index := index + 1;
          nextHeight := GetRowHeight(index);
        }
      } else {
        while position > y
          invariant index <= 0 && position == StartOf(rows, CellHeight, index)
          invariant index < 0 ==> y < position + GetRowHeight(index)
          decreases position - y
        {
          index := index - 1;
          position := position - GetRowHeight(index);
          Contiguous(rows, CellHeight, index);
        }
      }
    }

    /** The cell under a world (pixel) position. */
    method GetRowColumnFromWorld(x: int, y: int) returns (column: int, row: int)
      requires Valid()
      ensures Covers(columns, CellWidth, x, column)
      ensures Covers(rows, CellHeight, y, row)
    {
      var columnStart, rowStart;
      column, columnStart := GetColumnIndex(x);
      row, rowStart := GetRowIndex(y);
    }

    /** The pixel rectangle of the cell at (`column`, `row`). */
    method GetCell(column: int, row: int) returns (r: CellRect)
      ensures r.x == StartOf(columns, CellWidth, column) && r.width == GetColumnWidth(column)
      ensures r.y == StartOf(rows, CellHeight, row) && r.height == GetRowHeight(row)
    {
      var x, width := GetColumnPlacement(column);
      var y, height := GetRowPlacement(row);
      r := CellRect(x, y, width, height);
    }
  }
}
