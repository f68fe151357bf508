/**
 * The sparse border index of the grid: a map from coordinate to border with
 * a cached bounding box and an `isEmpty` flag.
 */
module Borders {
  import opened Wrappers
  import opened BorderIndex

  class GridBorders {
    var minX: int
    var maxX: int
    var minY: int
    var maxY: int
    var isEmpty: bool
    /** The map's entries; `order` is its iteration (insertion) order. */
    var borders: map<Coord, Border>
    var order: seq<Coord>

    /** The map and its key order agree, and every border sits under its own key. */
    ghost predicate Consistent()
      reads this
    {
      Distinct(order) && Elems(order) == borders.Keys && KeyedByPosition(borders)
    }

    /**
     * The cached box is all zeros when nothing is stored and the tight box
     * of the stored keys otherwise; an index with entries may still be flagged
     * empty, but an index flagged non-empty always has entries.
     */
    ghost predicate Valid()
      reads this
    {
      Consistent()
      && (borders == map[] ==> isEmpty && minX == 0 && maxX == 0 && minY == 0 && maxY == 0)
      && (borders != map[] ==> Tight(borders.Keys, Box(minX, maxX, minY, maxY)))
    }

    constructor ()
      ensures Valid() && borders == map[] && order == [] && isEmpty
    {
      minX, maxX, minY, maxY := 0, 0, 0, 0;
      isEmpty := true;
      borders, order := map[], [];
    }

    /** Removes every border and resets the box to zeros. */
    method Empty()
      modifies this
      ensures Valid() && borders == map[] && order == [] && isEmpty
      ensures minX == 0 && maxX == 0 && minY == 0 && maxY == 0
    {
      borders, order := map[], [];
      minX, maxX, minY, maxY := 0, 0, 0, 0;
      isEmpty := true;
    }

    /** Replaces the contents with `list`; a missing or empty list empties the index. */
    method Populate(list: Option<seq<Border>>)
      modifies this
      ensures Valid()
      ensures list.None? || list.value == [] ==>
        borders == map[] && isEmpty && minX == 0 && maxX == 0 && minY == 0 && maxY == 0
      ensures list.Some? && list.value != [] ==>
        borders == Upsert(map[], list.value) && order == UpsertOrder([], list.value) && !isEmpty
    {
      if list.None? || list.value == [] {
        Empty();
        return;
      }
      var bs := list.value;
      isEmpty := false;
      borders, order := map[], [];
      var acc: Option<Box> := None;
      for i := 0 to |bs|
        invariant borders == Upsert(map[], bs[..i]) && order == UpsertOrder([], bs[..i])
        invariant !isEmpty
        invariant acc.None? <==> i == 0
        invariant acc.Some? ==> Tight(borders.Keys, acc.value)
      {
        assert bs[..i + 1][..i] == bs[..i];
        var k := KeyOf(bs[i]);
        WidenTight(borders.Keys, acc, k);
        ghost var keys := borders.Keys;
        if k !in order {
          order := order + [k];
        }
        borders := borders[k := bs[i]];
        assert borders.Keys == keys + {k};
        acc := Some(Widen(acc, k));
      }
      assert bs[..|bs|] == bs;
      UpsertKeyed(map[], bs);
      UpsertOrderMatches(map[], [], bs);
      minX, maxX, minY, maxY := acc.value.minX, acc.value.maxX, acc.value.minY, acc.value.maxY;
    }

    /**
     * Recomputes the box from a full scan of the entries, or empties the index
     * when there are none. It never clears `isEmpty`.
     */
    method RecalculateBounds()
      requires Consistent()
      modifies this
      ensures Valid()
      ensures borders == old(borders) && order == old(order)
      ensures isEmpty == (old(borders) == map[] || old(isEmpty))
    {
      if |borders| == 0 {
        DistinctCard(order);
        Empty();
        return;
      }
      assert order != [] by {
        var k :| k in borders;
        assert k in Elems(order);
      }
      var box := ScanBounds(borders, order);
      minX, maxX, minY, maxY := box.minX, box.maxX, box.minY, box.maxY;
    }

    /**
     * The border at `(x, y)`; nothing outside the cached box. Because the box
     * is tight, the guard never hides a stored border.
     */
    function Get(x: int, y: int): (r: Option<Border>)
      reads this
      ensures x < minX || x > maxX || y < minY || y > maxY ==> r == None
      ensures Valid() ==> r == Lookup(borders, (x, y))
    {
      if x < minX || x > maxX || y < minY || y > maxY then None
      else Lookup(borders, (x, y))
    }

    /** Deletes exactly the listed coordinates, then recomputes the box. */
    method Clear(coordinates: seq<Coord>)
      requires Valid()
      modifies this
      ensures Valid()
      ensures borders == ClearMap(old(borders), coordinates)
      ensures order == ClearOrder(old(order), coordinates)
      ensures isEmpty == (borders == map[] || old(isEmpty))
      ensures (forall k | k in old(borders) :: k in coordinates) ==>
        borders == map[] && isEmpty && minX == 0 && maxX == 0 && minY == 0 && maxY == 0
    {
      ghost var m0, o0 := borders, order;
      for i := 0 to |coordinates|
        invariant borders == ClearMap(m0, coordinates[..i]) && order == ClearOrder(o0, coordinates[..i])
        invariant isEmpty == old(isEmpty)
      {
        assert coordinates[..i + 1][..i] == coordinates[..i];
        borders := borders - {coordinates[i]};
        order := Without(order, coordinates[i]);
      }
      assert coordinates[..|coordinates|] == coordinates;
      ClearKeyed(m0, coordinates);
      ClearOrderMatches(m0, o0, coordinates);
      RecalculateBounds();
      if forall k | k in m0 :: k in coordinates {
        ClearAllEmpties(m0, coordinates);
      }
    }

    /**
     * Stores each border under its own coordinates, replacing any border
     * already there, then recomputes the box. `isEmpty` is left as it was, so
     * an update of an empty index keeps reporting no grid bounds.
     */
    method Update(list: seq<Border>)
      requires Valid()
      modifies this
      ensures Valid()
      ensures borders == Upsert(old(borders), list) && order == UpsertOrder(old(order), list)
      ensures isEmpty == old(isEmpty)
    {
      ghost var m0, o0 := borders, order;
      for i := 0 to |list|
        invariant borders == Upsert(m0, list[..i]) && order == UpsertOrder(o0, list[..i])
        invariant isEmpty == old(isEmpty)
      {
        assert list[..i + 1][..i] == list[..i];
        var k := KeyOf(list[i]);
        if k !in order {
          order := order + [k];
        }
        borders := borders[k := list[i]];
      }
      assert list[..|list|] == list;
      UpsertKeyed(m0, list);
      UpsertOrderMatches(m0, o0, list);
      if borders == map[] {
        forall k | k in m0
          ensures false
        {
          UpsertLookup(m0, list, k);
        }
      }
      RecalculateBounds();
    }

    /** The stored borders inside `bounds` (edges included), in row-major order. */
    method GetBorders(bounds: Rect) returns (found: seq<Border>)
      ensures found == RectScan(borders, bounds.Left(), bounds.Right(), bounds.Top(), bounds.Bottom())
    {
      found := [];
      var y := bounds.Top();
      while y <= bounds.Bottom()
        invariant bounds.Top() <= y && (y <= bounds.Bottom() + 1 || y == bounds.Top())
        invariant found == RectScan(borders, bounds.Left(), bounds.Right(), bounds.Top(), y - 1)
        decreases bounds.Bottom() - y
      {
        var x := bounds.Left();
        ghost var above := found;
        while x <= bounds.Right()
          invariant bounds.Left() <= x && (x <= bounds.Right() + 1 || x == bounds.Left())
          invariant found == above + RowScan(borders, y, bounds.Left(), x - 1)
          decreases bounds.Right() - x
        {
          if (x, y) in borders {
            found := found + [borders[(x, y)]];
          }
          x := x + 1;
        }
        y := y + 1;
      }
    }

    /**
     * The rectangle of cell indices to draw, given the column and row indices
     * under the view's edges, clamped to the cached box.
     */
    function GetBounds(startColumn: int, endColumn: int, startRow: int, endRow: int): (r: Rect)
      reads this
      ensures r.Left() >= minX && r.Left() >= startColumn && (r.Left() == minX || r.Left() == startColumn)
      ensures r.Right() <= maxX && r.Right() <= endColumn && (r.Right() == maxX || r.Right() == endColumn)
      ensures r.Top() >= minY && r.Top() >= startRow && (r.Top() == minY || r.Top() == startRow)
      ensures r.Bottom() <= maxY && r.Bottom() <= endRow && (r.Bottom() == maxY || r.Bottom() == endRow)
    {
      var columnStart := if startColumn > minX then startColumn else minX;
      var columnEnd := if endColumn < maxX then endColumn else maxX;
      var rowStart := if startRow > minY then startRow else minY;
      var rowEnd := if endRow < maxY then endRow else maxY;
      Rect(columnStart, rowStart, columnEnd - columnStart, rowEnd - rowStart)
    }

    /** The tight box of the stored borders, or nothing while the index is flagged empty. */
    function GetGridBounds(): (r: Option<Rect>)
      reads this
      requires Valid()
      ensures r.None? <==> isEmpty
      ensures r.Some? ==>
        borders != map[] && Tight(borders.Keys, Box(r.value.Left(), r.value.Right(), r.value.Top(), r.value.Bottom()))
    {
      if isEmpty then None else Some(Rect(minX, minY, maxX - minX, maxY - minY))
    }

    /**
     * First and last populated `x` in `row`, scanning the box from each end;
     * `None` stands for the `Infinity` / `-Infinity` sentinels of an empty row.
     */
    method GetRowMinMax(row: int) returns (r: MinMax)
      requires Valid()
      ensures r.min.None? <==> forall k | k in borders :: k.1 != row
      ensures r.max.None? <==> r.min.None?
      ensures r.min.Some? ==>
        (r.min.value, row) in borders && forall k | k in borders && k.1 == row :: r.min.value <= k.0
      ensures r.max.Some? ==>
        (r.max.value, row) in borders && forall k | k in borders && k.1 == row :: k.0 <= r.max.value
    {
      var min: Option<int> := None;
      var max: Option<int> := None;
      var x := minX;
      while x <= maxX
        invariant minX <= x && min == None
        invariant forall x' | minX <= x' < x :: Get(x', row) == None
        decreases maxX - x
      {
        if Get(x, row).Some? {
          min := Some(x);
          break;
        }
        x := x + 1;
      }
      x := maxX;
      while x >= minX
        invariant x <= maxX && max == None
        invariant forall x' | x < x' <= maxX :: Get(x', row) == None
        decreases x - minX
      {
        if Get(x, row).Some? {
          max := Some(x);
          break;
        }
        x := x - 1;
      }
      r := MinMax(min, max);
      forall k | k in borders && k.1 == row
        ensures minX <= k.0 <= maxX && Get(k.0, row) == Some(borders[k])
      {
        assert k == (k.0, row);
      }
    }

    /** First and last populated `y` in `column`, or nothing when the column is empty. */
    method GetColumnMinMax(column: int) returns (r: Option<MinMax>)
      requires Valid()
      ensures r.None? <==> forall k | k in borders :: k.0 != column
      ensures r.Some? ==> r.value.min.Some? && r.value.max.Some?
      ensures r.Some? ==>
        (column, r.value.min.value) in borders && forall k | k in borders && k.0 == column :: r.value.min.value <= k.1
      ensures r.Some? ==>
        (column, r.value.max.value) in borders && forall k | k in borders && k.0 == column :: k.1 <= r.value.max.value
    {
      var min: Option<int> := None;
      var max: Option<int> := None;
      var y := minY;
      while y <= maxY
        invariant minY <= y && min == None
        invariant forall y' | minY <= y' < y :: Get(column, y') == None
        decreases maxY - y
      {
        if Get(column, y).Some? {
          min := Some(y);
          break;
        }
        y := y + 1;
      }
      y := maxY;
      while y >= minY
        invariant y <= maxY && max == None
        invariant forall y' | y < y' <= maxY :: Get(column, y') == None
        decreases y - minY
      {
        if Get(column, y).Some? {
          max := Some(y);
          break;
        }
        y := y - 1;
      }
      forall k | k in borders && k.0 == column
        ensures minY <= k.1 <= maxY && Get(column, k.1) == Some(borders[k])
      {
        assert k == (column, k.1);
      }
      if min.None? {
        return None;
      }
      r := Some(MinMax(min, max));
    }

    /** Every stored border, once each, in the map's insertion order. */
    function GetArray(): (r: seq<Border>)
      reads this
      requires Consistent()
      ensures |r| == |order| == |borders|
      ensures forall i | 0 <= i < |r| :: order[i] in borders && r[i] == borders[order[i]]
    {
      DistinctCard(order);
      ValuesInOrderLength(borders, order);
      assert forall i | 0 <= i < |order| :: ValuesInOrder(borders, order)[i] == borders[order[i]] by {
        forall i | 0 <= i < |order| ensures ValuesInOrder(borders, order)[i] == borders[order[i]] {
          ValuesInOrderAt(borders, order, i);
        }
      }
      ValuesInOrder(borders, order)
    }
  }

  /**
   * The `forEach` pass of `recalculateBounds`: the running min/max of the
   * coordinates of every stored border, visited in the map's order.
   */
  method ScanBounds(entries: map<Coord, Border>, keys: seq<Coord>) returns (box: Box)
    requires keys != [] && Elems(keys) == entries.Keys && KeyedByPosition(entries)
    ensures Tight(entries.Keys, box)
  {
    var acc: Option<Box> := None;
    for i := 0 to |keys|
      invariant acc.None? <==> i == 0
      invariant acc.Some? ==> Tight(Elems(keys[..i]), acc.value)
    {
      var border := entries[keys[i]];
      assert (border.x, border.y) == keys[i];
      WidenTight(Elems(keys[..i]), acc, (border.x, border.y));
      assert Elems(keys[..i + 1]) == Elems(keys[..i]) + {keys[i]};
      acc := Some(Widen(acc, (border.x, border.y)));
    }
    assert keys[..|keys|] == keys;
    box := acc.value;
  }

  /**
   * The flag quirk: after an update of a fresh (empty) index, the border is
   * stored and readable, yet the index still reports no grid bounds.
   */
  method UpdateOfEmptyHidesGridBounds(b: Border) returns (bounds: Option<Rect>, stored: Option<Border>)
    ensures bounds == None && stored == Some(b)
  {
    var index := new GridBorders();
    index.Update([b]);
    UpsertLookup(map[], [b], KeyOf(b));
    bounds := index.GetGridBounds();
    stored := index.Get(b.x, b.y);
  }
}
