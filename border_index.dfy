/**
 * Specification functions for the sparse border index: the map from
 * coordinate to border, the insertion order of its keys (a JavaScript `Map`
 * iterates in insertion order), the bounding box over its keys, and the
 * row-major rectangle scan.
 */
module BorderIndex {
  import opened Wrappers

  /** A cell coordinate `(x, y)`; the source keys its map by the string "x,y". */
  type Coord = (int, int)

  /** A border decoration at one cell; the styling is carried opaquely. */
  datatype Border = Border(x: int, y: int, style: string)

  /** An integer rectangle: `x`/`y` is the top-left corner, `right`/`bottom` are inclusive in scans. */
  datatype Rect = Rect(x: int, y: int, width: int, height: int) {
    function Left(): int { x }
    function Right(): int { x + width }
    function Top(): int { y }
    function Bottom(): int { y + height }
  }

  /** Smallest and largest populated coordinate along a row or a column; `None` stands for the infinite sentinel. */
  datatype MinMax = MinMax(min: Option<int>, max: Option<int>)

  /** A bounding box with inclusive limits. */
  datatype Box = Box(minX: int, maxX: int, minY: int, maxY: int)

  function KeyOf(b: Border): Coord {
    (b.x, b.y)
  }

  function Lookup(m: map<Coord, Border>, k: Coord): Option<Border> {
    if k in m then Some(m[k]) else None
  }

  function Min(a: int, b: int): int { if a <= b then a else b }
  function Max(a: int, b: int): int { if a >= b then a else b }

  /** Every stored border sits under its own coordinates. */
  ghost predicate KeyedByPosition(m: map<Coord, Border>) {
    forall k | k in m :: KeyOf(m[k]) == k
  }

  ghost predicate Distinct(o: seq<Coord>) {
    forall i, j | 0 <= i < j < |o| :: o[i] != o[j]
  }

  function Elems(o: seq<Coord>): set<Coord> {
    set k | k in o
  }

  /** `b` is the tight box around the non-empty key set `keys`. */
  ghost predicate Tight(keys: set<Coord>, b: Box) {
    (forall k | k in keys :: b.minX <= k.0 <= b.maxX && b.minY <= k.1 <= b.maxY)
    && (exists k | k in keys :: k.0 == b.minX) && (exists k | k in keys :: k.0 == b.maxX)
    && (exists k | k in keys :: k.1 == b.minY) && (exists k | k in keys :: k.1 == b.maxY)
  }

  /**
   * One step of the running min/max over coordinates; `None` is the start
   * value, where all four limits are still the infinite sentinels.
   */
  function Widen(acc: Option<Box>, k: Coord): Box {
    match acc
    case None => Box(k.0, k.0, k.1, k.1)
    case Some(b) => Box(Min(b.minX, k.0), Max(b.maxX, k.0), Min(b.minY, k.1), Max(b.maxY, k.1))
  }

  /** Widening a tight box by one more key gives the tight box of the larger set. */
  lemma WidenTight(keys: set<Coord>, acc: Option<Box>, k: Coord)
    requires acc.None? ==> keys == {}
    requires acc.Some? ==> Tight(keys, acc.value)
    ensures Tight(keys + {k}, Widen(acc, k))
  {
  }

  /** The map after `Map.set` of each border under its own key, in list order. */
  function Upsert(m: map<Coord, Border>, bs: seq<Border>): map<Coord, Border> {
    if bs == [] then m
    else Upsert(m, bs[..|bs| - 1])[KeyOf(bs[|bs| - 1]) := bs[|bs| - 1]]
  }

  /** The key order after the same upserts: a new key is appended, an existing one keeps its place. */
  function UpsertOrder(o: seq<Coord>, bs: seq<Border>): seq<Coord> {
    if bs == [] then o
    else
      var p := UpsertOrder(o, bs[..|bs| - 1]);
      var k := KeyOf(bs[|bs| - 1]);
      if k in p then p else p + [k]
  }

  /** The map after `Map.delete` of each listed coordinate. */
  function ClearMap(m: map<Coord, Border>, cs: seq<Coord>): map<Coord, Border> {
    if cs == [] then m else ClearMap(m, cs[..|cs| - 1]) - {cs[|cs| - 1]}
  }

  /** The key order with every occurrence of `k` removed. */
  function Without(o: seq<Coord>, k: Coord): seq<Coord> {
    if o == [] then []
    else if o[0] == k then Without(o[1..], k)
    else [o[0]] + Without(o[1..], k)
  }

  /** The key order after deleting each listed coordinate. */
  function ClearOrder(o: seq<Coord>, cs: seq<Coord>): seq<Coord> {
    if cs == [] then o else Without(ClearOrder(o, cs[..|cs| - 1]), cs[|cs| - 1])
  }

  /** The stored values, in the order of `o`. */
  function ValuesInOrder(m: map<Coord, Border>, o: seq<Coord>): seq<Border>
    requires forall k | k in o :: k in m
  {
    if o == [] then [] else [m[o[0]]] + ValuesInOrder(m, o[1..])
  }

  /** The borders stored at `(left..right, y)`, left to right. */
  function RowScan(m: map<Coord, Border>, y: int, left: int, right: int): seq<Border>
    decreases right - left
  {
    if right < left then []
    else RowScan(m, y, left, right - 1) + (if (right, y) in m then [m[(right, y)]] else [])
  }

  /** The borders stored in `[left, right] x [top, bottom]`, row by row from the top. */
  function RectScan(m: map<Coord, Border>, left: int, right: int, top: int, bottom: int): seq<Border>
    decreases bottom - top
  {
    if bottom < top then []
    else RectScan(m, left, right, top, bottom - 1) + RowScan(m, bottom, left, right)
  }

  /** An upsert keeps every old key, adds the key of every listed border, and the last border with a key wins. */
  lemma {:induction false} UpsertLookup(m: map<Coord, Border>, bs: seq<Border>, k: Coord)
    ensures k in Upsert(m, bs) <==> k in m || exists i | 0 <= i < |bs| :: KeyOf(bs[i]) == k
    ensures (forall i | 0 <= i < |bs| :: KeyOf(bs[i]) != k) ==> Lookup(Upsert(m, bs), k) == Lookup(m, k)
    ensures forall i | 0 <= i < |bs| && KeyOf(bs[i]) == k && (forall j | i < j < |bs| :: KeyOf(bs[j]) != k) ::
      k in Upsert(m, bs) && Upsert(m, bs)[k] == bs[i]
  {
    if bs != [] {
      var init := bs[..|bs| - 1];
      UpsertLookup(m, init, k);
      assert forall i | 0 <= i < |init| :: init[i] == bs[i];
    }
  }

  /** Upserting borders keeps every key under its own coordinates. */
  lemma {:induction false} UpsertKeyed(m: map<Coord, Border>, bs: seq<Border>)
    requires KeyedByPosition(m)
    ensures KeyedByPosition(Upsert(m, bs))
  {
    if bs != [] {
      UpsertKeyed(m, bs[..|bs| - 1]);
    }
  }

  /** The upserted key order lists each stored key exactly once. */
  lemma {:induction false} UpsertOrderMatches(m: map<Coord, Border>, o: seq<Coord>, bs: seq<Border>)
    requires Distinct(o) && Elems(o) == m.Keys
    ensures Distinct(UpsertOrder(o, bs)) && Elems(UpsertOrder(o, bs)) == Upsert(m, bs).Keys
  {
    if bs != [] {
      UpsertOrderMatches(m, o, bs[..|bs| - 1]);
    }
  }

  /** Removing a key from a list of distinct keys removes exactly that key. */
  lemma {:induction false} WithoutElems(o: seq<Coord>, k: Coord)
    ensures forall e :: e in Without(o, k) <==> e in o && e != k
    ensures Distinct(o) ==> Distinct(Without(o, k))
  {
    if o != [] {
      WithoutElems(o[1..], k);
      if Distinct(o) {
        assert Distinct(o[1..]);
        assert o[0] !in o[1..];
      }
    }
  }

  /** A clear removes exactly the listed keys and leaves every other entry as it was. */
  lemma {:induction false} ClearMapLookup(m: map<Coord, Border>, cs: seq<Coord>, k: Coord)
    ensures Lookup(ClearMap(m, cs), k) == if k in cs then None else Lookup(m, k)
  {
    if cs != [] {
      ClearMapLookup(m, cs[..|cs| - 1], k);
      assert forall c :: c in cs <==> c in cs[..|cs| - 1] || c == cs[|cs| - 1];
    }
  }

  /** The cleared key order lists each remaining key exactly once. */
  lemma {:induction false} ClearOrderMatches(m: map<Coord, Border>, o: seq<Coord>, cs: seq<Coord>)
    requires Distinct(o) && Elems(o) == m.Keys
    ensures Distinct(ClearOrder(o, cs)) && Elems(ClearOrder(o, cs)) == ClearMap(m, cs).Keys
  {
    if cs != [] {
      ClearOrderMatches(m, o, cs[..|cs| - 1]);
      WithoutElems(ClearOrder(o, cs[..|cs| - 1]), cs[|cs| - 1]);
    }
  }

  /** Clearing every stored coordinate leaves nothing. */
  lemma ClearAllEmpties(m: map<Coord, Border>, cs: seq<Coord>)
    requires forall k | k in m :: k in cs
    ensures ClearMap(m, cs) == map[]
  {
    forall k | k in ClearMap(m, cs)
      ensures false
    {
      ClearMapLookup(m, cs, k);
    }
  }

  /** Clearing keeps every remaining key under its own coordinates. */
  lemma ClearKeyed(m: map<Coord, Border>, cs: seq<Coord>)
    requires KeyedByPosition(m)
    ensures KeyedByPosition(ClearMap(m, cs))
  {
  }

  /** A list of distinct keys is as long as the set of its keys. */
  lemma {:induction false} DistinctCard(o: seq<Coord>)
    requires Distinct(o)
    ensures |Elems(o)| == |o|
  {
    if o != [] {
      DistinctCard(o[1..]);
      assert Elems(o) == Elems(o[1..]) + {o[0]};
      assert o[0] !in Elems(o[1..]);
    }
  }

  /** The values listed in key order: one per key, and the value stored under that key. */
  lemma {:induction false} ValuesInOrderAt(m: map<Coord, Border>, o: seq<Coord>, i: int)
    requires forall k | k in o :: k in m
    requires 0 <= i < |o|
    ensures |ValuesInOrder(m, o)| == |o| && ValuesInOrder(m, o)[i] == m[o[i]]
  {
    ValuesInOrderLength(m, o);
    if i > 0 {
      ValuesInOrderAt(m, o[1..], i - 1);
    }
  }

  lemma {:induction false} ValuesInOrderLength(m: map<Coord, Border>, o: seq<Coord>)
    requires forall k | k in o :: k in m
    ensures |ValuesInOrder(m, o)| == |o|
  {
    if o != [] {
      ValuesInOrderLength(m, o[1..]);
    }
  }

  /** A row scan returns exactly the stored borders of that row within `[left, right]`. */
  lemma {:induction false} RowScanMembers(m: map<Coord, Border>, y: int, left: int, right: int, b: Border)
    requires KeyedByPosition(m)
    ensures b in RowScan(m, y, left, right) <==>
      KeyOf(b) in m && m[KeyOf(b)] == b && b.y == y && left <= b.x <= right
    decreases right - left
  {
    if right >= left {
      RowScanMembers(m, y, left, right - 1, b);
    }
  }

  /** A rectangle scan returns exactly the stored borders inside the inclusive rectangle. */
  lemma {:induction false} RectScanMembers(m: map<Coord, Border>, left: int, right: int, top: int, bottom: int, b: Border)
    requires KeyedByPosition(m)
    ensures b in RectScan(m, left, right, top, bottom) <==>
      KeyOf(b) in m && m[KeyOf(b)] == b && left <= b.x <= right && top <= b.y <= bottom
    decreases bottom - top
  {
    if bottom >= top {
      RectScanMembers(m, left, right, top, bottom - 1, b);
      RowScanMembers(m, bottom, left, right, b);
    }
  }

  /** Every border of a row scan lies in that row, and they come in strictly increasing `x`. */
  lemma {:induction false} RowScanOrdered(m: map<Coord, Border>, y: int, left: int, right: int)
    requires KeyedByPosition(m)
    ensures forall i | 0 <= i < |RowScan(m, y, left, right)| ::
      RowScan(m, y, left, right)[i].y == y && left <= RowScan(m, y, left, right)[i].x <= right
    ensures forall i, j | 0 <= i < j < |RowScan(m, y, left, right)| ::
      RowScan(m, y, left, right)[i].x < RowScan(m, y, left, right)[j].x
    decreases right - left
  {
    if right >= left {
      RowScanOrdered(m, y, left, right - 1);
      if (right, y) in m {
        assert KeyOf(m[(right, y)]) == (right, y);
      }
    }
  }

  /** A rectangle scan is in row-major order: by `y`, then by `x`, with no repeats. */
  lemma {:induction false} RectScanRowMajor(m: map<Coord, Border>, left: int, right: int, top: int, bottom: int)
    requires KeyedByPosition(m)
    ensures forall i | 0 <= i < |RectScan(m, left, right, top, bottom)| ::
      top <= RectScan(m, left, right, top, bottom)[i].y <= bottom
    ensures forall i, j | 0 <= i < j < |RectScan(m, left, right, top, bottom)| ::
      var s := RectScan(m, left, right, top, bottom);
      s[i].y < s[j].y || (s[i].y == s[j].y && s[i].x < s[j].x)
    decreases bottom - top
  {
    if bottom >= top {
      RectScanRowMajor(m, left, right, top, bottom - 1);
      RowScanOrdered(m, bottom, left, right);
      var a := RectScan(m, left, right, top, bottom - 1);
      var r := RowScan(m, bottom, left, right);
      var s := a + r;
      assert forall i | 0 <= i < |s| :: s[i] == if i < |a| then a[i] else r[i - |a|];
    }
  }

  /** A rectangle that misses the tight box of the stored keys scans to nothing. */
  lemma RectScanOutsideBox(m: map<Coord, Border>, b: Box, left: int, right: int, top: int, bottom: int)
    requires KeyedByPosition(m) && Tight(m.Keys, b)
    requires right < b.minX || left > b.maxX || bottom < b.minY || top > b.maxY
    ensures RectScan(m, left, right, top, bottom) == []
  {
    var s := RectScan(m, left, right, top, bottom);
    if s != [] {
      RectScanMembers(m, left, right, top, bottom, s[0]);
    }
  }
}
