/**
 * Specification of one axis (the columns or the rows) of the grid: a sparse
 * table of size overrides keyed by index, a default size for every index
 * without an override, and the pixel placement that results from laying the
 * indices out side by side with index 0 starting at pixel 0.
 */
module Axis {

  /** An explicit size override for one row or one column. */
  datatype Heading = Heading(id: int, size: int)

  /** The overrides of one axis, keyed by index. */
  type Table = map<int, Heading>

  /** Size of index `i`: the override's size if there is one, else the default. */
  function SizeAt(t: Table, dflt: int, i: int): int {
    if i in t then t[i].size else dflt
  }

  /** Every size on the axis is strictly positive. */
  ghost predicate Positive(t: Table, dflt: int) {
    dflt > 0 && forall i | i in t :: t[i].size > 0
  }

  /** Sum of the sizes of the indices `lo .. hi-1`. */
  function SumSizes(t: Table, dflt: int, lo: int, hi: int): int
    decreases hi - lo
  {
    if hi <= lo then 0 else SumSizes(t, dflt, lo, hi - 1) + SizeAt(t, dflt, hi - 1)
  }

  /**
   * Pixel position of the leading edge of index `i`: the sizes of `0 .. i-1`
   * added up for a non-negative index, the sizes of `i .. -1` subtracted for
   * a negative one.
   */
  function StartOf(t: Table, dflt: int, i: int): int {
    if i >= 0 then SumSizes(t, dflt, 0, i) else -SumSizes(t, dflt, i, 0)
  }

  /**
   * Index `j` is the one the inverse walk reports for pixel `x`. For `x >= 0`
   * the cell's far edge belongs to it, so an exact leading edge of index
   * `j + 1 > 0` is reported as `j`; for `x < 0` the leading edge belongs to it.
   */
  predicate Covers(t: Table, dflt: int, x: int, j: int) {
    if x >= 0 then
      0 <= j && StartOf(t, dflt, j) <= x <= StartOf(t, dflt, j) + SizeAt(t, dflt, j)
      && (j > 0 ==> StartOf(t, dflt, j) < x)
    else
      j < 0 && StartOf(t, dflt, j) <= x < StartOf(t, dflt, j) + SizeAt(t, dflt, j)
  }

  /** A sum can be split off at its low end as well as at its high end. */
  lemma {:induction false} SumSizesFront(t: Table, dflt: int, lo: int, hi: int)
    requires lo < hi
    ensures SumSizes(t, dflt, lo, hi) == SizeAt(t, dflt, lo) + SumSizes(t, dflt, lo + 1, hi)
    decreases hi - lo
  {
    if lo + 1 < hi {
      SumSizesFront(t, dflt, lo, hi - 1);
    }
  }

  /** Placements are contiguous across the origin: each index ends where the next one starts. */
  lemma {:induction false} Contiguous(t: Table, dflt: int, c: int)
    ensures StartOf(t, dflt, c) + SizeAt(t, dflt, c) == StartOf(t, dflt, c + 1)
  {
    if c < -1 {
      SumSizesFront(t, dflt, c, 0);
    } else if c == -1 {
      assert SumSizes(t, dflt, -1, 0) == SumSizes(t, dflt, -1, -1) + SizeAt(t, dflt, -1);
    }
  }

  /** With positive sizes the leading edge is strictly increasing in the index. */
  lemma {:induction false} StartIncreasing(t: Table, dflt: int, i: int, j: int)
    requires Positive(t, dflt)
    requires i < j
    ensures StartOf(t, dflt, i) < StartOf(t, dflt, j)
    decreases j - i
  {
    Contiguous(t, dflt, i);
    if i + 1 < j {
      StartIncreasing(t, dflt, i + 1, j);
    }
  }

  /** Index 0 sits at pixel 0; non-negative indices start at or right of it, negative ones left of it. */
  lemma StartSign(t: Table, dflt: int, i: int)
    requires Positive(t, dflt)
    ensures StartOf(t, dflt, 0) == 0
    ensures i >= 0 <==> StartOf(t, dflt, i) >= 0
  {
    if i > 0 {
      StartIncreasing(t, dflt, 0, i);
    } else if i < 0 {
      StartIncreasing(t, dflt, i, 0);
    }
  }

  /** At most one index covers a pixel. */
  lemma CoversUnique(t: Table, dflt: int, x: int, j: int, k: int)
    requires Positive(t, dflt)
    requires Covers(t, dflt, x, j) && Covers(t, dflt, x, k)
    ensures j == k
  {
    if j != k {
      var lo, hi := if j < k then j else k, if j < k then k else j;
      Contiguous(t, dflt, lo);
      if lo + 1 < hi {
        StartIncreasing(t, dflt, lo + 1, hi);
      }
    }
  }

  /**
   * Every pixel strictly inside a cell is covered by that cell's index, and
   * so is the leading edge of a negative index.
   */
  lemma CoversInterior(t: Table, dflt: int, i: int, x: int)
    requires Positive(t, dflt)
    requires StartOf(t, dflt, i) < x < StartOf(t, dflt, i) + SizeAt(t, dflt, i)
             || (i < 0 && x == StartOf(t, dflt, i))
    ensures Covers(t, dflt, x, i)
  {
    StartSign(t, dflt, i);
    Contiguous(t, dflt, i);
    if i < 0 {
      StartSign(t, dflt, i + 1);
    }
  }

  /**
   * The inverse walk applied to a leading edge: it gives back the index
   * itself for `i <= 0`, but the index before it for `i > 0`, because for
   * non-negative pixels an exact edge is counted in the lower cell.
   */
  lemma LeftEdge(t: Table, dflt: int, i: int, j: int)
    requires Positive(t, dflt)
    ensures Covers(t, dflt, StartOf(t, dflt, i), j) <==> j == (if i > 0 then i - 1 else i)
  {
    var x := StartOf(t, dflt, i);
    var e := if i > 0 then i - 1 else i;
    StartSign(t, dflt, i);
    if i > 0 {
      Contiguous(t, dflt, i - 1);
      StartSign(t, dflt, i - 1);
    }
    assert Covers(t, dflt, x, e);
    if Covers(t, dflt, x, j) {
      CoversUnique(t, dflt, x, j, e);
    }
  }

  /** The override table built from a list of headings, later headings replacing earlier ones. */
  function TableOf(hs: seq<Heading>): Table {
    if hs == [] then map[] else TableOf(hs[..|hs| - 1])[hs[|hs| - 1].id := hs[|hs| - 1]]
  }

  /**
   * An index has an override iff some heading in the list has that id, and
   * the override is the last such heading.
   */
  lemma {:induction false} TableOfLookup(hs: seq<Heading>, k: int)
    ensures k in TableOf(hs) <==> exists i | 0 <= i < |hs| :: hs[i].id == k
    ensures k in TableOf(hs) ==>
      exists i | 0 <= i < |hs| ::
        TableOf(hs)[k] == hs[i] && hs[i].id == k && forall j | i < j < |hs| :: hs[j].id != k
  {
    if hs != [] {
      var init := hs[..|hs| - 1];
      TableOfLookup(init, k);
      if hs[|hs| - 1].id != k {
        if k in TableOf(hs) {
          var i :| 0 <= i < |init| && TableOf(init)[k] == init[i] && init[i].id == k
                   && forall j | i < j < |init| :: init[j].id != k;
          assert hs[i] == init[i];
        }
        if exists i | 0 <= i < |hs| :: hs[i].id == k {
          var i :| 0 <= i < |hs| && hs[i].id == k;
          assert init[i].id == k;
        }
      }
    }
  }

  /** Building the table from positive headings gives a positive axis. */
  lemma TableOfPositive(hs: seq<Heading>, dflt: int)
    requires dflt > 0
    requires forall h | h in hs :: h.size > 0
    ensures Positive(TableOf(hs), dflt)
  {
  }
}
