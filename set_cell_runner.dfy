/**
 * The SET_CELL statement runner: it writes one cell of the sheet's grid (or
 * deletes it) and returns the reverse statement, the building block of
 * undo and redo.
 */
module SetCell {
  import opened Wrappers

  type Coord = (int, int)

  /** A cell's content; only its coordinates matter here, the rest is carried opaquely. */
  datatype Cell = Cell(x: int, y: int, content: string)

  /** The `type` tag of a statement the SET_CELL runner does not handle. */
  type OtherKind = k: string | k != "SET_CELL" witness "SET_BORDER"

  /** A statement: SET_CELL with its position and new value, or a statement of another type. */
  datatype Statement =
    | SetCellStatement(position: Coord, value: Option<Cell>)
    | OtherStatement(kind: OtherKind)

  /** The grid's cells after the runner and the reverse statement it returned. */
  datatype Applied = Applied(cells: map<Coord, Cell>, reverse: Statement)

  function CellKey(c: Cell): Coord {
    (c.x, c.y)
  }

  function Lookup(m: map<Coord, Cell>, k: Coord): Option<Cell> {
    if k in m then Some(m[k]) else None
  }

  /** Every stored cell sits under its own coordinates. */
  ghost predicate WellPlaced(m: map<Coord, Cell>) {
    forall k | k in m :: CellKey(m[k]) == k
  }

  /** The cells after deleting each listed coordinate. */
  function DeleteAll(m: map<Coord, Cell>, coords: seq<Coord>): map<Coord, Cell> {
    if coords == [] then m else DeleteAll(m, coords[..|coords| - 1]) - {coords[|coords| - 1]}
  }

  /** The cells after storing each listed cell under its own coordinates. */
  function StoreAll(m: map<Coord, Cell>, cs: seq<Cell>): map<Coord, Cell> {
    if cs == [] then m
    else StoreAll(m, cs[..|cs| - 1])[CellKey(cs[|cs| - 1]) := cs[|cs| - 1]]
  }

  /** A delete removes exactly the listed coordinates and leaves every other cell as it was. */
  lemma {:induction false} DeleteAllLookup(m: map<Coord, Cell>, coords: seq<Coord>, k: Coord)
    ensures Lookup(DeleteAll(m, coords), k) == if k in coords then None else Lookup(m, k)
  {
    if coords != [] {
      DeleteAllLookup(m, coords[..|coords| - 1], k);
      assert forall c :: c in coords <==> c in coords[..|coords| - 1] || c == coords[|coords| - 1];
    }
  }

  /**
   * An update keeps every other cell, stores each listed cell under its own
   * coordinates, and the last cell listed for a coordinate wins.
   */
  lemma {:induction false} StoreAllLookup(m: map<Coord, Cell>, cs: seq<Cell>, k: Coord)
    ensures k in StoreAll(m, cs) <==> k in m || exists i | 0 <= i < |cs| :: CellKey(cs[i]) == k
    ensures (forall i | 0 <= i < |cs| :: CellKey(cs[i]) != k) ==> Lookup(StoreAll(m, cs), k) == Lookup(m, k)
    ensures forall i | 0 <= i < |cs| && CellKey(cs[i]) == k && (forall j | i < j < |cs| :: CellKey(cs[j]) != k) ::
      k in StoreAll(m, cs) && StoreAll(m, cs)[k] == cs[i]
  {
    if cs != [] {
      var init := cs[..|cs| - 1];
      StoreAllLookup(m, init, k);
      assert forall i | 0 <= i < |init| :: init[i] == cs[i];
    }
  }

  /** The sheet's cell store, as far as the runner uses it. */
  class Grid {
    var cells: map<Coord, Cell>

    constructor ()
      ensures cells == map[]
    {
      cells := map[];
    }

    function GetCell(x: int, y: int): (c: Option<Cell>)
      reads this
      ensures c.Some? <==> (x, y) in cells
      ensures c.Some? ==> c.value == cells[(x, y)]
    {
      Lookup(cells, (x, y))
    }

    method DeleteCells(coords: seq<Coord>)
      modifies this
      ensures cells == DeleteAll(old(cells), coords)
    {
      ghost var m0 := cells;
      for i := 0 to |coords|
        invariant cells == DeleteAll(m0, coords[..i])
      {
        assert coords[..i + 1][..i] == coords[..i];
        cells := cells - {coords[i]};
      }
      assert coords[..|coords|] == coords;
    }

    method UpdateCells(cs: seq<Cell>)
      modifies this
      ensures cells == StoreAll(old(cells), cs)
    {
      ghost var m0 := cells;
      for i := 0 to |cs|
        invariant cells == StoreAll(m0, cs[..i])
      {
        assert cs[..i + 1][..i] == cs[..i];
        cells := cells[CellKey(cs[i]) := cs[i]];
      }
      assert cs[..|cs|] == cs;
    }
  }

  /** A copy of a possibly absent cell: absent stays absent, a present cell copies to an equal value. */
  function CopyCell(cell: Option<Cell>): (r: Option<Cell>)
    ensures r.None? <==> cell.None?
    ensures r == cell
  {
    match cell
    case None => None
    case Some(c) => Some(Cell(c.x, c.y, c.content))
  }

  /**
   * What the runner does to the cells, as a function: a statement of another
   * type is an error; otherwise the old value at the position is read first,
   * then the position is deleted (no new value) or the new value is stored
   * under its own coordinates, and the reverse statement carries the old value.
   */
  function Run(cells: map<Coord, Cell>, st: Statement): (r: Result<Applied>)
    ensures r.Err? <==> st.OtherStatement?
    ensures r.Ok? ==> r.value.reverse == SetCellStatement(st.position, Lookup(cells, st.position))
    ensures r.Ok? && st.value.None? ==> st.position !in r.value.cells
    ensures r.Ok? && st.value.Some? ==>
      CellKey(st.value.value) in r.value.cells && r.value.cells[CellKey(st.value.value)] == st.value.value
    ensures r.Ok? ==> forall k | k != (if st.value.None? then st.position else CellKey(st.value.value)) ::
      Lookup(r.value.cells, k) == Lookup(cells, k)
  {
    match st
    case OtherStatement(_) => Err("Incorrect statement type.")
    case SetCellStatement(position, newValue) =>
      var oldValue := CopyCell(Lookup(cells, position));
      var after := if newValue.None? then cells - {position} else cells[CellKey(newValue.value) := newValue.value];
      Ok(Applied(after, SetCellStatement(position, oldValue)))
  }

  /**
   * Applies one statement to the grid and returns the reverse statement.
   * The grid is untouched when the statement is not a SET_CELL.
   */
  method SetCellRunner(grid: Grid, st: Statement) returns (r: Result<Statement>)
    modifies grid
    ensures Run(old(grid.cells), st).Err? ==> r.Err? && grid.cells == old(grid.cells)
    ensures Run(old(grid.cells), st).Ok? ==>
      r == Ok(Run(old(grid.cells), st).value.reverse) && grid.cells == Run(old(grid.cells), st).value.cells
  {
    if st.OtherStatement? {
      return Err("Incorrect statement type.");
    }
    var position := st.position;
    var oldValue := CopyCell(grid.GetCell(position.0, position.1));
    if st.value.None? {
      grid.DeleteCells([position]);
      assert [position][..0] == [];
    } else {
      grid.UpdateCells([st.value.value]);
      assert [st.value.value][..0] == [];
    }
    return Ok(SetCellStatement(position, oldValue));
  }

  /** The runner stores a cell only under its own coordinates, so it keeps every cell well placed. */
  lemma RunKeepsWellPlaced(cells: map<Coord, Cell>, st: Statement)
    requires WellPlaced(cells) && st.SetCellStatement?
    ensures WellPlaced(Run(cells, st).value.cells)
  {
  }

  /**
   * Undo restores the grid: when the new value is absent or sits at the
   * statement's position and every stored cell is well placed, applying the
   * statement and then its reverse gives back the original cells, and
   * reversing the reverse gives back the original statement (redo).
   */
  lemma RoundTrip(cells: map<Coord, Cell>, st: Statement)
    requires WellPlaced(cells)
    requires st.SetCellStatement?
    requires st.value.Some? ==> CellKey(st.value.value) == st.position
    ensures Run(cells, st).Ok?
    ensures Run(Run(cells, st).value.cells, Run(cells, st).value.reverse).Ok?
    ensures Run(Run(cells, st).value.cells, Run(cells, st).value.reverse).value.cells == cells
    ensures Run(Run(cells, st).value.cells, Run(cells, st).value.reverse).value.reverse == st
  {
  }

  /**
   * The runner does not check that a new value's coordinates match the
   * position: setting (0, 0) to a cell at (1, 1) on an empty grid stores the
   * cell at (1, 1), and the reverse statement only deletes (0, 0), so undo
   * leaves the stray cell behind.
   */
  lemma MisplacedValueSurvivesUndo()
    ensures var st := SetCellStatement((0, 0), Some(Cell(1, 1, "A")));
      var once := Run(map[], st).value;
      once.reverse == SetCellStatement((0, 0), None)
      && Run(once.cells, once.reverse).value.cells == map[(1, 1) := Cell(1, 1, "A")]
  {
  }
}
