# Grid data layer of the Quadratic spreadsheet, in Dafny

This project models three sequential pieces of the grid data layer of the Quadratic spreadsheet and proves properties of them:

- **Axis offsets** (`GridOffsets`). Each axis has a sparse table of column-width and row-height overrides ("headings"). Every index without an override gets a fixed default size. The class maps a column or row index to its pixel placement by summing sizes outward from index 0. It maps a pixel back to the index that contains it by walking outward with `while` loops. Module `Axis` gives the closed-form specification (recursive sums, the containment predicate `Covers`) and its lemmas. Module `Offsets` holds the class.
- **Sparse border index** (`GridBorders`). A map from cell coordinate to `Border`, with a cached bounding box (`minX/maxX/minY/maxY`) and an `isEmpty` flag. The source's JavaScript `Map` iterates in insertion order, so the model keeps the map's key order in a second field, `order`. Module `BorderIndex` gives the specification functions (the upsert and delete folds, the tight box, the row-major rectangle scan) and their lemmas. Module `Borders` holds the class.
- **SET_CELL runner** (`SetCellRunner`). It applies one `SET_CELL` statement to the sheet's cell store and returns the reverse statement, which is the building block of undo and redo. Module `SetCell` models the cell store as a class over a `map`, the runner as a method, and the runner's effect as the function `Run`. The undo round trip is proved about `Run`.

Sizes, pixel positions and coordinates are mathematical integers. String keys `"x,y"` become pairs `(x, y)`. The `Infinity`/`-Infinity` sentinels become `None` of an `Option`. Every method that changes state states its whole new state in terms of specification functions. The lemmas state what those functions guarantee.

Behaviour of the code worth knowing:

- The index walk is not an exact inverse of placement. The exact leading edge of column `i` comes back as `i` only for `i <= 0`. For `i > 0` it is reported as column `i - 1` (lemma `Axis.LeftEdge`).
- `recalculateBounds` never sets `isEmpty` to false. So after `update` on an empty index, the border is stored but `getGridBounds()` returns nothing (`Borders.UpdateOfEmptyHidesGridBounds`). The model's invariant is therefore only `!isEmpty ==> entries exist`.
- `getBorders` scans the whole rectangle, with no clipping to the cached box. Its result for a rectangle outside the box is still empty (`BorderIndex.RectScanOutsideBox`).
- `getRowMinMax` returns the `Infinity`/`-Infinity` sentinels for an empty row, where `getColumnMinMax` returns `undefined` for an empty column.

## Model

| member | source | states |
|---|---|---|
| `Axis.SumSizesFront` | src/core/gridDB/gridOffsets.ts:30-35 | a sum of sizes over `lo..hi-1` also splits at its low end, which is the order the negative placement loop subtracts in |
| `Axis.Contiguous` | src/core/gridDB/gridOffsets.ts:23-36 | for every integer `c`, including across the origin, `start(c) + size(c) == start(c+1)` |
| `Axis.StartIncreasing` | src/core/gridDB/gridOffsets.ts:23-36 | with positive sizes the leading edge is strictly increasing in the index, so extents never overlap |
| `Axis.StartSign` | src/core/gridDB/gridOffsets.ts:24-35 | index 0 sits at pixel 0; an index is non-negative iff its leading edge is at a non-negative pixel |
| `Axis.CoversUnique` | src/core/gridDB/gridOffsets.ts:53-73 | with positive sizes at most one index satisfies the inverse walk's containment condition for a pixel |
| `Axis.CoversInterior` | src/core/gridDB/gridOffsets.ts:53-73 | a pixel strictly inside a cell, or the leading edge of a negative index, is covered by that index |
| `Axis.LeftEdge` | src/core/gridDB/gridOffsets.ts:53-72 | the index covering the leading edge of `i` is `i` for `i <= 0` and `i - 1` for `i > 0` (both directions) |
| `Axis.TableOfLookup` | src/core/gridDB/gridOffsets.ts:8-13 | an index has an override iff some input heading has that id, and the override is the last such heading |
| `Axis.TableOfPositive` | src/core/gridDB/gridOffsets.ts:8-13 | a table built from positive headings has only positive sizes |
| `Offsets.GridOffsets.constructor` | src/core/gridDB/gridOffsets.ts:5-6 | both override tables start empty |
| `Offsets.GridOffsets.Populate` | src/core/gridDB/gridOffsets.ts:8-13 | both tables are replaced wholesale by the tables built from the heading lists; all sizes stay positive |
| `Offsets.GridOffsets.GetColumnWidth` | src/core/gridDB/gridOffsets.ts:15-17 | the override's size when column has one, else `CELL_WIDTH`; positive on a valid object |
| `Offsets.GridOffsets.GetRowHeight` | src/core/gridDB/gridOffsets.ts:19-21 | the override's size when row has one, else `CELL_HEIGHT`; positive on a valid object |
| `Offsets.GridOffsets.GetColumnPlacement` | src/core/gridDB/gridOffsets.ts:23-36 | `x` is the sum of widths of `0..column-1` for `column >= 0` and minus the sum of `column..-1` otherwise; `width` is the column's width |
| `Offsets.GridOffsets.GetRowPlacement` | src/core/gridDB/gridOffsets.ts:38-51 | the same for rows: `y` is the signed sum of heights outward from row 0, `height` the row's height |
| `Offsets.GridOffsets.GetColumnIndex` | src/core/gridDB/gridOffsets.ts:53-73 | terminates on positive widths; `position` is the leading edge of `index`; for `x >= 0`: `index >= 0`, `position <= x <= position + width`, and `position < x` when `index > 0`; for `x < 0`: `index < 0`, `position <= x < position + width` |
| `Offsets.GridOffsets.GetRowIndex` | src/core/gridDB/gridOffsets.ts:75-95 | the same containment result for rows and heights |
| `Offsets.GridOffsets.GetRowColumnFromWorld` | src/core/gridDB/gridOffsets.ts:97-99 | the column covers `x` and the row covers `y`, as the two index walks define it |
| `Offsets.GridOffsets.GetCell` | src/core/gridDB/gridOffsets.ts:101-110 | the cell rectangle combines the column placement (x, width) and the row placement (y, height) |
| `BorderIndex.WidenTight` | quadratic-client/src/core/gridDB/GridBorders.ts:43-49 | one step of the running min/max turns the tight box of a key set into the tight box of that set plus one key |
| `BorderIndex.UpsertLookup` | quadratic-client/src/core/gridDB/GridBorders.ts:79-84 | upserting keeps every old key, adds each border's own key, leaves untouched keys as they were, and the last border with a key wins |
| `BorderIndex.UpsertKeyed` | quadratic-client/src/core/gridDB/GridBorders.ts:79-84 | after upserts every border is still stored under its own coordinates |
| `BorderIndex.UpsertOrderMatches` | quadratic-client/src/core/gridDB/GridBorders.ts:79-84 | the map's insertion order after upserts lists each stored key exactly once |
| `BorderIndex.WithoutElems` | quadratic-client/src/core/gridDB/GridBorders.ts:74-76 | deleting a key from the insertion order removes exactly that key and keeps the others distinct |
| `BorderIndex.ClearMapLookup` | quadratic-client/src/core/gridDB/GridBorders.ts:74-76 | a clear removes exactly the listed coordinates and leaves every other entry unchanged |
| `BorderIndex.ClearOrderMatches` | quadratic-client/src/core/gridDB/GridBorders.ts:74-76 | the insertion order after a clear lists each remaining key exactly once |
| `BorderIndex.ClearAllEmpties` | quadratic-client/src/core/gridDB/GridBorders.ts:74-77 | clearing every stored coordinate leaves no entries |
| `BorderIndex.ClearKeyed` | quadratic-client/src/core/gridDB/GridBorders.ts:74-76 | after a clear every remaining border is still stored under its own coordinates |
| `BorderIndex.DistinctCard` | quadratic-client/src/core/gridDB/GridBorders.ts:53 | a duplicate-free key order is as long as the key set, so the map's size is the length of its order |
| `BorderIndex.ValuesInOrderAt` | quadratic-client/src/core/gridDB/GridBorders.ts:153-155 | the listed values are one per key, each the value stored under that key, in key order |
| `BorderIndex.ValuesInOrderLength` | quadratic-client/src/core/gridDB/GridBorders.ts:153-155 | the array has one value per key of the order |
| `BorderIndex.RowScanMembers` | quadratic-client/src/core/gridDB/GridBorders.ts:89-92 | one row of the scan returns exactly the stored borders of that row within `[left, right]` |
| `BorderIndex.RectScanMembers` | quadratic-client/src/core/gridDB/GridBorders.ts:86-95 | the scan returns exactly the stored borders inside the inclusive rectangle |
| `BorderIndex.RowScanOrdered` | quadratic-client/src/core/gridDB/GridBorders.ts:89-92 | one row of the scan is in that row and in strictly increasing `x` |
| `BorderIndex.RectScanRowMajor` | quadratic-client/src/core/gridDB/GridBorders.ts:86-95 | the scan is in row-major order, by `y` then `x`, with no repeats |
| `BorderIndex.RectScanOutsideBox` | quadratic-client/src/core/gridDB/GridBorders.ts:86-95 | a rectangle that misses the tight box of the stored keys scans to nothing |
| `Borders.GridBorders.constructor` | quadratic-client/src/core/gridDB/GridBorders.ts:8-13 | a new index has no borders, a zero box and `isEmpty` set |
| `Borders.GridBorders.Empty` | quadratic-client/src/core/gridDB/GridBorders.ts:19-26 | no borders, all four bounds 0, `isEmpty` true |
| `Borders.GridBorders.Populate` | quadratic-client/src/core/gridDB/GridBorders.ts:32-50 | a missing or empty list behaves as `empty()`; otherwise each border is stored under its own key (last wins), `isEmpty` is false and the box is tight over the stored keys |
| `Borders.GridBorders.RecalculateBounds` | quadratic-client/src/core/gridDB/GridBorders.ts:52-67 | entries unchanged; an empty map empties the index; otherwise the box becomes tight; `isEmpty` is never cleared |
| `Borders.ScanBounds` | quadratic-client/src/core/gridDB/GridBorders.ts:57-66 | the running min/max over every stored border gives the tight box of the stored keys |
| `Borders.GridBorders.Get` | quadratic-client/src/core/gridDB/GridBorders.ts:69-72 | nothing outside `[minX,maxX] x [minY,maxY]`; on a valid index exactly the stored border at `(x, y)`, if any |
| `Borders.GridBorders.Clear` | quadratic-client/src/core/gridDB/GridBorders.ts:74-77 | deletes exactly the listed coordinates, recomputes the box, and clearing every entry returns to the `empty()` state |
| `Borders.GridBorders.Update` | quadratic-client/src/core/gridDB/GridBorders.ts:79-84 | upserts each border under its own key, recomputes the tight box, and leaves `isEmpty` as it was |
| `Borders.GridBorders.GetBorders` | quadratic-client/src/core/gridDB/GridBorders.ts:86-95 | returns the row-major scan of the stored borders in `[left,right] x [top,bottom]` |
| `Borders.GridBorders.GetBounds` | quadratic-client/src/core/gridDB/GridBorders.ts:97-109 | the requested column and row index range clamped to the cached box, each edge being the request or the box edge |
| `Borders.GridBorders.GetGridBounds` | quadratic-client/src/core/gridDB/GridBorders.ts:111-114 | nothing iff `isEmpty`; otherwise a rectangle that is the tight box of the stored keys |
| `Borders.GridBorders.GetRowMinMax` | quadratic-client/src/core/gridDB/GridBorders.ts:116-132 | the smallest and largest `x` stored in the row; both are the infinite sentinels iff the row has no border |
| `Borders.GridBorders.GetColumnMinMax` | quadratic-client/src/core/gridDB/GridBorders.ts:134-151 | nothing iff the column has no border; otherwise the smallest and largest `y` stored in it |
| `Borders.GridBorders.GetArray` | quadratic-client/src/core/gridDB/GridBorders.ts:153-155 | one value per stored border, in the map's insertion order |
| `Borders.UpdateOfEmptyHidesGridBounds` | quadratic-client/src/core/gridDB/GridBorders.ts:52-67 | after an update of a new, empty index the border is readable but `getGridBounds()` returns nothing |
| `SetCell.Grid.GetCell` | quadratic-client/src/core/transaction/runners/setCellRunner.ts:16 | the cell stored at `(x, y)`, or nothing when the position is empty |
| `SetCell.Grid.DeleteCells` | quadratic-client/src/core/transaction/runners/setCellRunner.ts:20 | the store after deleting each listed coordinate in turn |
| `SetCell.DeleteAllLookup` | quadratic-client/src/core/transaction/runners/setCellRunner.ts:20 | a delete removes exactly the listed coordinates and leaves every other cell as it was |
| `SetCell.Grid.UpdateCells` | quadratic-client/src/core/transaction/runners/setCellRunner.ts:36 | the store after writing each cell under its own coordinates, in list order |
| `SetCell.StoreAllLookup` | quadratic-client/src/core/transaction/runners/setCellRunner.ts:36 | an update keeps every other cell, adds each listed cell's own coordinates, and the last cell listed for a coordinate wins |
| `SetCell.CopyCell` | quadratic-client/src/core/transaction/runners/setCellRunner.ts:7-10 | an absent cell copies to absent; a present cell copies to an equal value |
| `SetCell.Run` | quadratic-client/src/core/transaction/runners/setCellRunner.ts:12-50 | a non-SET_CELL statement is an error; the reverse is SET_CELL at the same position with the old value; no value deletes the position; a value is stored under its own coordinates; every other position is unchanged |
| `SetCell.SetCellRunner` | quadratic-client/src/core/transaction/runners/setCellRunner.ts:12-50 | the grid and the returned statement are what `Run` gives; on an error the grid is untouched |
| `SetCell.RunKeepsWellPlaced` | quadratic-client/src/core/transaction/runners/setCellRunner.ts:36 | if every stored cell sits under its own coordinates, it still does after the runner |
| `SetCell.RoundTrip` | quadratic-client/src/core/transaction/runners/setCellRunner.ts:16-48 | with a well-placed store and a value absent or at the position, applying the statement and then its reverse restores the whole store, and the reverse of the reverse is the statement |
| `SetCell.MisplacedValueSurvivesUndo` | quadratic-client/src/core/transaction/runners/setCellRunner.ts:36 | setting `(0,0)` to a cell at `(1,1)` on an empty grid, then undoing, leaves the cell at `(1,1)` |

## Left out

- Floating point: sizes and positions are JavaScript numbers in the source. Here they are integers, so fractional sizes, rounding, `NaN` and infinite positions are not modelled.
- `CELL_WIDTH`/`CELL_HEIGHT`: the constants file is not part of this model. The model uses 100 and 20; the proofs use only that both are positive.
- Offsets.GridOffsets.Populate: requires every heading size to be positive, which the source never checks. Without it the inverse walks need not terminate.
- Offsets.GridOffsets.GetColumnIndex: requires positive widths (the object invariant) for the same reason. `GetRowIndex` and `GetRowColumnFromWorld` require positive heights likewise.
- `Heading`: only `id` and `size` are modelled, and `size` is always present. The `?? CELL_WIDTH` / `?? CELL_HEIGHT` fallback for a heading whose `size` is missing is not modelled, because the `Heading` type (`db.ts`) is not part of this model. The table is keyed by the integer id rather than by its string form.
- `Border` and `Cell`: only `x` and `y` are read by the code modelled. The rest of each record is carried as one opaque string field.
- Borders.GridBorders.GetBounds: the column and row index lookups it makes go to a different `GridOffsets` module, which is not part of this model. The four index results are parameters instead, and only the clamp is modelled. The `gridOffsets` constructor parameter is left out for the same reason.
- Non-integer coordinates: the string key `"x,y"` is modelled as an integer pair, so keys built from fractional numbers are not modelled.
- `setCellRunner.ts` side effects: `app.quadrants.quadrantChanged`, `app.cells.dirty` and `localFiles.saveLastLocal` are rendering and persistence calls and are left out.
- The sheet and its grid store (`Sheet`, `getCell`, `deleteCells`, `updateCells`) are not part of this model. The model's `Grid` class assumes they behave as a map keyed by the cells' own coordinates and touch only the listed coordinates. The runner receives this grid directly instead of `sheet.grid`.
- SetCell.CopyCell: cells are values here, so the fact that the spread creates a new object (no aliasing with the stored cell) is not modelled.
- Undo/redo stack and transaction grouping: not among the source files modelled.
- Statements other than SET_CELL: only their rejection by the runner is modelled, not their payloads.
