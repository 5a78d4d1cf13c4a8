# quill-better-table: the table blots and their editing operations

This project models `src/formats/table.js` of quill-better-table, the Quill table module.
A table is a column group (`TableColGroup`, a list of `TableCol`) and a body (`TableBody`).
The body is a list of rows (`TableRow`). Each row holds cells (`TableCell`), and each cell
holds cell lines (`TableCellLine`). Every blot keeps its state in `data-*` attributes: a
line carries its row id, cell id, spans and styles; a cell carries its row id, spans and
styles; a row carries its id and height; a column carries its width and the table-level
figures.

The model has three layers.

- **Attribute store** (`TableFormats`, `JsValues`, `Ids`). Here `create`, `formats()` and
  `format(name, value)` of the four blots are functions over attribute maps. Values are
  JavaScript values (`undefined`, `null`, `NaN`, numbers, strings), with JavaScript
  truthiness, `String(v)` on storing, and `parseInt`/`parseFloat` on reading. Ids come
  from a counter, as `row-<n>` and `cell-<n>`.
- **Hit tests and arithmetic** (`HitTest`, `Layout`, `Lists`, `Sorting`). These are the
  rectangle comparisons with the tolerance `ERROR_LIMIT = 5`, the point/pixel
  conversions, the column-width tests, and the list primitives the blots use:
  `insertBefore`, `remove`, `find`, `reduce` and a stable `sort`.
- **Editing operations.**
  - Each operation of `TableContainer` has a module of specification functions and
    lemmas: `DeleteColumnsSpec`, `DeleteRowSpec`, `InsertColumnSpec`, `InsertRowSpec`,
    `CellFactory` (for `insertCell`), `MergeCellsSpec` and `UnmergeCellsSpec`.
  - The class `TableContainer.Table` holds the fields `cols`, `rows`, `destroyed` and
    `nextId`. Its methods update them as those functions compute.
  - `rows()` is the `rows` field, read through `Table.Rows`.

Each method's contract also states the outcome the source reaches:
- `NoBody`: the early return on a body without rows.
- `Destroyed`: `tableDestroy`.
- `Done`: the operation ran to the end.
- `Threw`: a `TypeError` part way through. The state left behind is the one the source
  leaves at that point.

## Model

| member | source | states |
|---|---|---|
| JsValues.Toggle | src/formats/table.js:506-512 | `toggleAttribute`: the key is present exactly when the value is truthy, it holds `String(value)`, and every other key stays |
| JsValues.TruthyStoresNonEmpty | src/formats/table.js:506-512 | a truthy value is stored as a non-empty string that reads back truthy; a string value reads back unchanged |
| JsValues.ToNumber | src/formats/table.js:1485 | `Number(v)` of an attribute string with a unit suffix is `NaN` |
| JsValues.Trunc | src/formats/table.js:1009-1010 | `parseInt` of a number drops the fraction toward zero, for negative values too |
| Ids.IdsAreFresh | src/formats/table.js:1583-1595 | ids minted from different counter values differ; a row id never equals a cell id |
| Ids.Digits | src/formats/table.js:1583-1595 | the id suffix is a non-empty string of decimal digits, one digit exactly below 10 |
| Ids.DigitsInjective | src/formats/table.js:1583-1595 | the decimal suffix of an id determines the counter value |
| TableFormats.LineCreate | src/formats/table.js:32-93 | `TableCellLine.create`: `row`/`cell` fall back to fresh ids, the spans fall back to 1, and a truthy given value is stored as given |
| TableFormats.WrittenMeaning | src/formats/table.js:45-92 | the chain of `if (value[k]) setAttribute(...)` steps writes exactly the keys whose value is truthy, each with its value |
| TableFormats.LineCreateStyles | src/formats/table.js:32-93 | a style attribute is written exactly when its value is truthy, and only the keys `formats()` reports are written |
| TableFormats.LineCreateReadsBack | src/formats/table.js:32-118 | what `create` was given reads back from `formats()`: truthy ids and spans as given, missing ones as the fallback id or 1 |
| TableFormats.LineFormat | src/formats/table.js:120-212 | `TableCellLine.format`: a known name toggles its stored attribute; any other name leaves the line |
| TableFormats.LineFormatReadsBack | src/formats/table.js:95-212 | after a falsy write `formats()` no longer reports the key; after a truthy write it reports the stored string (a string as given); every other key reads as before |
| TableFormats.ColCreate | src/formats/table.js:772-778 | `TableCol.create` writes every column attribute, a falsy one as `COL_DEFAULT`'s value |
| TableFormats.ColFormat | src/formats/table.js:790-796 | `TableCol.format`: a falsy value writes the default instead of removing; other names and attributes are left alone |
| TableFormats.ColFormatReadsBack | src/formats/table.js:780-796 | a column attribute is never cleared: it reads back as the value written, or as 100 / 0 for a falsy one |
| TableFormats.CellCreate | src/formats/table.js:279-369 | `TableCell.create` writes the row id whatever it is, and the spans only when they are truthy |
| TableFormats.CellCreateStyles | src/formats/table.js:279-369 | a cell style is written exactly when its value is truthy, and only keys `formats()` reports are written |
| TableFormats.CellFormat | src/formats/table.js:514-659 | `TableCell.format` toggles the attribute on the cell and writes the same name and value into every line, so the cell and each line agree on it; nothing else changes |
| TableFormats.SpanOfIsFormatted | src/formats/table.js:442-504 | the span the model reads is `parseInt(cell.formats()[key], 10)` |
| TableFormats.ShiftSpanMeaning | src/formats/table.js:1008-1012 | `format(key, parseInt(span) + delta)` moves the span by `delta` on the cell and on every line; a result of 0, or a span that does not parse, removes it; nothing else changes |
| TableFormats.RowCreate | src/formats/table.js:710-718 | `TableRow.create` writes the row id, the height exactly when it is truthy, and no key outside the row attributes |
| TableFormats.RowFormatFromCell | src/formats/table.js:644-655 | `TableCell.format('row_height', v)` also sets `row_height` on the parent row, even when `v` is falsy; other names leave the row |
| TableFormats.IdsAreFormatted | src/formats/table.js:264-277 | the ids `checkMerge` compares are the ones `formats()` reports |
| TableFormats.CellCheckMerge | src/formats/table.js:264-277 | a cell merges only with a next cell that has lines, and then the ids of its head line and of the tail line of the pair agree; `CellCheckMergeEnds` states the converse |
| TableFormats.CellCheckMergeByIdentity | src/formats/table.js:264-277 | adjacent cells whose lines all carry one cell id merge; merging cells agree on the id at both ends of both |
| TableFormats.RowCheckMerge | src/formats/table.js:694-708 | a row merges only with a next row that has cells, and then the row ids of the head cell and of the tail cell of the pair agree; `RowCheckMergeEnds` states the converse |
| TableFormats.RowCheckMergeByIdentity | src/formats/table.js:694-708 | adjacent rows whose cells all carry one row id merge; merging rows agree on the id at both ends of both |
| TableFormats.CellCheckMergeEnds | src/formats/table.js:264-277 | a cell merges exactly when the next cell has lines and the head and tail lines of both carry one cell id; lines in between are not consulted, so cells with the same end lines decide alike |
| TableFormats.RowCheckMergeEnds | src/formats/table.js:694-708 | a row merges exactly when the next row has cells and the head and tail cells of both carry one row id; cells in between are not consulted |
| TableFormats.IndexOf | src/formats/table.js:435-440 | `indexOf`: the first position holding the element, or -1 exactly when it is absent |
| TableFormats.ChildOffset | src/formats/table.js:435-440 | `cellOffset` (and `TableRow.rowOffset` at lines 753-758, the same body): the first index in the parent's children holding the child, -1 when it is absent or there is no parent |
| TableFormats.CellRowOffset | src/formats/table.js:679-684 | `TableCell.rowOffset`: its row's offset, or -1 without a row |
| HitTest.SpanVerdictMeaning | src/formats/table.js:975-992 | a cell inside the band is removed; a modified cell overlaps the band and reaches past one of its edges; a cell clear of the band is untouched; no cell falls when columns are deleted |
| HitTest.FallingReachesBelow | src/formats/table.js:1051-1059 | a falling cell starts at the band's top and reaches below the band's bottom |
| HitTest.PlacingMeaning | src/formats/table.js:1244-1271 | a cell gets a neighbour exactly when its edge on the inserted side meets the boundary; it grows exactly when the boundary passes through it, clear of both its edges |
| Layout.ConvertToPixels | src/formats/table.js:1151-1153 | `value * 4 / 3` |
| Layout.ConvertToPoints | src/formats/table.js:1155-1157 | `value * 3 / 4` |
| Layout.PixelsPointsRoundTrip | src/formats/table.js:1151-1157 | the two conversions undo each other |
| Layout.ColWidthIsFormatted | src/formats/table.js:780-788 | the width the model reads is `col.formats()['table-col'].width` |
| Layout.AllColumnsHave100Width | src/formats/table.js:842-846 | true exactly when every column's width reads `'100'` (so true for no columns) |
| Layout.ColumnWidthSum | src/formats/table.js:927-937 | the width sum is a number exactly when every width parses |
| Layout.ColumnWidthSumAppend | src/formats/table.js:927-937 | the sum splits over any division of the columns |
| Layout.DefaultWidthsSum | src/formats/table.js:842-846 | columns that all have width 100 sum to 100 per column |
| Layout.WidthPerCol | src/formats/table.js:1181-1191 | the share times the column count plus one is the working area, and it lies between 0 and the working area |
| Sorting.SortByKeyPermutes | src/formats/table.js:1317-1321 | `affectedCells.sort` orders by the key and only reorders (same multiset) |
| Sorting.SortByKeyStable | src/formats/table.js:1369-1374 | the sort is stable: the elements of one key keep their order |
| Sorting.InsertByKeySorted | src/formats/table.js:1317-1321 | inserting by key into a sorted list keeps it sorted |
| Lists.InsertAt | src/formats/table.js:1294-1298 | `insertBefore`/`appendChild` at `i`: the element stands at `i`, the others around it in order |
| Lists.RemoveAt | src/formats/table.js:1108-1110 | `remove()`: one element fewer, the others in order |
| Lists.InsertBefore | src/formats/table.js:1144-1148 | before the reference, or appended when there is none |
| Lists.Count | src/formats/table.js:1031-1038 | the number of matching elements, at most the length; `WhereMeaning` pins it to the matching positions |
| Lists.Where | src/formats/table.js:1031-1038 | one position per matching element (as many as `Count`), each in range and matching |
| Lists.WhereMeaning | src/formats/table.js:1031-1038 | the positions are strictly increasing and are exactly the matching ones, so `Count` is the number of matching elements |
| Lists.FilterMeaning | src/formats/table.js:1031-1038 | `filter` keeps every matching element and nothing else, in order: its i-th element is the i-th matching one |
| Lists.FilterConcat | src/formats/table.js:1031-1038 | `filter` of a concatenation is the concatenation of the filters |
| Lists.LastWhere | src/formats/table.js:1093-1102 | the accumulator `reduce`: the last position that matches, or none exactly when none matches |
| Lists.FirstWhere | src/formats/table.js:1402-1411 | `find`: the first position that matches, or none exactly when none matches |
| Lists.Filter | src/formats/table.js:1031-1038 | `filter`: as many elements as match, each one from the list and matching; `FilterMeaning` adds that every match is kept, in order |
| CellFactory.RowIdIsFormatted | src/formats/table.js:720-727 | the row id read is `tableRow.formats().row` |
| CellFactory.SpanValueIsFormatted | src/formats/table.js:442-504 | the span value copied is `cell.formats()[key]`, and it parses to the cell's span |
| CellFactory.MintLine | src/formats/table.js:32-93 | `create` mints a row id and then a cell id, each only when the value lacks it, and the counter advances by the ids minted |
| CellFactory.NewCell | src/formats/table.js:1280-1292 | a created cell has the row id, the given spans (1 when absent) and one line with the same row id and spans and the minted cell id |
| CellFactory.PlainCellMeaning | src/formats/table.js:1129-1149 | `insertCell`'s cell: both spans 1, the row's id, one line with a fresh cell id; the counter moves past it |
| CellFactory.PlainCellMints | src/formats/table.js:1129-1149 | `insertCell`'s cell maker mints as `insertCell` does |
| CellFactory.InsertCellIntoMeaning | src/formats/table.js:1129-1149 | `insertCell(tableRow, ref)` adds exactly one such cell, before `ref` or last; the other cells and the row's attributes stay |
| DeleteColumnsSpec.ColumnFateMeaning | src/formats/table.js:975-1012 | a removed cell disappears; a modified one has its colspan lowered by `delIndexes.length` on the cell and every line; others stay |
| DeleteColumnsSpec.RemovedCount | src/formats/table.js:975-992 | only a bound (a row never loses more cells than it has); which cells go is `KeepColumnsMeaning` and `RemovedCountFull` |
| DeleteColumnsSpec.KeepColumns | src/formats/table.js:1004-1012 | a row loses one cell per removed cell; which cells and how they change is `KeepColumnsMeaning` |
| DeleteColumnsSpec.DeleteColumnsRows | src/formats/table.js:1004-1012 | every row stays with its attributes, its cells those `KeepColumns` keeps |
| DeleteColumnsSpec.KeepColumnsMeaning | src/formats/table.js:1004-1012 | a row keeps exactly its cells outside the selected columns, in order; a cell spanning across them has its colspan lowered by `delIndexes.length` on the cell and every line; any other survivor is unchanged |
| DeleteColumnsSpec.RemovedCountFull | src/formats/table.js:975-992 | a row loses all its cells exactly when every one lies inside the selection |
| DeleteColumnsSpec.AllRemovedByCount | src/formats/table.js:994-997 | `removedCells.length === tableCells.length` holds exactly when every cell lies inside the selection |
| DeleteColumnsSpec.DeleteColumnsCount | src/formats/table.js:1004-1006 | the table loses exactly the removed cells |
| DeleteColumnsSpec.RemoveColumnsAt | src/formats/table.js:1000-1002 | `delIndexes.length` columns go, all at `delIndexes[0]`; when the group runs out, every column from there on is gone |
| DeleteRowSpec.Place | src/formats/table.js:1040-1061 | every cell is tagged with its verdict, rectangle and position, the rows unchanged |
| DeleteRowSpec.Unplace | src/formats/table.js:1040-1061 | dropping the tags keeps rows and cell counts |
| DeleteRowSpec.UnplacePlace | src/formats/table.js:1040-1061 | tagging and untagging gives the table back |
| DeleteRowSpec.RowFalls | src/formats/table.js:1057-1059 | `fallCells` of one row: every position listed belongs to a falling cell of the row |
| DeleteRowSpec.FallsOfPlaced | src/formats/table.js:1057-1059 | every listed falling position is a falling cell of the table |
| DeleteRowSpec.CoveredCount | src/formats/table.js:1069-1082 | `removedRowsLength` is at most the number of rows |
| DeleteRowSpec.FindOrigin | src/formats/table.js:1090 | where the cell that started at a position is now |
| DeleteRowSpec.RefCell | src/formats/table.js:1093-1102 | `refCell`: the last cell of the next row whose left edge meets the falling cell's right edge |
| DeleteRowSpec.FallOne | src/formats/table.js:1085-1106 | one fall touches only the cell's row and the next one |
| DeleteRowSpec.FallAll | src/formats/table.js:1085-1106 | the falls keep every row and its attributes; a row that no fall leaves or enters keeps its cells |
| DeleteRowSpec.FallsDone | src/formats/table.js:1090-1091 | how many falls go through before one in the last row (where `nextRow.children` throws) |
| DeleteRowSpec.FallOneMeaning | src/formats/table.js:1085-1106 | a falling cell leaves its row and stands in the next row before `refCell`, or last, as itself reformatted with `format('row', nextRow id)` (so its spans, styles and other line keys are kept); it takes that row's id on the cell and every line; the other cells of both rows and the other rows stay |
| DeleteRowSpec.FallAllKeepsCells | src/formats/table.js:1085-1106 | falls only move cells: every row stays and the number of cells is kept |
| DeleteRowSpec.PlacedCountUpdate | src/formats/table.js:1085-1106 | replacing one row changes the cell count by that row's difference |
| DeleteRowSpec.FallOneKeepsCells | src/formats/table.js:1085-1106 | one fall keeps the number of cells |
| DeleteRowSpec.PlacedCountPair | src/formats/table.js:1085-1106 | moving cells between two adjacent rows keeps the count |
| DeleteRowSpec.SettleCells | src/formats/table.js:1108-1115 | a row loses one cell per removed cell; which cells and how they change is `SettleCellsMeaning` |
| DeleteRowSpec.SettleRows | src/formats/table.js:1108-1118 | as many rows go as are covered; which rows remain is `SettleRowsMeaning` |
| DeleteRowSpec.SettleCellsMeaning | src/formats/table.js:1108-1115 | a row keeps exactly its cells that are not removed, in order; an untouched one is unchanged, a modified or fallen one has its rowspan lowered by `removedRowsLength` on the cell and every line |
| DeleteRowSpec.SettleRowsMeaning | src/formats/table.js:1108-1118 | the rows left are exactly the uncovered rows, in order, each with its attributes and its cells settled |
| DeleteRowSpec.DeleteRowKeeps | src/formats/table.js:1018-1119 | a completed deletion leaves exactly the rows outside the band, in order, with their attributes |
| DeleteRowSpec.DeleteRowKeepsCells | src/formats/table.js:1085-1118 | in a completed deletion, a kept row that no fall leaves or enters holds its own cells settled (removed ones gone, spanning ones lowered by `removedRowsLength`) |
| DeleteRowSpec.SettledFallFree | src/formats/table.js:1085-1118 | after the falls, the settled rows are the uncovered rows in order with their attributes, and a row no fall leaves or enters settles its own cells |
| DeleteRowSpec.CoveredRows | src/formats/table.js:1031-1038 | `removedRows`, one flag per row |
| DeleteRowSpec.CoveredRowsCount | src/formats/table.js:1031-1082 | the rows removed are exactly `removedRowsLength` many, the count taken before any change |
| DeleteRowSpec.DeleteRowRowCount | src/formats/table.js:1117-1118 | a completed deletion keeps every row but the covered ones |
| InsertColumnSpec.Classify | src/formats/table.js:1239-1272 | every cell is classified once, in order |
| InsertColumnSpec.Pair | src/formats/table.js:1274-1298 | the new cell goes right after its cell (`isRight`) or right before it |
| InsertColumnSpec.WidenRow | src/formats/table.js:1274-1300 | widening a row never moves the counter back |
| InsertColumnSpec.AsideCount | src/formats/table.js:1239-1272 | only a bound (at most one new cell per cell); the exact count is `WidenRowCounts` |
| InsertColumnSpec.WidenRowCounts | src/formats/table.js:1274-1300 | one new cell per cell on the boundary |
| InsertColumnSpec.WidenRowKeeps | src/formats/table.js:1274-1300 | every old cell stays in the row, in order |
| InsertColumnSpec.WidenRowAdds | src/formats/table.js:1274-1300 | the new slots hold the new cells, in creation order |
| InsertColumnSpec.WidenRowAdjacent | src/formats/table.js:1275 | each new cell stands beside the cell it was made for, on the chosen side |
| InsertColumnSpec.AsideCellSpan | src/formats/table.js:1280-1290 | a new cell copies its neighbour's rowspan and has colspan 1 |
| InsertColumnSpec.AsideCellMints | src/formats/table.js:1276-1290 | the new cell carries the freshly minted id, and the counter moves past it |
| InsertColumnSpec.WidenRowIds | src/formats/table.js:1276 | the new cells' ids are minted in order, increasing from the counter, each on its cell's line |
| InsertColumnSpec.GrowSlots | src/formats/table.js:1311-1315 | growing keeps the number of cells |
| InsertColumnSpec.GrowSlotsMeaning | src/formats/table.js:1311-1315 | a cell the boundary passes through has its colspan one larger on the cell and every line; no cell moves |
| InsertColumnSpec.WidenRowsMeaning | src/formats/table.js:1274-1315 | every row keeps its attributes and gains one cell per cell on the boundary; all new ids across the table are distinct |
| InsertColumnSpec.WidenRows | src/formats/table.js:1274-1315 | every row is widened on its own with its counter start; the counter never goes back |
| InsertColumnSpec.FormatCols | src/formats/table.js:1186-1188 | every column formatted with the same name and value |
| InsertColumnSpec.Rebalance | src/formats/table.js:1206-1215 | the overflow branch plans one entry per column |
| InsertColumnSpec.RebalanceMeaning | src/formats/table.js:1206-1215 | on overflow every column and the table get the same share, in points |
| InsertColumnSpec.SetPreferred | src/formats/table.js:1217-1224 | setting the preferred width plans one entry per column |
| InsertColumnSpec.SetPreferredKeepsWidth | src/formats/table.js:1217-1224 | setting the preferred width leaves every width as it was |
| InsertColumnSpec.ColAttributes | src/formats/table.js:1193-1227 | `getColAttributes` plans one entry per column |
| InsertColumnSpec.ColAttributesFrame | src/formats/table.js:1193-1227 | `getColAttributes` changes only the columns' width and preferred width |
| InsertColumnSpec.ColAttributesMeaning | src/formats/table.js:1206-1215 | on overflow all columns and the new one get the same non-zero width, and together they fill the working area exactly |
| InsertColumnSpec.ColAttributesPreferred | src/formats/table.js:1217-1224 | with a positive preferred width, the old columns and the new one get the same preferred width |
| InsertColumnSpec.ColumnSlot | src/formats/table.js:1304-1309 | after `colIndex` (right) or before it (left); a missing left reference appends |
| InsertColumnSpec.InsertColumnMeaning | src/formats/table.js:1229-1325 | exactly one column, built from `getColAttributes`, at its slot; every row gains one cell per boundary cell; affected cells are the new and grown ones ordered by top edge; a right insert beside a missing column adds no column |
| InsertRowSpec.NewCells | src/formats/table.js:1376-1393 | one new cell per cell below |
| InsertRowSpec.GrowRows | src/formats/table.js:1395-1399 | growing keeps every row and its cell count |
| InsertRowSpec.GrownCells | src/formats/table.js:1395-1399 | `modifiedCells` after growing, in document order |
| InsertRowSpec.GrownCellsMeaning | src/formats/table.js:1395-1399 | `modifiedCells` are exactly the cells the boundary passes through, in document order, each with its rowspan raised by one on the cell and every line |
| InsertRowSpec.BelowCellsMeaning | src/formats/table.js:1367-1374 | the cells that get a neighbour are the boundary cells, ordered left to right; the sort only reorders |
| InsertRowSpec.BelowCellMeaning | src/formats/table.js:1377-1391 | the new cell has one line with the new row id and the minted id, rowspan 1, the neighbour's colspan, and the row id on the cell |
| InsertRowSpec.NewCellsMeaning | src/formats/table.js:1376-1393 | the k-th new cell is made for the k-th cell below, with id number `first + k` |
| InsertRowSpec.NewCellsDistinct | src/formats/table.js:1376-1393 | the new cells carry pairwise different ids |
| InsertRowSpec.GrowRowsMeaning | src/formats/table.js:1395-1399 | a cell the boundary passes through has its rowspan one larger on the cell and every line; every other cell stays |
| InsertRowSpec.InsertBeforeFound | src/formats/table.js:1402-1412 | `insertBefore(x, find(...))` puts `x` before the first match, or last |
| InsertRowSpec.InsertRowPlacement | src/formats/table.js:1402-1412 | the new row, with its fresh id, goes before the first row whose top meets the boundary, or last; the other rows keep their order |
| InsertRowSpec.InsertRowCells | src/formats/table.js:1367-1416 | the new row holds one cell per boundary cell; the counter moves past every id; affected cells are the new and grown ones ordered by left edge |
| MergeCellsSpec.Kept | src/formats/table.js:1451-1453 | the kept indices of a row, each below the bound |
| MergeCellsSpec.FirstStays | src/formats/table.js:1451-1453 | the first listed cell is never among those removed |
| MergeCellsSpec.KeptMeaning | src/formats/table.js:1451-1453 | the kept indices rise strictly and are exactly those not removed |
| MergeCellsSpec.KeptAt | src/formats/table.js:1451-1453 | a kept cell stands after the kept cells before it |
| MergeCellsSpec.KeepCells | src/formats/table.js:1451-1453 | a row without its removed cells |
| MergeCellsSpec.Drop | src/formats/table.js:1451-1453 | removing cells keeps every row |
| MergeCellsSpec.MergeCells | src/formats/table.js:1449-1473 | merging keeps every row |
| MergeCellsSpec.GatheredSplit | src/formats/table.js:1450-1461 | the survivor's lines line up with the listed cells' lines, in list order |
| MergeCellsSpec.MergeThrows | src/formats/table.js:1449-1466 | the source fails exactly when nothing is listed or no listed cell has a line |
| MergeCellsSpec.MergeSurvivor | src/formats/table.js:1450-1461 | the first cell survives in its row and place; its spans are the arguments; its other attributes stay; it holds all the listed lines |
| MergeCellsSpec.StampMeaning | src/formats/table.js:1466-1471 | stamping sets the cell id, the row id and both spans, and leaves every other attribute of the line |
| MergeCellsSpec.MergedLinesBefore | src/formats/table.js:1450-1461 | before stamping, the survivor's lines are its own lines and then every other cell's lines, in order |
| MergeCellsSpec.MergeLines | src/formats/table.js:1463-1471 | every line carries the survivor's row id, the head line's cell id and the new spans, and keeps its other attributes |
| MergeCellsSpec.MergeKeeps | src/formats/table.js:1451-1453 | every row keeps, in order, exactly the cells not merged away |
| UnmergeCellsSpec.Ceil | src/formats/table.js:1489 | the smallest integer not below the value |
| UnmergeCellsSpec.Steps | src/formats/table.js:1489-1497 | how often `for (let i = v; i > bound; i--)` runs: at least once exactly when `v` is a number above the bound |
| UnmergeCellsSpec.StepsOfSpan | src/formats/table.js:1489-1497 | a span `k` runs the loop `k - bound` times |
| UnmergeCellsSpec.Mark | src/formats/table.js:1480 | tracking the listed cells by marks keeps every row |
| UnmergeCellsSpec.Unmark | src/formats/table.js:1480 | dropping the marks keeps every row |
| UnmergeCellsSpec.UnmarkMark | src/formats/table.js:1480 | marking then unmarking gives the table back |
| UnmergeCellsSpec.FindMark | src/formats/table.js:1480 | a found position holds the listed cell |
| UnmergeCellsSpec.FindMarkFinds | src/formats/table.js:1480 | a listed cell is found |
| UnmergeCellsSpec.MarkListed | src/formats/table.js:1480 | every valid listed position is listed once marked |
| UnmergeCellsSpec.InsertCells | src/formats/table.js:1489-1491 | `k` calls of `insertCell` add `k` cells |
| UnmergeCellsSpec.MadeCells | src/formats/table.js:1489-1491 | `k` calls make `k` cells |
| UnmergeCellsSpec.InsertCellsLineUp | src/formats/table.js:1489-1491 | the `k` cells line up in creation order between the cells before the reference and the rest |
| UnmergeCellsSpec.MadeCellsNew | src/formats/table.js:1129-1149 | every made cell is fresh and unlisted, with both spans 1, the row's id and an id from the counter |
| UnmergeCellsSpec.FillBelow | src/formats/table.js:1494-1520 | filling keeps every row |
| UnmergeCellsSpec.FillRow | src/formats/table.js:1514-1516 | a row below gains exactly the cells per row, and keeps its attributes |
| UnmergeCellsSpec.FillBelowFails | src/formats/table.js:1496-1519 | filling fails exactly when the span reaches past the last row, and never touches the cell's row or those above |
| UnmergeCellsSpec.FillBelowRows | src/formats/table.js:1497-1520 | unless it fails, each of the next `r - 1` rows gains `c` cells, and every other row keeps its size |
| UnmergeCellsSpec.FillBelowSize | src/formats/table.js:1497-1520 | unless it fails, the table grows by `(r - 1) * c` cells |
| UnmergeCellsSpec.FillBelowAdvances | src/formats/table.js:1497-1520 | unless it fails, the counter does not go back |
| UnmergeCellsSpec.FillRowMeaning | src/formats/table.js:1498-1516 | a row below gets its new cells in creation order before its last cell whose left edge meets the cell's right edge, or last |
| UnmergeCellsSpec.SpanResetByFormat | src/formats/table.js:1488 | `format(key, 1)` leaves the span reading 1 on the cell and every line |
| UnmergeCellsSpec.NarrowedMeaning | src/formats/table.js:1485-1488 | a cell with colspan over 1 ends at colspan 1; another cell is left as it is |
| UnmergeCellsSpec.SplitRow | src/formats/table.js:1485-1492 | the row grows by the number of times the colspan loop runs, and keeps its attributes |
| UnmergeCellsSpec.SplitRowMeaning | src/formats/table.js:1485-1492 | the cells around the split one stay; it keeps its place; the new cells follow it |
| UnmergeCellsSpec.UnmergeAtSize | src/formats/table.js:1480-1523 | a cell spanning `c` columns and `r` rows adds `c - 1` cells after it and `c` in each of the `r - 1` rows below; it fails exactly when the span reaches past the last row |
| UnmergeCellsSpec.UnmergeAtSizeIntegral | src/formats/table.js:1480-1523 | for integer spans the table grows by `c * r - 1` cells |
| UnmergeCellsSpec.UnmergeAtOwnRow | src/formats/table.js:1485-1523 | in its row the cell is split, and lowered unless it spanned one row or the source failed; the counter does not go back |
| UnmergeCellsSpec.SplitRowCells | src/formats/table.js:1485-1492 | the narrowed cell keeps its place and marks; the new cells, fresh and unlisted, follow it; the cells around stay |
| UnmergeCellsSpec.LoweredMeaning | src/formats/table.js:1522 | lowering touches only that cell: its rowspan is reset |
| UnmergeCellsSpec.Lowered | src/formats/table.js:1522 | resetting the rowspan keeps the row and its size |
| UnmergeCellsSpec.UnmergeAt | src/formats/table.js:1480-1523 | unmerging one cell keeps every row |
| UnmergeCellsSpec.UnmergeAtGrows | src/formats/table.js:1480-1523 | unless it fails, unmerging one cell only grows the table |
| UnmergeCellsSpec.UnmergeAtRow | src/formats/table.js:1485-1523 | the cell ends at colspan 1 with `c - 1` new cells right after it, and at rowspan 1 when it spanned rows; everything around it stays |
| UnmergeCellsSpec.InsertCellsMarks | src/formats/table.js:1489-1491 | inserting cells lists nothing new and loses nothing listed |
| UnmergeCellsSpec.FillRowMarks | src/formats/table.js:1514-1516 | filling a row below lists nothing new and loses nothing listed |
| UnmergeCellsSpec.UnmergeAtMarks | src/formats/table.js:1480-1523 | unmerging one cell keeps, row by row, exactly the listed positions |
| UnmergeCellsSpec.UnmergeAllMarks | src/formats/table.js:1480-1524 | however many cells are unmerged, the listed positions stay in their rows |
| UnmergeCellsSpec.UnmergeAll | src/formats/table.js:1480-1524 | the `forEach` over the listed cells keeps every row |
| UnmergeCellsSpec.UnmergeAllFinds | src/formats/table.js:1480-1524 | each listed cell is found when its turn comes |
| UnmergeCellsSpec.UnmergeAllGrows | src/formats/table.js:1480-1524 | unless the source fails, the table only grows |
| UnmergeCellsSpec.UnmergeAllStops | src/formats/table.js:1480-1524 | once one cell fails, the later ones are not reached |
| UnmergeCellsSpec.UnmergeAllStep | src/formats/table.js:1480-1524 | each next cell is unmerged where it now stands |
| UnmergeCellsSpec.UnmergeCellsResult | src/formats/table.js:1475-1525 | unmerging keeps every row; its end state is `UnmergeListing.UnmergeCellsEnds` and its size `UnmergeListing.UnmergeCellsGrowth` |
| UnmergeCellsSpec.UnmergeOneCell | src/formats/table.js:1475-1525 | unmerging a single cell is `UnmergeAt` on that cell |
| UnmergeListing.InsertCellsListing | src/formats/table.js:1489-1491 | inserting cells leaves each row's listed cells, in order |
| UnmergeListing.FillBelowListing | src/formats/table.js:1494-1520 | filling the rows below leaves every row's listed cells, in order |
| UnmergeListing.UnmergeAtOwnListing | src/formats/table.js:1485-1491 | in its own row, unmerging replaces the listed cell by one listed alike and adds only unlisted cells |
| UnmergeListing.UnmergeAtFlat | src/formats/table.js:1485-1523 | unless it fails, the unmerged cell ends spanning one column and one row |
| UnmergeListing.UnmergeAtOtherRows | src/formats/table.js:1494-1520 | the other rows keep their listed cells, in order |
| UnmergeListing.UnmergeAllTracks | src/formats/table.js:1480-1524 | after the first `k` listed cells, unless it failed: the same listed cells in every row, those listed below `k` flat, the others unchanged |
| UnmergeListing.UnmergeAllEnds | src/formats/table.js:1480-1524 | unless it fails, every cell listed below `k` ends spanning one column and one row |
| UnmergeListing.UnmergeAllSize | src/formats/table.js:1480-1524 | with every cell listed once: no failure when no listed cell reaches past the last row, and the table grows by the sum of `(c - 1) + (r - 1) * c` over the listed cells |
| UnmergeListing.MarkUnique | src/formats/table.js:1480 | a listed position names one cell |
| UnmergeListing.UnmergeCellsEnds | src/formats/table.js:1475-1525 | unless it fails, every listed cell is still in the table and ends with colspan and rowspan 1 as `> 1` reads them |
| UnmergeListing.UnmergeCellsGrowth | src/formats/table.js:1475-1525 | distinct cells with integer spans `c`, `r` that stay within the table: no failure, and the table grows by exactly the sum of `c * r - 1` |
| TableContainer.Table.constructor | src/formats/table.js:815-819 | a table holding the given columns and rows, not destroyed |
| TableContainer.Table.AllColumnsHave100Width | src/formats/table.js:842-846 | the `reduce` loop answers whether every width reads `'100'` |
| TableContainer.Table.UpdateColumnsWidth | src/formats/table.js:1181-1191 | every column gets the share in points; the returned table width is the working area; nothing else changes |
| TableContainer.Table.DeleteColumns | src/formats/table.js:967-1016 | no body: nothing; all cells inside: destroyed, nothing else changed; otherwise `delIndexes.length` columns go at `delIndexes[0]`, then cells go or shrink, or it throws with the cells untouched when the columns run out |
| TableContainer.Table.DeleteRow | src/formats/table.js:1018-1119 | no body: nothing; all cells inside: destroyed, nothing changed; otherwise the body `DeleteRowResult` gives, throwing when a falling cell sits in the last row |
| TableContainer.Table.InsertCell | src/formats/table.js:1129-1149 | one row changes as `insertCell` does; the counter moves on |
| TableContainer.Table.InsertColumn | src/formats/table.js:1229-1325 | no body: nothing; otherwise columns, rows, counter and affected cells as `InsertColumnResult` gives |
| TableContainer.Table.InsertRow | src/formats/table.js:1327-1417 | no body: nothing; otherwise rows, counter and affected cells as `InsertRowResult` gives |
| TableContainer.Table.MergeCells | src/formats/table.js:1449-1473 | the body as `MergeCells` gives, throwing when nothing is listed or no line is left |
| TableContainer.Table.UnmergeCells | src/formats/table.js:1475-1525 | the body and counter as `UnmergeCellsResult` gives, throwing when a span reaches past the last row |
| TableContainer.UnmergeInOrder | src/formats/table.js:1480-1524 | the `forEach` loop unmerges the listed cells in order and stops at the first failure |

## Left out

- DOM and CSS: every `style` assignment, the border, alignment and height CSS, the
  alignment classes and `html()`. Only the `data-*` and span attributes are modelled.
- Geometry: `getBoundingClientRect` and `getRelativeRect` live in `../utils`, which is
  not part of this model. Rectangles are oracle parameters keyed by the cell's value:
  `geom` gives a cell's rectangle, `rowGeom` a row's, and `after` a cell's once an edit
  is laid out.
- DeleteRowSpec.Place: takes one layout snapshot when the operation starts. The source
  measures the falling cell and the next row's cells again inside the fall loop, after
  earlier falls moved cells; the model compares against the rectangles of the start.
- UnmergeCellsSpec.UnmergeAt: reads one layout keyed by cell value for the whole
  operation. The source measures `compareRect` again for every row it fills; the model
  uses the narrowed cell's right edge once, and equal-valued cells share a rectangle.
- TableFormats.CellFormat: does not model two `TypeError`s. `value.toUpperCase()` throws
  for `cell_vertical_alignment` and `cell_horizontal_alignment` when the value is `null`,
  `false`, `undefined` or a number, after the attribute is toggled and the lines are
  formatted. `this.row().domNode` throws for `row_height` on a cell without a parent row,
  after the cell's attribute is toggled. The model returns the state without the throw.
- TableFormats.ChildOffset: finds a child by value, where `indexOf` compares
  references, so equal-valued siblings cannot be told apart; the model answers with the
  first of them.
- Deferred and page-measuring passes: `applyStylesToTable`, the `setTimeout` of
  `updateTableWidth`, `updateColsTablePrefferedWidth`,
  `verifyTableWidthIsLargerThanPageWidth`, `setTableWidth`, `setTableMarginLeft`,
  `getTableWidthAndMarginLeft` and `getPageWidthWorkingArea`. The table width, margin and
  working area they measure are parameters. The width sum of `updateTableWidth` is
  `Layout.ColumnWidthSum`.
- `tableDestroy`: the Quill and module calls become the `destroyed` flag. The rows and
  columns are left as they were.
- `TableViewWrapper`: UI event wiring.
- `rowId()`/`cellId()`: random ids become a counter, `row-<n>` and `cell-<n>`. Ids are
  fresh within one table's counter, not globally.
- `insertEmptyRow`: it calls `table_rowId`/`table_cellId`, which this file does not
  define.
- Quill framework behaviour: `optimize`/`wrap`, `super.format`, and `Header` content in
  cells. As a result, a row emptied by `mergeCells` or `deleteColumns` stays in the model,
  where Quill's normalisation would remove it.
- JsValues.AttrText: an attribute string holding a number is assumed to be in canonical
  decimal form followed by its unit. A stored "100.0" or "0100" cannot be represented, so
  the model does not capture that `=== '100'` in `allColumnsHave100Width` rejects such a
  width while `parseInt` reads it as 100.
- Floating point: widths are reals without rounding. Boolean values are not part of
  `JsValue`.
- Object references: `mergeCells` and `unmergeCells` receive cells as positions at call
  time.
  - `unmergeCells` follows each listed cell through the edits by marks.
  - The `None` branch of `UnmergeCellsSpec.UnmergeAll` keeps the table as it is. It
    cannot be reached for valid positions (`UnmergeAllFinds`).
- `insertColumn` reads `colRef` before its declaration. The model treats it as
  `undefined`, as a transpiled build does, so `getColAttributes` always uses the last
  column.
- `TableContainer.Table.MergeCells`: requires the listed positions to be valid and
  pairwise distinct. The source's list holds references to distinct cells.
- `TableContainer.Table.UnmergeCells`: requires every listed position to be valid, since
  the source's list holds cells of the table.
- `TableContainer.Table.Rows`: no contract; it is the `rows` field itself.
