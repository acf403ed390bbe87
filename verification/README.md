# Apollo library tab: selection decoding and queue actions

This project models the non-UI logic of `ApolloTabFunctions` in
`apollo/app/tab_manager.py`, which is the controller between Apollo's library table
and its playing queue.

- **Selection decoding.** A Qt table view reports its selection as one flat
  sequence of cells, which the code assumes is row-major. The decoder knows only the row width `n = len(db_fields)`.
  `_GetSelectionIndexes` cuts that list into rows of `n` cells. `_ColumnSelection`
  reads one named column with the strided slice `cells[c::n]`, where `c` is the
  column's position in `db_fields`. Both are modelled as pure functions over `seq<T>`.
  A selected cell is its value, so `index.data()` is the element itself.
- **Queue actions.** "Play Now", "Queue Next" and "Queue Last" each make a fixed
  series of calls on the `PlayingQueue` and then refresh the now-playing view. Each
  action is modelled as the trace of those calls (`QueueEvent`: `RemoveElements`,
  `AddElements(ids)`, `AddNext(ids)`, `Refresh`), together with the error that
  stopped the action, if there was one.
  - `Replay` gives a trace one reading: `RemoveElements` empties the queue,
    `AddElements` appends, and `Refresh` hands the current queue to the view.
  - `AddNext` stays abstract. It is a function parameter of `Replay`, so nothing
    is assumed about where it inserts.

Files:
- `wrappers.dfy`: `Option` and `Result`.
- `selection.dfy` (module `Selection`): Python's `list.index` and `s[start::step]`; the row decoder as a recursive function (`Rows`) and as the source's loop (`GetSelectionIndexes`); how the two decoders relate.
- `queue_events.dfy` (module `QueueEvents`): the event traces and `Replay`.
- `tab_functions.dfy` (module `TabFunctions`): the three actions and what they do to the queue and the view.
- `scenarios.dfy` (module `Scenarios`): worked selections on a `["file_id", "title"]` table.

Positions are written `RowStart(n, k)` (that is, `k*n`) and `SlicePos(c, n, i)` (that is, `c + i*n`). Both are defined through `Times`, which is multiplication written as repeated addition. `TimesIsMultiplication` proves it equals `*`. The number of whole rows in `len` cells is `WholeRows(len, n)`, and the length of the trailing partial row is `PartialRow(len, n)`. `WholeRowsIsDivision` proves they are `len // n` and `len % n`.

### What the code does not check
- Nothing rejects a selection whose length is not a multiple of the row width:
  - `_GetSelectionIndexes` keeps `int(len/n)` rows and silently drops a trailing partial row.
  - `cells[c::n]` also picks the partial row's cell in column `c` when that row reaches column `c` (see `Selection.StrideIsColumnOfRows` and `Scenarios.TrailingPartialRow`).
- There is no column-range check: the index comes from `db_fields.index(name)`, so
  the only error is a name that is not a declared field (`ValueError`, modelled as
  `ColumnNotFound`).
- The actions are not all-or-nothing: `_PlayNow` clears the queue before it looks up
  the column, so a failed lookup leaves the queue empty and the view not refreshed
  (`TabFunctions.PlayNowFailureEmptiesQueue`).

## Model

| member | source | states |
|---|---|---|
| `Selection.IndexOf` | apollo/app/tab_manager.py:51 | `list.index`: absent exactly when the name is not a field; otherwise a position that holds the name with no earlier occurrence |
| `Selection.ColumnIndex` | apollo/app/tab_manager.py:51 | the column index `_ColumnSelection` uses is the first position of the name in `db_fields` |
| `Selection.Stride` | apollo/app/tab_manager.py:52 | `cells[c::n]`: element `i` is `cells[c + i*n]`, every such position is inside the selection, the next one is not, and the slice is empty exactly when `c >= len` |
| `Selection.StrideIndices` | apollo/app/tab_manager.py:52 | the slice's length is the number of indices `c + i*n` below `len(cells)`: `i` is an index of the slice iff `c + i*n < len` |
| `Selection.StrideLength` | apollo/app/tab_manager.py:52 | closed form of that count: `(len - c - 1) / n + 1` when `c < len`, else 0 |
| `Selection.ColumnSelection` | apollo/app/tab_manager.py:40-53 | fails with `ColumnNotFound(name)` exactly when the name is not a field; otherwise returns the cells at `c, c+n, c+2n, …` for the first index `c` of the name, and no further cell |
| `Selection.Rows` | apollo/app/tab_manager.py:59-68 | the recursive chunking keeps exactly `WholeRows(len, n)` rows, each exactly `n` cells, so a trailing partial row adds none |
| `Selection.WholeRowsBracket` | apollo/app/tab_manager.py:64 | the loop's trip count `int(len(selected) / offset)`: the largest `k` with `k*n <= len`, so `len < k*n + n` |
| `Selection.WholeRowsIsDivision` | apollo/app/tab_manager.py:64 | that count is floor division `len // n`, and the cells of the partial row number `len % n` |
| `Selection.RowIsSlice` | apollo/app/tab_manager.py:65-67 | row `k` is the contiguous slice `selected[k*n : (k+1)*n]`, which lies inside the selection |
| `Selection.RowsCoverWholeRows` | apollo/app/tab_manager.py:64-70 | the rows joined end to end are the prefix of the selection of length `n*(len//n)`, which lies inside the selection |
| `Selection.RowsDropOnlyPartialRow` | apollo/app/tab_manager.py:64-70 | that prefix followed by the remaining `len % n` cells (the partial row) is the whole selection, so the decoder drops exactly those cells and no others |
| `Selection.GetSelectionIndexes` | apollo/app/tab_manager.py:56-70 | the source's loop returns `int(len/n)` rows, and row `k` is `selected[k*n : k*n+n]`, which lies inside the selection; the table it builds is exactly the recursive chunking `Rows` |
| `Selection.RowsUnique` | apollo/app/tab_manager.py:56-70 | any table with that many rows and those slices is the recursive chunking `Rows`, so the loop and the recursion decode the same rows |
| `Selection.StrideCountVsRows` | apollo/app/tab_manager.py:52-64 | for `c < n` the column slice has one cell per whole row, plus one when the partial row reaches column `c` |
| `Selection.StrideCellIsRowCell` | apollo/app/tab_manager.py:52-67 | cell `k` of the column slice is cell `c` of row `k` |
| `Selection.StrideIsColumnOfRows` | apollo/app/tab_manager.py:52-68 | the column slice equals column `c` of the decoded rows when the partial row is shorter than `c + 1` cells (in particular when there is none); otherwise it is that column followed by the partial row's cell `c` |
| `Selection.ColumnSelectionIsColumnOfRows` | apollo/app/tab_manager.py:51-68 | on a selection of whole rows (no partial row), `_ColumnSelection(name)` is the named column of the rows `_GetSelectionIndexes` decodes; for `"file_id"` these are the ids every action passes to the queue |
| `Selection.ColumnSelectionAtMultiples` | apollo/app/tab_manager.py:51-52 | with a found name at first index `c`, value `i` of `_ColumnSelection` is `cells[c + i*n]` (inside the selection), and `c + len(result)*n` is past its end, in plain multiplication |
| `Selection.RowsAtMultiples` | apollo/app/tab_manager.py:64-67 | the row decoder keeps `len // n` rows and row `k` is `s[k*n : k*n + n]`, in plain multiplication and division |
| `QueueEvents.Replay` | apollo/app/tab_manager.py:168-174 | reads a trace of queue calls against a starting queue: each `RefreshQueueTable` call hands the view one snapshot, so there are as many snapshots as refresh calls, and when the trace ends with a refresh the last snapshot is the queue the trace leaves behind |
| `TabFunctions.PlayNow` | apollo/app/tab_manager.py:73-77 | the first call is always the clear, even when the lookup fails; fails exactly when `file_id` is not a field, and then there is no refresh; otherwise the queue calls are clear then add the `file_id` column unchanged, followed by one refresh that comes last |
| `TabFunctions.QueueNext` | apollo/app/tab_manager.py:79-82 | fails exactly when `file_id` is not a field, with no calls at all; otherwise the only queue call is `AddNext` of the `file_id` column, followed by one refresh that comes last |
| `TabFunctions.QueueLast` | apollo/app/tab_manager.py:85-88 | never clears; fails exactly when `file_id` is not a field, with no calls; otherwise the only queue call is `AddElements` of the `file_id` column, followed by one refresh that comes last |
| `TabFunctions.PlayNowReplacesQueue` | apollo/app/tab_manager.py:73-77 | whatever the queue held, "Play Now" leaves exactly the selected `file_id`s, and the view is refreshed once with that queue |
| `TabFunctions.PlayNowFailureEmptiesQueue` | apollo/app/tab_manager.py:74-75 | when the lookup fails, the queue has already been emptied and the view was never refreshed |
| `TabFunctions.QueueNextDefersToAddNext` | apollo/app/tab_manager.py:79-82 | "Queue Next" leaves whatever `AddNext` makes of the queue and shows that, once; on failure the queue is untouched and nothing is shown |
| `TabFunctions.QueueLastAppends` | apollo/app/tab_manager.py:85-88 | "Queue Last" leaves the old queue followed by the selected ids in selection order and shows that once; on failure the queue is untouched and nothing is shown |
| `Scenarios.TwoWholeRows` | apollo/app/tab_manager.py:51-68 | `["10","A","20","B"]` over `["file_id","title"]` decodes to two rows and the `file_id` column `["10","20"]` |
| `Scenarios.TrailingPartialRow` | apollo/app/tab_manager.py:52-64 | five cells in rows of two: two rows are decoded, but the `file_id` slice picks three values; nothing is rejected |

## Left out
- The Qt widgets, signal and slot bindings, the context menu and cursor handling (`_BindingLineSearch`, `_BindingLineClear`, `LibraryTab`, `NowPlayingTab.ElementsBindings`). They are UI wiring.
- `LibraryManager` and the database (`LoadDB`, `GetTableModle`, `SetTableModle`, `CreateView`, `Refresh_TableModelData`, `TableSearch`). That is persistence code which is not part of this model.
  - `RefreshQueueTable` is modelled only as the `Refresh` event, which hands the current queue to the view.
  - The database re-sorts the now-playing view (the note in `NowPlayingTab`). This is not modelled.
- The internals of `PlayingQueue` (apollo.utils) are not part of this model:
  - `AddNext` is an arbitrary function parameter.
  - `RemoveElements` and `AddElements` are read as clear and append. This reading comes from their names, not from their code.
  - How `GetQueue` copies is not modelled.
- The order in which Qt returns `selectedIndexes()`. The flat sequence is taken as given; the code assumes it is row-major.
- A zero row width (`db_fields` empty). `len(selected) / 0` raises there. `Rows` and `GetSelectionIndexes` require `n > 0` instead of modelling that crash. `_ColumnSelection` needs no such requirement, because a name that is found implies a non-empty field list.
- Selection.GetSelectionIndexes: computes the row count with exact floor division. The source's `int(len(selected) / offset)` goes through a float, which differs only for lengths beyond 2^53.
