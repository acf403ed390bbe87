/**
 The queue policies of `ApolloTabFunctions` (apollo/app/tab_manager.py):
 "Play Now", "Queue Next" and "Queue Last" from the library table's context
 menu.

 Each action reads the `file_id` column of the current selection with
 `_ColumnSelection`, makes its call(s) on the playing queue, and refreshes
 the now-playing view. An action is modelled as the trace of those calls
 together with the error, if any, that cut it short: the only error is a
 `file_id` column missing from the declared fields, which Python raises as
 `ValueError` out of `list.index` at whatever point the lookup happens.
 */
module TabFunctions {
  import opened Wrappers
  import opened Selection
  import opened QueueEvents

  /** The column that identifies a track. */
  const FileId: string := "file_id"

  /** What a controller action did: the calls it issued, in order, and the error
      that stopped it, if one did. */
  datatype Run<T> = Run(trace: seq<QueueEvent<T>>, error: Option<SelectionError>)

  /** The `file_id` values of the selection, as `_ColumnSelection` returns them. */
  function FileIds<T>(fields: seq<string>, cells: seq<T>): seq<T>
    requires FileId in fields
  {
    ColumnSelection(fields, cells, FileId).value
  }

  /** `_PlayNow`: clear the queue, then add the selected tracks, then refresh.
      The clear is issued before the column lookup, so it happens even when
      the lookup fails. */
  function PlayNow<T>(fields: seq<string>, cells: seq<T>): (r: Run<T>)
    ensures |r.trace| > 0 && r.trace[0] == RemoveElements
    ensures r.error.None? <==> FileId in fields
    ensures r.error.Some? ==> r.error.value == ColumnNotFound(FileId)
    ensures r.error.Some? ==> Mutations(r.trace) == [RemoveElements] && RefreshCount(r.trace) == 0
    ensures r.error.None? ==>
              Mutations(r.trace) == [RemoveElements, AddElements(FileIds(fields, cells))]
              && EndsWithSingleRefresh(r.trace)
  {
    var cleared := [RemoveElements];
    match ColumnSelection(fields, cells, FileId)
    case Failure(e) =>
      MutationsThenRefresh(cleared);
      Run(cleared, Some(e))
    case Success(ids) =>
      var calls := cleared + [AddElements(ids)];
      MutationsThenRefresh(calls);
      Run(calls + [Refresh], None)
  }

  /** `_QueueNext`: hand the selected tracks to `AddNext`, then refresh. */
  function QueueNext<T>(fields: seq<string>, cells: seq<T>): (r: Run<T>)
    ensures r.error.None? <==> FileId in fields
    ensures r.error.Some? ==> r.error.value == ColumnNotFound(FileId) && r.trace == []
    ensures r.error.None? ==>
              Mutations(r.trace) == [AddNext(FileIds(fields, cells))]
              && EndsWithSingleRefresh(r.trace)
  {
    match ColumnSelection(fields, cells, FileId)
    case Failure(e) => Run([], Some(e))
    case Success(ids) =>
      MutationsThenRefresh([AddNext(ids)]);
      Run([AddNext(ids)] + [Refresh], None)
  }

  /** `_QueueLast`: append the selected tracks, then refresh; never clears. */
  function QueueLast<T>(fields: seq<string>, cells: seq<T>): (r: Run<T>)
    ensures RemoveElements !in r.trace
    ensures r.error.None? <==> FileId in fields
    ensures r.error.Some? ==> r.error.value == ColumnNotFound(FileId) && r.trace == []
    ensures r.error.None? ==>
              Mutations(r.trace) == [AddElements(FileIds(fields, cells))]
              && EndsWithSingleRefresh(r.trace)
  {
    match ColumnSelection(fields, cells, FileId)
    case Failure(e) => Run([], Some(e))
    case Success(ids) =>
      MutationsThenRefresh([AddElements(ids)]);
      Run([AddElements(ids)] + [Refresh], None)
  }

  // ---------------------------------------------------------------------------
  // What the actions do to the queue and to the view
  // ---------------------------------------------------------------------------

  /** "Play Now" leaves exactly the selected tracks in the queue, whatever it
      held before, and the view is refreshed once with that queue. */
  lemma PlayNowReplacesQueue<T>(fields: seq<string>, cells: seq<T>, q: seq<T>,
                                addNext: (seq<T>, seq<T>) -> seq<T>)
    requires FileId in fields
    ensures Replay(q, PlayNow(fields, cells).trace, addNext)
            == Replayed(FileIds(fields, cells), [FileIds(fields, cells)])
  {
    var ids := FileIds(fields, cells);
    var calls := [RemoveElements, AddElements(ids)];
    assert PlayNow(fields, cells).trace == calls + [Refresh];
    assert calls[1..] == [AddElements(ids)];
    assert Replay(q, calls, addNext).queue == Replay([], [AddElements(ids)], addNext).queue == ids;
    MutationsThenRefresh(calls);
    ReplayThenRefresh(q, calls, addNext);
  }

  /** A failed "Play Now" has already emptied the queue, and the view is not
      refreshed: it keeps showing the old queue. */
  lemma PlayNowFailureEmptiesQueue<T>(fields: seq<string>, cells: seq<T>, q: seq<T>,
                                      addNext: (seq<T>, seq<T>) -> seq<T>)
    requires FileId !in fields
    ensures Replay(q, PlayNow(fields, cells).trace, addNext) == Replayed([], [])
  {
  }

  /** "Queue Next" leaves the queue as `AddNext` makes it and shows that queue. */
  lemma QueueNextDefersToAddNext<T>(fields: seq<string>, cells: seq<T>, q: seq<T>,
                                    addNext: (seq<T>, seq<T>) -> seq<T>)
    ensures FileId in fields ==>
              var after := addNext(q, FileIds(fields, cells));
              Replay(q, QueueNext(fields, cells).trace, addNext) == Replayed(after, [after])
    ensures FileId !in fields ==> Replay(q, QueueNext(fields, cells).trace, addNext) == Replayed(q, [])
  {
    if FileId in fields {
      var calls := [AddNext(FileIds(fields, cells))];
      MutationsThenRefresh(calls);
      ReplayThenRefresh(q, calls, addNext);
    }
  }

  /** "Queue Last" appends the selected tracks behind the existing queue, in
      selection order, and shows the result; on failure nothing changes. */
  lemma QueueLastAppends<T>(fields: seq<string>, cells: seq<T>, q: seq<T>,
                            addNext: (seq<T>, seq<T>) -> seq<T>)
    ensures FileId in fields ==>
              var after := q + FileIds(fields, cells);
              Replay(q, QueueLast(fields, cells).trace, addNext) == Replayed(after, [after])
    ensures FileId !in fields ==> Replay(q, QueueLast(fields, cells).trace, addNext) == Replayed(q, [])
  {
    if FileId in fields {
      var calls := [AddElements(FileIds(fields, cells))];
      MutationsThenRefresh(calls);
      ReplayThenRefresh(q, calls, addNext);
    }
  }
}
