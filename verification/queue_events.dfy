/**
 The calls a controller action makes on the playing queue and on the
 now-playing view, as abstract events.

 `PlayingQueue` (apollo.utils) and `NowPlayingTab.RefreshQueueTable` are
 collaborators whose code is not part of this model, so an action is
 described by the trace of calls it issues. `Replay` gives that trace one
 reading: `RemoveElements` empties the queue, `AddElements` appends,
 `AddNext` is whatever the caller-supplied `addNext` does (its insertion
 point is not known), and `Refresh` hands the current contents of the queue
 to the view.
 */
module QueueEvents {

  /** One call on the playing queue or the now-playing view. */
  datatype QueueEvent<T> =
    | RemoveElements            // PlayQueue.RemoveElements()
    | AddElements(ids: seq<T>)  // PlayQueue.AddElements(ids)
    | AddNext(ids: seq<T>)      // PlayQueue.AddNext(ids)
    | Refresh                   // NowPlayingTab.RefreshQueueTable()

  /** True of the calls that change the queue. */
  predicate IsMutation<T>(e: QueueEvent<T>)
  {
    !e.Refresh?
  }

  /** The queue calls of a trace, in order, with the refreshes left out. */
  function Mutations<T>(trace: seq<QueueEvent<T>>): (m: seq<QueueEvent<T>>)
    ensures forall i :: 0 <= i < |m| ==> IsMutation(m[i])
  {
    if |trace| == 0 then []
    else if IsMutation(trace[0]) then [trace[0]] + Mutations(trace[1..])
    else Mutations(trace[1..])
  }

  /** The number of refreshes in a trace. */
  function RefreshCount<T>(trace: seq<QueueEvent<T>>): nat
  {
    if |trace| == 0 then 0
    else (if trace[0].Refresh? then 1 else 0) + RefreshCount(trace[1..])
  }

  /** The trace finishes with a refresh, and that is the only refresh in it. */
  predicate EndsWithSingleRefresh<T>(trace: seq<QueueEvent<T>>)
  {
    && |trace| > 0
    && trace[|trace| - 1].Refresh?
    && forall i :: 0 <= i < |trace| - 1 ==> !trace[i].Refresh?
  }

  /** The queue after one call. */
  function Step<T>(q: seq<T>, e: QueueEvent<T>, addNext: (seq<T>, seq<T>) -> seq<T>): seq<T>
  {
    match e
    case RemoveElements => []
    case AddElements(ids) => q + ids
    case AddNext(ids) => addNext(q, ids)
    case Refresh => q
  }

  /** What replaying a trace leaves behind: the final queue, and the queue
      contents each refresh handed to the view, in order. */
  datatype Replayed<T> = Replayed(queue: seq<T>, refreshed: seq<seq<T>>)

  /** The trace's calls applied in order to the queue `q`. */
  function Replay<T>(q: seq<T>, trace: seq<QueueEvent<T>>, addNext: (seq<T>, seq<T>) -> seq<T>)
    : (r: Replayed<T>)
    ensures |r.refreshed| == RefreshCount(trace)
    ensures |trace| > 0 && trace[|trace| - 1].Refresh? ==>
              |r.refreshed| > 0 && r.refreshed[|r.refreshed| - 1] == r.queue
    decreases |trace|
  {
    if |trace| == 0 then Replayed(q, [])
    else
      var rest := Replay(Step(q, trace[0], addNext), trace[1..], addNext);
      if trace[0].Refresh? then Replayed(rest.queue, [q] + rest.refreshed) else rest
  }

  /** Replaying two traces one after the other is replaying their concatenation. */
  lemma {:induction false} ReplayConcat<T>(q: seq<T>, a: seq<QueueEvent<T>>, b: seq<QueueEvent<T>>,
                                           addNext: (seq<T>, seq<T>) -> seq<T>)
    ensures var ra := Replay(q, a, addNext);
            var rb := Replay(ra.queue, b, addNext);
            Replay(q, a + b, addNext) == Replayed(rb.queue, ra.refreshed + rb.refreshed)
    decreases |a|
  {
    if |a| == 0 {
      assert a + b == b;
    } else {
      var q1 := Step(q, a[0], addNext);
      assert (a + b)[0] == a[0];
      assert (a + b)[1..] == a[1..] + b;
      ReplayConcat(q1, a[1..], b, addNext);
      var ra1 := Replay(q1, a[1..], addNext);
      var rb := Replay(ra1.queue, b, addNext);
      if a[0].Refresh? {
        assert [q] + (ra1.refreshed + rb.refreshed) == ([q] + ra1.refreshed) + rb.refreshed;
      }
    }
  }

  /** Queue calls followed by one refresh: the refresh is the only one, it comes
      last, and the calls before it are the trace's mutations. */
  lemma {:induction false} MutationsThenRefresh<T>(m: seq<QueueEvent<T>>)
    requires forall i :: 0 <= i < |m| ==> IsMutation(m[i])
    ensures RefreshCount(m) == 0
    ensures Mutations(m + [Refresh]) == m
    ensures EndsWithSingleRefresh(m + [Refresh])
    decreases |m|
  {
    if |m| == 0 {
      assert m + [Refresh] == [Refresh];
    } else {
      var t := m + [Refresh];
      MutationsThenRefresh(m[1..]);
      assert t[0] == m[0] && t[1..] == m[1..] + [Refresh];
      assert Mutations(t) == [m[0]] + Mutations(m[1..] + [Refresh]);
      assert m == [m[0]] + m[1..];
    }
  }

  /** After queue calls alone, a refresh shows the queue they leave behind. */
  lemma ReplayThenRefresh<T>(q: seq<T>, m: seq<QueueEvent<T>>, addNext: (seq<T>, seq<T>) -> seq<T>)
    requires RefreshCount(m) == 0
    ensures var after := Replay(q, m, addNext).queue;
            Replay(q, m + [Refresh], addNext) == Replayed(after, [after])
  {
    ReplayConcat(q, m, [Refresh], addNext);
  }
}
