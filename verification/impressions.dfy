/**
 The impression store: a queue of serialised impressions that counts as full
 once it holds more than `queueSize` of them.
 */
module ImpressionStore {
  import opened Common
  import opened Tables
  import opened Models
  import opened Queues

  /** The overflow rule: more rows than the queue size. */
  function Full(queueSize: int): Table<ImpressionRow> -> bool {
    (t: Table<ImpressionRow>) => GetCount(t, Everything()) > queueSize
  }

  function Rows(impressions: seq<string>): (rows: seq<ImpressionRow>)
    ensures |rows| == |impressions|
    ensures forall i :: 0 <= i < |rows| ==> rows[i].payload == impressions[i]
  {
    seq(|impressions|, i requires 0 <= i < |impressions| => ImpressionRow(impressions[i]))
  }

  /** `put`: queues the impressions in order; the hook is called, once, exactly
      when the queue then holds more than `queueSize` impressions. */
  function Put(q: Queue<ImpressionRow>, impressions: seq<string>): (r: PutOutcome<ImpressionRow>)
    ensures r.queue.queueSize == q.queueSize && r.queue.hook == q.hook
    ensures Inv(q) ==> Inv(r.queue)
    ensures Values(r.queue.table.rows) == Values(q.table.rows) + Rows(impressions)
    ensures |r.calls| <= 1
    ensures r.calls != [] <==> |q.table.rows| + |impressions| > q.queueSize && q.hook.Some?
    ensures r.calls != [] ==> r.calls[0] == q.hook.value
    ensures r.result.Err? <==> |q.table.rows| + |impressions| > q.queueSize && q.hook.None?
    ensures r.result.Ok? ==> r.result.value
  {
    var r := Enqueue(q, Rows(impressions), Full(q.queueSize));
    FullAfter(q, impressions, r.queue.table);
    r
  }

  /** The queue after `put` is full exactly when the old rows and the new
      impressions together exceed the queue size. */
  lemma FullAfter(q: Queue<ImpressionRow>, impressions: seq<string>, t: Table<ImpressionRow>)
    requires Values(t.rows) == Values(q.table.rows) + Rows(impressions)
    ensures Full(q.queueSize)(t) <==> |q.table.rows| + |impressions| > q.queueSize
  {
    assert |t.rows| == |Values(t.rows)|;
    CountAll(t.rows, Everything());
  }

  /** With a hook set on an empty queue, one `put` calls it exactly when it
      brings in more impressions than the queue size. */
  lemma PutCallsHookPastQueueSize(queueSize: int, h: HookId, impressions: seq<string>)
    ensures var q := SetTableFullHook(NewQueue(queueSize), Callable(h));
      var r := Put(q, impressions);
      r.result == Ok(true) && r.calls == if |impressions| > queueSize then [h] else []
  {
  }

  /** Queue size 100: a batch of 101 impressions calls the hook once, a batch of
      100 does not call it. */
  lemma HookAtHundredAndOne(h: HookId, batch: seq<string>)
    requires |batch| == 101
    ensures Put(SetTableFullHook(NewQueue(100), Callable(h)), batch).calls == [h]
    ensures Put(SetTableFullHook(NewQueue(100), Callable(h)), batch[..100]).calls == []
  {
    PutCallsHookPastQueueSize(100, h, batch);
    PutCallsHookPastQueueSize(100, h, batch[..100]);
  }
}
