/**
 The event store: a queue of serialised events, each with its size in bytes,
 that counts as full once it holds more than `queueSize` events or at least
 `MaxSizeBytes` bytes of them.
 */
module EventStore {
  import opened Common
  import opened Tables
  import opened Models
  import opened Queues

  /** Five mebibytes. */
  const MaxSizeBytes: int := 5 * 1024 * 1024

  /** The summed `size` column of the events. */
  function SizeSum(events: seq<EventRow>): int {
    if |events| == 0 then 0 else SizeSum(events[..|events| - 1]) + events[|events| - 1].size
  }

  /** Sizes add up over concatenation. */
  lemma {:induction false} SizeSumAppend(a: seq<EventRow>, b: seq<EventRow>)
    ensures SizeSum(a + b) == SizeSum(a) + SizeSum(b)
    decreases |b|
  {
    if |b| == 0 {
      assert a + b == a;
    } else {
      var b' := b[..|b| - 1];
      assert (a + b)[..|a + b| - 1] == a + b';
      SizeSumAppend(a, b');
    }
  }

  /** Events of one common size weigh that size times their number. */
  lemma {:induction false} SizeSumUniform(events: seq<EventRow>, size: int)
    requires forall i :: 0 <= i < |events| ==> events[i].size == size
    ensures SizeSum(events) == |events| * size
    decreases |events|
  {
    if |events| > 0 {
      SizeSumUniform(events[..|events| - 1], size);
    }
  }

  /** The overflow rule: more rows than the queue size, or the sizes of all
      stored events reaching `MaxSizeBytes`. */
  function Full(queueSize: int): Table<EventRow> -> bool {
    (t: Table<EventRow>) =>
      GetCount(t, Everything()) > queueSize
      || SizeSum(Values(GetAll(t, Everything(), None))) >= MaxSizeBytes
  }

  /** The table after `put` is full exactly when the old rows and the new events
      together exceed the queue size or reach the byte limit. */
  lemma FullAfter(q: Queue<EventRow>, events: seq<EventRow>, t: Table<EventRow>)
    requires Values(t.rows) == Values(q.table.rows) + events
    ensures Full(q.queueSize)(t) <==>
      |q.table.rows| + |events| > q.queueSize
      || SizeSum(Values(q.table.rows)) + SizeSum(events) >= MaxSizeBytes
  {
    assert |t.rows| == |Values(t.rows)|;
    CountAll(t.rows, Everything());
    WhereEverything(t.rows, Everything());
    SizeSumAppend(Values(q.table.rows), events);
  }

  /** `put`: queues the events in order; the hook is called, once, exactly when
      the queue then holds more than `queueSize` events or at least
      `MaxSizeBytes` bytes. */
  function Put(q: Queue<EventRow>, events: seq<EventRow>): (r: PutOutcome<EventRow>)
    ensures r.queue.queueSize == q.queueSize && r.queue.hook == q.hook
    ensures Inv(q) ==> Inv(r.queue)
    ensures Values(r.queue.table.rows) == Values(q.table.rows) + events
    ensures |r.calls| <= 1
    ensures r.calls != [] <==>
      (|q.table.rows| + |events| > q.queueSize
       || SizeSum(Values(q.table.rows)) + SizeSum(events) >= MaxSizeBytes)
      && q.hook.Some?
    ensures r.calls != [] ==> r.calls[0] == q.hook.value
    ensures r.result.Err? <==>
      (|q.table.rows| + |events| > q.queueSize
       || SizeSum(Values(q.table.rows)) + SizeSum(events) >= MaxSizeBytes)
      && q.hook.None?
    ensures r.result.Ok? ==> r.result.value
  {
    var r := Enqueue(q, events, Full(q.queueSize));
    FullAfter(q, events, r.queue.table);
    r
  }

  /** Queue size 200 and events of 32768 bytes: 160 of them make exactly five
      mebibytes and call the hook, 159 do not. */
  lemma HookAtByteLimit(h: HookId, events: seq<EventRow>)
    requires |events| == 160
    requires forall i :: 0 <= i < |events| ==> events[i].size == 32768
    ensures Put(SetTableFullHook(NewQueue(200), Callable(h)), events).calls == [h]
    ensures Put(SetTableFullHook(NewQueue(200), Callable(h)), events[..159]).calls == []
  {
    SizeSumUniform(events, 32768);
    SizeSumUniform(events[..159], 32768);
    assert Values<EventRow>([]) == [];
  }

  /** Queue size 100 and small events: the 101st event calls the hook, 100 do
      not. */
  lemma HookAtHundredAndOne(h: HookId, events: seq<EventRow>)
    requires |events| == 101
    requires forall i :: 0 <= i < |events| ==> 0 <= events[i].size <= 1024
    ensures Put(SetTableFullHook(NewQueue(100), Callable(h)), events).calls == [h]
    ensures Put(SetTableFullHook(NewQueue(100), Callable(h)), events[..100]).calls == []
  {
    SizeSumBound(events[..100], 1024);
    assert Values<EventRow>([]) == [];
  }

  /** Events of at most `size` bytes each weigh at most `size` times their
      number. */
  lemma {:induction false} SizeSumBound(events: seq<EventRow>, size: int)
    requires forall i :: 0 <= i < |events| ==> 0 <= events[i].size <= size
    ensures 0 <= SizeSum(events) <= |events| * size
    decreases |events|
  {
    if |events| > 0 {
      SizeSumBound(events[..|events| - 1], size);
    }
  }
}
