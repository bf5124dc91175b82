/**
 The queue shape shared by the impression and event stores: a table used as a
 FIFO ordered by creation time, a size past which the queue counts as full,
 and a hook that `put` calls when the queue is full.

 Creation time is modelled by the insertion sequence number (the primary key),
 so here rows inserted in one batch keep their argument order; tied or
 decreasing timestamps are outside the model. The hook is a caller-side
 callable; here it is known only by an identity, and calling it is recorded
 rather than run.
 */
module Queues {
  import opened Common
  import opened Tables

  /** The identity of a callable registered as a table-full hook. */
  type HookId = nat

  /** The argument of `set_table_full_hook`: a callable, or anything else. */
  datatype HookArg = Callable(hook: HookId) | NotCallable

  datatype Queue<T> = Queue(table: Table<T>, queueSize: int, hook: Option<HookId>)

  /** What `put` leaves behind: the queue, the call's outcome (`True`, or the
      error of calling an unset hook) and the hooks it called, in order. */
  datatype PutOutcome<T> = PutOutcome(queue: Queue<T>, result: Result<bool>, calls: seq<HookId>)

  /** What `pop_many` leaves behind: the queue and the items, oldest first. */
  datatype PopOutcome<T> = PopOutcome(queue: Queue<T>, items: seq<T>)

  predicate Inv<T>(q: Queue<T>) {
    Valid(q.table)
  }

  /** A new store: an empty table and no hook. */
  function NewQueue<T>(queueSize: int): (q: Queue<T>)
    ensures Inv(q) && q.table.rows == [] && q.hook.None?
  {
    Queue(EmptyTable(), queueSize, None)
  }

  /** The queued items, oldest first. */
  function Values<T>(rows: seq<Row<T>>): (items: seq<T>)
    ensures |items| == |rows|
    ensures forall i :: 0 <= i < |rows| ==> items[i] == rows[i].val
  {
    seq(|rows|, i requires 0 <= i < |rows| => rows[i].val)
  }

  /** `set_table_full_hook`: a callable replaces the hook; anything else is ignored. */
  function SetTableFullHook<T>(q: Queue<T>, arg: HookArg): (r: Queue<T>)
    ensures r.table == q.table && r.queueSize == q.queueSize
    ensures arg.Callable? ==> r.hook == Some(arg.hook)
    ensures arg.NotCallable? ==> r == q
  {
    match arg
    case Callable(h) => q.(hook := Some(h))
    case NotCallable => q
  }

  function Records<T>(items: seq<T>): (records: seq<Record<T>>)
    ensures AllFresh(records) && |records| == |items|
    ensures forall k :: 0 <= k < |items| ==> records[k].val == items[k]
  {
    seq(|items|, k requires 0 <= k < |items| => Fresh(items[k]))
  }

  /** `put`: commits the items as new rows in argument order; then, when `full`
      holds of the table, calls the hook once, which fails when no hook is set
      (the rows stay committed). Otherwise `put` returns `True`. */
  function Enqueue<T>(q: Queue<T>, items: seq<T>, full: Table<T> -> bool): (r: PutOutcome<T>)
    ensures r.queue.queueSize == q.queueSize && r.queue.hook == q.hook
    ensures Values(r.queue.table.rows) == Values(q.table.rows) + items
    ensures r.queue.table.rows[..|q.table.rows|] == q.table.rows
    ensures Inv(q) ==> Inv(r.queue)
    ensures |r.calls| <= 1
    ensures r.calls != [] <==> full(r.queue.table) && q.hook.Some?
    ensures r.calls != [] ==> r.calls[0] == q.hook.value
    ensures r.result.Err? <==> full(r.queue.table) && q.hook.None?
    ensures r.result.Err? ==> r.result.error == HookNotCallable
    ensures r.result.Ok? ==> r.result.value
  {
    var t := MergeAndCommit(q.table, Records(items));
    assert Values(t.rows) == Values(q.table.rows) + items by {
      assert forall i :: 0 <= i < |q.table.rows| ==> t.rows[..|q.table.rows|][i] == t.rows[i];
    }
    var queue := q.(table := t);
    if !full(t) then PutOutcome(queue, Ok(true), [])
    else match q.hook
      case None => PutOutcome(queue, Err(HookNotCallable), [])
      case Some(h) => PutOutcome(queue, Ok(true), [h])
  }

  /** The `LIMIT` of `pop_many(count)`: a negative count places no bound. */
  function Limit(count: int): Option<nat> {
    if count < 0 then None else Some(count)
  }

  /** How many rows `pop_many(count)` takes from a table of `size` rows. */
  function Taken(count: int, size: nat): nat {
    if 0 <= count < size then count else size
  }

  /** `pop_many(count)`: removes and returns the `count` oldest items, or every
      item when `count` is negative or exceeds the queue's length. */
  function PopMany<T(==)>(q: Queue<T>, count: int): (r: PopOutcome<T>)
    ensures r.queue.queueSize == q.queueSize && r.queue.hook == q.hook
    ensures r.queue.table.nextId == q.table.nextId
    ensures Inv(q) ==> Inv(r.queue)
    ensures Inv(q) ==>
      && r.items == Values(q.table.rows[..Taken(count, |q.table.rows|)])
      && r.queue.table.rows == q.table.rows[Taken(count, |q.table.rows|)..]
  {
    var popped := Pop(q.table, Limit(count), Everything(), Some(ByInsertion()));
    assert Inv(q) ==>
      (popped.table.rows == q.table.rows[Taken(count, |q.table.rows|)..]
       && popped.rows == q.table.rows[..Taken(count, |q.table.rows|)]) by {
      if Inv(q) {
        PopOldestCount(q.table, count);
      }
    }
    PopOutcome(q.(table := popped.table), Values(popped.rows))
  }

  /** The serialised column of each item, in order. */
  function Payloads<T>(items: seq<T>, payload: T -> string): (payloads: seq<string>)
    ensures |payloads| == |items|
    ensures forall i :: 0 <= i < |items| ==> payloads[i] == payload(items[i])
  {
    seq(|items|, i requires 0 <= i < |items| => payload(items[i]))
  }

  /** `pop_many(count)` of the impression and event stores: the serialised
      payloads of the `count` oldest items, oldest first; exactly those items
      leave the queue. */
  function PopPayloads<T(==)>(q: Queue<T>, count: int, payload: T -> string): (r: (Queue<T>, seq<string>))
    ensures r.0.queueSize == q.queueSize && r.0.hook == q.hook
    ensures Inv(q) ==> Inv(r.0)
    ensures Inv(q) ==>
      && |r.1| == Taken(count, |q.table.rows|)
      && (forall i :: 0 <= i < |r.1| ==> r.1[i] == payload(q.table.rows[i].val))
      && r.0.table.rows == q.table.rows[Taken(count, |q.table.rows|)..]
  {
    var popped := PopMany(q, count);
    (popped.queue, Payloads(popped.items, payload))
  }

  lemma PopOldestCount<T>(t: Table<T>, count: int)
    requires Valid(t)
    ensures Pop(t, Limit(count), Everything(), Some(ByInsertion())) ==
      Popped(Table(t.rows[Taken(count, |t.rows|)..], t.nextId), t.rows[..Taken(count, |t.rows|)])
  {
    PopOldestFirst(t, Limit(count));
    assert Taken(count, |t.rows|) == Capped(Limit(count), |t.rows|);
  }

  /** `clear`: deletes every queued item. */
  function Clear<T>(q: Queue<T>): (r: Queue<T>)
    ensures r.table.rows == [] && r.table.nextId == q.table.nextId
    ensures r.queueSize == q.queueSize && r.hook == q.hook
    ensures Inv(r)
  {
    var t := DeleteAll(q.table, Everything());
    assert |t.rows| == 0 by {
      CountAll(q.table.rows, Everything());
    }
    q.(table := t)
  }

  /** Items come out in the order they went in: after a `put`, draining the
      queue returns what was queued before followed by the new items. */
  lemma PutThenDrain<T>(q: Queue<T>, items: seq<T>, full: Table<T> -> bool)
    requires Inv(q)
    ensures PopMany(Enqueue(q, items, full).queue, -1).items == Values(q.table.rows) + items
  {
    var t := Enqueue(q, items, full).queue.table;
    assert t.rows[..|t.rows|] == t.rows;
  }

  /** Successive pops of `a` and then `b` items take consecutive slices of the
      queue, oldest first. */
  lemma PopsAreConsecutive<T>(q: Queue<T>, a: nat, b: nat)
    requires Inv(q) && a + b <= |q.table.rows|
    ensures var first := PopMany(q, a);
      && first.items == Values(q.table.rows[..a])
      && PopMany(first.queue, b).items == Values(q.table.rows[a..a + b])
  {
    var first := PopMany(q, a);
    assert first.items == Values(q.table.rows[..a]) && Inv(first.queue) && first.queue.table.rows == q.table.rows[a..] by {
      PopPrefix(q, a);
    }
    PopSlice(q.table.rows, first.queue, a, b);
  }

  lemma PopSlice<T>(rows: seq<Row<T>>, rest: Queue<T>, a: nat, b: nat)
    requires Inv(rest) && a + b <= |rows| && rest.table.rows == rows[a..]
    ensures PopMany(rest, b).items == Values(rows[a..a + b])
  {
    PopPrefix(rest, b);
    SliceOfSlice(rows, a, b);
  }

  lemma SliceOfSlice<X>(s: seq<X>, a: nat, b: nat)
    requires a + b <= |s|
    ensures s[a..][..b] == s[a..a + b]
  {
  }

  /** Popping at most the queue's length takes exactly that prefix. */
  lemma PopPrefix<T>(q: Queue<T>, k: nat)
    requires Inv(q) && k <= |q.table.rows|
    ensures Inv(PopMany(q, k).queue)
    ensures PopMany(q, k).items == Values(q.table.rows[..k])
    ensures PopMany(q, k).queue.table.rows == q.table.rows[k..]
  {
    assert Taken(k, |q.table.rows|) == k;
  }

  /** After `clear`, `pop_many` returns nothing. */
  lemma ClearThenPop<T>(q: Queue<T>, count: int)
    ensures PopMany(Clear(q), count).items == []
  {
  }
}
