# split_client_side persistence layer in Dafny

This project models the SQL persistence layer of the split_client_side SDK.

The layer has two parts. The first is a generic record client, `DbClient`. It offers a handful of primitives over relational tables:

- reads: `get_all`, `get_count`, `get_one_or_none`, `get_first`;
- writes: `merge_and_commit`, `update_or_insert`, `delete_all`;
- `pop`, a read that removes what it returns;
- `increment_or_create`.

The second part is the set of stores the SDK builds on those primitives:

- the split store: splits by name, the split change number, traffic-type validity;
- the segment store: keys per segment and a per-segment change number;
- the per-subject membership store (`SqlMySegmentsStorage`);
- the impression and event queues, with their table-full hook;
- the telemetry store: latency histograms, counters and gauges.

Everything is sequential and functional. A table is the sequence of its rows in primary-key order, plus the key the next inserted row gets. Every primitive and store operation is a pure function from the old tables to the new tables and a result.

Where the source raises, the function returns an error:

- `one_or_none` finding several rows gives `MultipleRowsFound`;
- calling a table-full hook that was never set gives `HookNotCallable`.

Promises that hold only for a store whose invariant holds are stated as `Inv(s) ==> …`. For example, the split store's invariant says no two rows share a name. Every operation is proved to preserve its store's invariant. No `requires` shuts out a state the source accepts.

Modules, one per file:

- `Common`: `Option`, `Result`, `Error`.
- `Sequences`: filtering, a stable insertion sort, `Take`.
- `Models`: the row shapes of the mapped classes.
- `Tables`: the `DbClient` primitives.
- `Keyed`: a table seen as a dict from a name column to rows, and the look-up-then-save idiom of the stores.
- `SplitStore`, `SegmentStore`, `MySegmentsStore`: the three read-mostly stores.
- `Queues`: shared by the two queue stores, `ImpressionStore` and `EventStore`.
- `TelemetryStore`: latencies, counters and gauges.

Modelling decisions:

- **Row identity.**
  - Primary keys are handed out in increasing order and never reused.
  - Queue order comes from `created_at`, which is `datetime.now` at insertion. It is modelled by the primary key, a monotone insertion sequence number. So in the model, rows of one batch keep their argument order; the source gives no such guarantee when timestamps tie (see "Left out").
  - The metadata table is keyed by `name` in the source. Here it gets a surrogate key like the other tables, and its invariant keeps names unique. Since every access goes through the name, nothing observable changes.
- **Filters and ordering.**
  - A filter is a predicate on a row's column values.
  - An `order_by` column is an integer function of the row, with a direction.
  - Sorting is stable. This is the model's choice: SQL `ORDER BY` leaves the order of equal keys unspecified.
- **Hooks.** A registered table-full hook is an opaque identity (`Queues.HookId`). `put` reports the hooks it called, in order.
- **Segment keys.** A segment's keys (`split_segment_keys`) are stored inside its row as a sequence, in collection order.
- **Serialised columns.** JSON columns (split definitions, impression and event payloads) are opaque strings.
- **Pop limits.** `pop_many(count)` passes `count` to `LIMIT`. SQLite reads a negative `LIMIT` as no limit, and so does the model; a `count` of 0 returns nothing.
- **Integers.** Integers are unbounded.

## Model

| member | source | states |
|---|---|---|
| Tables.Where | split_client_side/storage/adapters/sql.py:73 | the filtered query keeps every row satisfying the filter and no other row, and never repeats a row |
| Tables.WhereAscending | split_client_side/storage/adapters/sql.py:73 | a filtered query of a table in key order is itself in key order |
| Tables.Ordered | split_client_side/storage/adapters/sql.py:74-75 | `order_by` gives a permutation of the rows sorted by the column in the chosen direction, and leaves the rows alone without one |
| Tables.GetAll | split_client_side/storage/adapters/sql.py:58-78 | `get_all` returns every matching row exactly once (as a multiset, the matching rows) and only matching rows; they are in the requested order, or in key order when none is given |
| Tables.GetCount | split_client_side/storage/adapters/sql.py:80-83 | `get_count` is at most the table size, 0 iff no row matches, and the table size iff every row matches (its exact value: Tables.GetCountMatches) |
| Tables.GetCountMatches | split_client_side/storage/adapters/sql.py:80-83 | `get_count` equals the number of table positions whose row satisfies the filter |
| Tables.CountMatches | split_client_side/storage/adapters/sql.py:80-83 | the count query returns one row per table position whose row satisfies the filter |
| Tables.CountBounds | split_client_side/storage/adapters/sql.py:80-83 | the number of matches is 0 exactly when no row matches, and the whole table exactly when all rows match |
| Tables.GetOneOrNone | split_client_side/storage/adapters/sql.py:85-88 | `one_or_none` fails (MultipleRowsFound) iff more than one row matches, gives None iff none does, and otherwise the one row that matches |
| Tables.GetFirst | split_client_side/storage/adapters/sql.py:90-93 | `first` is None iff no row matches, and otherwise the earliest matching row in table order |
| Tables.MergeOne | split_client_side/storage/adapters/sql.py:102-103 | merging a record with a known key overwrites that row's values only; merging one with an unknown key inserts it under that key; a new record is appended under the next key; key order is kept |
| Tables.MergeAndCommit | split_client_side/storage/adapters/sql.py:95-104 | when every record is new, they are appended in argument order under consecutive new keys after the existing rows, which are unchanged; key order is always kept |
| Tables.MergeAppends | split_client_side/storage/adapters/sql.py:95-104 | merging new records adds one row per record, carrying the records' values in argument order |
| Tables.MergeTrackedOverwrites | split_client_side/storage/adapters/sql.py:102-104 | merging back a record read from the table changes that row's values and nothing else: keys, order, size and next key stay |
| Tables.MergeTrackedUpdates | split_client_side/storage/adapters/sql.py:102-104 | merging back the only matching row with an update applied is an in-place update of the matching rows |
| Tables.UpdateOrInsert | split_client_side/storage/adapters/sql.py:106-115 | with no match, exactly one row built from the filter and update columns is appended; with one match, only that row's values change and the row count stays; with more, the lookup fails |
| Tables.IncrementOrCreate | split_client_side/storage/adapters/sql.py:141-152 | with no match, exactly one new row is added and ends bumped from its defaults; with one match, only that row is bumped; with more, the lookup fails |
| Tables.DeleteAll | split_client_side/storage/adapters/sql.py:117-126 | removes every row satisfying the filter and keeps every other row; the size drops by the number of matches, and key order and the next key are kept |
| Tables.SplitCount | split_client_side/storage/adapters/sql.py:117-126 | the rows a filter keeps and the rows it drops together make up the table |
| Tables.Pop | split_client_side/storage/adapters/sql.py:128-139 | `pop` returns matching rows of the table, as many as the limit allows and in the requested order; exactly the returned rows leave the table, and every other row stays |
| Tables.PopTakesFirst | split_client_side/storage/adapters/sql.py:130-135 | every matching row `pop` leaves behind sorts no earlier than any row it returned, so it returned the first rows in the order |
| Tables.PopUnlimitedDrains | split_client_side/storage/adapters/sql.py:133-139 | without a limit, no matching row remains after `pop` |
| Tables.PopOldestFirst | split_client_side/storage/adapters/sql.py:128-139 | popping oldest first with a limit takes the table's first rows, as many as the limit allows, and leaves the rest in order |
| Tables.PopEverything | split_client_side/storage/adapters/sql.py:128-139 | `pop` with no limit, filter or order returns the whole table and empties it |
| Sequences.SortBy | split_client_side/storage/adapters/sql.py:74-75 | sorting gives a permutation of its input that is ordered by the key |
| Sequences.SortBySorted | split_client_side/storage/adapters/sql.py:74-75 | sorting rows that are already in key order leaves them unchanged, so ties keep table order |
| Sequences.Take | split_client_side/storage/adapters/sql.py:133-134 | a `LIMIT` keeps a prefix of the ordered rows, of length the smaller of the limit and the row count |
| Models.NewLatency | split_client_side/storage/adapters/sql.py:231-252 | a new latency row has 22 buckets, all defaulting to 0 |
| Models.Bumped | split_client_side/storage/adapters/sql.py:151 | `bucket_b + 1` raises bucket b by one and leaves the name and every other bucket unchanged |
| Keyed.ToMap | split_client_side/storage/sql.py:469 | a dict built from the rows has exactly the rows' names as keys |
| Keyed.ToMapView | split_client_side/storage/sql.py:469 | the dict of one column agrees with the table's name-to-row view on keys and values |
| Keyed.ToMapAt | split_client_side/storage/sql.py:469 | with unique names, each row's entry in the dict is its own value |
| Keyed.WhereView | split_client_side/storage/adapters/sql.py:73 | with unique names, a filtered query is the name-to-row view restricted to the entries satisfying the filter |
| Keyed.DeleteKeyView | split_client_side/storage/adapters/sql.py:117-126 | deleting the rows of one name removes that name from the view, keeps names unique, and changes nothing else |
| Keyed.UniqueAtMostOne | split_client_side/storage/adapters/sql.py:85-88 | with unique names, a lookup by name matches at most one row, so `one_or_none` cannot fail |
| Keyed.Lookup | split_client_side/storage/adapters/sql.py:85-88 | with unique names, a lookup by name succeeds and returns that name's row from the view, or None |
| Keyed.Upsert | split_client_side/storage/sql.py:64-77 | look-up-then-merge keeps names unique; a missing name gets the new row and a present one gets its row updated, and no other name changes |
| Keyed.UpdateOrInsertView | split_client_side/storage/adapters/sql.py:106-115 | `update_or_insert` by name succeeds on a table with unique names, keeps them unique, and changes the view at that name only |
| Keyed.IncrementOrCreateView | split_client_side/storage/adapters/sql.py:141-152 | `increment_or_create` by name keeps names unique and ends with exactly one row of that name; the row is the old one bumped, or the defaults bumped |
| Keyed.Increment | split_client_side/storage/adapters/sql.py:141-152 | seen through the name-to-row view, `increment_or_create` bumps the named entry (from the defaults when missing) and keeps names unique and keys ordered |
| SplitStore.Empty | split_client_side/storage/sql.py:16-19 | a new store satisfies the invariant and holds no split |
| SplitStore.Get | split_client_side/storage/sql.py:28-40 | `get` returns the stored split of that name, or None when it is absent |
| SplitStore.Put | split_client_side/storage/sql.py:57-77 | `put` is an upsert keyed by name: the split replaces any stored split of that name, names stay unique, and the metadata is untouched |
| SplitStore.Remove | split_client_side/storage/sql.py:79-94 | `remove` returns true iff the name was stored, and afterwards the name is gone and every other split is unchanged |
| SplitStore.GetChangeNumber | split_client_side/storage/sql.py:96-103 | the stored split change number, or 0 when none is stored |
| SplitStore.SetChangeNumber | split_client_side/storage/sql.py:105-112 | `set_change_number` writes the `change_number` metadata row, keeps metadata names unique, and leaves the splits untouched |
| SplitStore.ChangeNumberInitially | split_client_side/storage/sql.py:102-103 | the change number reads 0 before one is set |
| SplitStore.ChangeNumberRoundTrip | split_client_side/storage/sql.py:96-112 | after `set_change_number(n)`, `get_change_number()` returns n |
| SplitStore.GetSplitNames | split_client_side/storage/sql.py:114-122 | `get_split_names` is the set of names of the stored rows |
| SplitStore.PutListsName | split_client_side/storage/sql.py:57-77 | after `put`, the listed names are the old ones plus the split's name |
| SplitStore.RemoveUnlistsName | split_client_side/storage/sql.py:79-94 | after `remove`, the listed names are the old ones minus the removed name |
| SplitStore.FetchMany | split_client_side/storage/sql.py:42-55 | `fetch_many` has exactly the requested names as keys; each maps to the stored split of that name, or to None when none is stored |
| SplitStore.IsValidTrafficType | split_client_side/storage/sql.py:134-145 | true iff some stored split has that traffic type |
| SplitStore.PutTrafficType | split_client_side/storage/sql.py:57-77 | after `put`, a traffic type is valid iff the new split has it or a split under another name has it, so an overwrite drops the old traffic type |
| SplitStore.RemoveTrafficType | split_client_side/storage/sql.py:79-94 | after `remove`, a traffic type is valid iff a split under another name has it |
| SplitStore.KillLocally | split_client_side/storage/sql.py:156-174 | `kill_locally` does nothing when the stored change number is newer than the kill's or the split is absent, and otherwise hands on the stored split |
| SegmentStore.Get | split_client_side/storage/sql.py:189-202 | `get` returns the stored segment with its keys in order and its change number, or None when absent |
| SegmentStore.Put | split_client_side/storage/sql.py:204-215 | `put` replaces the segment's keys; an existing segment keeps its stored change number and a new one takes the given one |
| SegmentStore.Revise | split_client_side/storage/sql.py:231-235 | the new keys are the old ones not to be removed followed by the ones to add, as a multiset and by membership; the change number changes iff one is given |
| SegmentStore.Update | split_client_side/storage/sql.py:217-236 | `update` revises the stored segment, creating it with no keys first when absent, and changes no other segment |
| SegmentStore.GetChangeNumber | split_client_side/storage/sql.py:238-250 | the segment's change number, or None when the segment is absent |
| SegmentStore.SetChangeNumber | split_client_side/storage/sql.py:252-264 | sets the change number of a stored segment only; an absent segment leaves the store unchanged |
| SegmentStore.SetChangeNumberAbsent | split_client_side/storage/sql.py:252-264 | setting the change number of an absent segment is a no-op, and the change number still reads None |
| SegmentStore.ChangeNumberRoundTrip | split_client_side/storage/sql.py:238-264 | setting a stored segment's change number and reading it back gives the number set |
| SegmentStore.KeysOfView | split_client_side/storage/sql.py:278-282 | the key rows whose parent segment has the name are that segment's own keys |
| SegmentStore.SegmentContains | split_client_side/storage/sql.py:266-282 | `segment_contains` is true iff the key occurs once in the segment, false iff it does not occur, and fails iff it occurs more than once |
| SegmentStore.PutContains | split_client_side/storage/sql.py:204-215 | after `put` of a segment without repeated keys, `segment_contains` answers exactly whether the key is one of its keys |
| SegmentStore.UpdateDuplicateFails | split_client_side/storage/sql.py:231-233 | adding a key the segment keeps gives a duplicate, on which `segment_contains` fails |
| SegmentStore.UpdateContains | split_client_side/storage/sql.py:217-236 | after `update` without duplicates, a key is contained iff it was kept or added |
| MySegmentsStore.Memberships | split_client_side/storage/sql.py:294 | one new membership row per segment name, in argument order |
| MySegmentsStore.Put | split_client_side/storage/sql.py:292-294 | `put` makes the traffic key a member of exactly the given segments and leaves every other key's memberships alone |
| MySegmentsStore.DeleteMembers | split_client_side/storage/sql.py:293 | deleting the traffic key's rows removes exactly its memberships |
| MySegmentsStore.AppendMembers | split_client_side/storage/sql.py:294 | appending one row per segment name adds exactly those memberships |
| MySegmentsStore.SegmentContains | split_client_side/storage/sql.py:296-297 | true iff some row pairs the key with the segment |
| MySegmentsStore.PutThenContains | split_client_side/storage/sql.py:292-297 | after `put`, the key is contained in a segment iff the segment was given, and other keys answer as before |
| MySegmentsStore.Clear | split_client_side/storage/sql.py:299-300 | `clear` removes every membership |
| Queues.NewQueue | split_client_side/storage/sql.py:306-316 | a new queue is empty and has no hook |
| Queues.SetTableFullHook | split_client_side/storage/sql.py:318-325 | a callable becomes the hook; anything else leaves the queue unchanged |
| Queues.Enqueue | split_client_side/storage/sql.py:327-337 | the items are appended in order after the existing ones; the hook is called at most once, exactly when the table is full and a hook is set; the call fails iff the table is full and no hook is set; otherwise the result is True |
| Queues.PopMany | split_client_side/storage/sql.py:339-347 | `pop_many(count)` returns the `count` oldest items in insertion order (all of them when `count` is negative or too large) and leaves exactly the rest |
| Queues.PopPayloads | split_client_side/storage/sql.py:339-347 | `pop_many(count)` returns the payloads of the `count` oldest items, oldest first (all of them when `count` is negative or too large), and exactly the rest stay queued; the event store's `pop_many` (lines 398-405) is the same code |
| Queues.PopOldestCount | split_client_side/storage/adapters/sql.py:128-139 | popping oldest first with `LIMIT count` takes the first rows, with a negative count placing no bound |
| Queues.Clear | split_client_side/storage/sql.py:349-353 | `clear` empties the queue and keeps its size and hook |
| Queues.PutThenDrain | test/storage/test_sql.py:210-244 | draining after a `put` returns what was queued before followed by the new items, in order |
| Queues.PopsAreConsecutive | split_client_side/storage/sql.py:339-347 | two successive pops take consecutive slices of the queue, oldest first |
| Queues.PopPrefix | split_client_side/storage/sql.py:339-347 | popping at most the queue's length takes exactly that prefix and leaves the rest |
| Queues.ClearThenPop | test/storage/test_sql.py:259-265 | after `clear`, `pop_many` returns nothing |
| ImpressionStore.Put | split_client_side/storage/sql.py:327-337 | impressions are queued in order; the hook is called once iff the new count exceeds the queue size and a hook is set; the call fails iff it exceeds with no hook set; otherwise the result is True |
| ImpressionStore.FullAfter | split_client_side/storage/sql.py:335 | the queue is full after `put` iff the old rows and the new impressions together exceed the queue size |
| ImpressionStore.PutCallsHookPastQueueSize | split_client_side/storage/sql.py:327-337 | on an empty queue with a hook, `put` returns True and calls the hook exactly when the batch is larger than the queue size |
| ImpressionStore.HookAtHundredAndOne | test/storage/test_sql.py:247-257 | with queue size 100, 101 impressions call the hook once and 100 do not |
| EventStore.SizeSumAppend | split_client_side/storage/sql.py:394 | the summed sizes of two batches add up |
| EventStore.FullAfter | split_client_side/storage/sql.py:393-394 | the queue is full after `put` iff the count exceeds the queue size or the old and new sizes together reach 5 MiB |
| EventStore.Put | split_client_side/storage/sql.py:386-396 | events are queued in order; the hook is called once iff the queue then exceeds the queue size or holds at least 5 MiB and a hook is set; the call fails iff that happens with no hook set; otherwise the result is True |
| EventStore.HookAtByteLimit | test/storage/test_sql.py:321-328 | with queue size 200, 160 events of 32768 bytes reach 5 MiB and call the hook once, and 159 do not |
| EventStore.HookAtHundredAndOne | test/storage/test_sql.py:312-319 | with queue size 100 and events of at most 1024 bytes, 101 events call the hook once and 100 do not |
| EventStore.SizeSumBound | split_client_side/storage/sql.py:394 | events of at most `size` bytes each weigh at most `size` times their number |
| TelemetryStore.Empty | split_client_side/storage/sql.py:417-424 | a new store is consistent and has no rows |
| TelemetryStore.IncLatency | split_client_side/storage/sql.py:426-441 | a bucket outside 0..21 changes nothing; one inside bumps that bucket of the metric's histogram, creating the row first, and keeps the store consistent |
| TelemetryStore.IncLatencyReport | split_client_side/storage/sql.py:426-441 | after one `inc_latency`, the metric's drained histogram is the old one with that bucket one higher (unchanged for an out-of-range bucket), and no other metric changes |
| TelemetryStore.HistogramLength | split_client_side/storage/adapters/sql.py:254-279 | in a consistent store every histogram has 22 buckets |
| TelemetryStore.IncLatenciesHistogram | split_client_side/storage/sql.py:426-441 | after a sequence of `inc_latency` calls on one metric, each bucket holds its old value plus the number of calls naming it |
| TelemetryStore.IncLatenciesReported | split_client_side/storage/sql.py:426-441 | those calls create the metric's row iff some bucket was in range, and leave every other metric alone |
| TelemetryStore.LatencyExample | test/storage/test_sql.py:343-357 | buckets -1, 0, 1, 5, 5, 22 on a fresh store drain as 1, 1 and 2 hits in buckets 0, 1 and 5, with 22 buckets |
| TelemetryStore.IncCounter | split_client_side/storage/sql.py:443-450 | `inc_counter` raises the counter by one, from 0 when it has no row, and touches nothing else |
| TelemetryStore.IncCountersTally | split_client_side/storage/sql.py:443-450 | after a sequence of `inc_counter` calls, each counter is its old value plus the number of calls naming it |
| TelemetryStore.IncCountersNames | split_client_side/storage/sql.py:443-450 | those calls add exactly the named counters to the drained dict |
| TelemetryStore.CounterExample | test/storage/test_sql.py:359-369 | three calls on one counter and one on another drain as 3 and 1 |
| TelemetryStore.PutGauge | split_client_side/storage/sql.py:452-461 | `put_gauge` sets the gauge to the value, whether or not it had a row, and touches nothing else |
| TelemetryStore.GaugeLastWriteWins | split_client_side/storage/sql.py:452-461 | two `put_gauge` calls on one name leave the second value |
| TelemetryStore.PopLatencies | split_client_side/storage/sql.py:480-486 | returns every stored histogram by name, each with 22 buckets, and empties the latency table only |
| TelemetryStore.PopCounters | split_client_side/storage/sql.py:463-469 | returns every stored counter by name and empties the counter table only |
| TelemetryStore.PopGauges | split_client_side/storage/sql.py:471-478 | returns every stored gauge by name and empties the gauge table only |
| TelemetryStore.SecondPopIsEmpty | test/storage/test_sql.py:343-379 | a second drain of any of the three kinds returns an empty dict |
| TelemetryStore.Clear | split_client_side/storage/sql.py:488-494 | `clear` empties latencies, counters and gauges and keeps the store consistent |

## Left out

- Concurrency is not modelled. This covers the `db_session` decorator, the thread-local sessions, the session lock and each store's `threading.Lock`. The model has one sequential caller.
- The race-recovery branch of `increment_or_create` is not modelled. It re-reads the row after a failed insert, which cannot happen with one caller.
- Engine set-up is not modelled: the SQLAlchemy engine, pool, schema creation and `build`. Rows are datatypes, not mapped classes.
- JSON serialisation is not modelled, and neither are the foreign model classes (`splits.from_raw`, `to_json`, `Impression`, `Event`). Definitions and payloads are opaque strings. Events are stored with their size and popped as payloads.
- `get_all_splits` and `get_segment_names` are not modelled. Both parse split definitions with the foreign model classes.
- SplitStore.KillLocally stops at the guard and returns the split to be killed. The rest calls the foreign `local_kill`, and then `put` while holding the store lock, which `put` takes again.
- `SqlMySegmentsStorage.get` is not modelled. It reads a `name` column the membership table does not have.
- `get_all`'s `group_by` is not modelled. Only `fetch_many` passes it, and with unique split names each group is a single row.
- A table-full hook is an identity, not code. Its effects and any exception it raises are outside the model.
- Primary keys are never reused. SQLite can reuse the largest key after that row is deleted. No store observes keys, except as insertion order within a queue, so this is not modelled.
- Integer columns are unbounded. The source's 64-bit limit is not modelled.
- String column lengths (`String(120)`, `String(30)`) are not enforced.
- SegmentStore.Update takes the keys to add as a sequence. The source iterates a set, whose order Python does not fix.
- SegmentStore.Put takes `segment.keys` as a sequence, so a caller may pass repeated keys, which the source's set cannot hold. The model stores them as given rather than deduplicating.
- With no hook set, an overflowing `put` calls the unset hook and raises after the rows are committed. The model keeps the rows and returns `HookNotCallable`.
- Equal or decreasing `created_at` values (two rows in one clock tick, the clock stepping back) are not modelled: queue order is the insertion sequence number. Queues.PutThenDrain and Queues.PopsAreConsecutive rely on this; with tied timestamps the source's `ORDER BY created_at` may return tied rows in any order.
