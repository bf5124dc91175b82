/**
 The telemetry store: latency histograms, counters and gauges, each table
 keyed by metric name, drained as dicts from name to value.
 */
module TelemetryStore {
  import opened Common
  import opened Tables
  import opened Keyed
  import opened Models

  datatype Telemetry = Telemetry(latencies: Table<LatencyRow>, counters: Table<CounterRow>, gauges: Table<GaugeRow>)

  /** The three tables are consistent, no two rows of one table share a metric
      name, and every histogram has one entry per bucket column. */
  predicate Inv(s: Telemetry) {
    && Valid(s.latencies) && Valid(s.counters) && Valid(s.gauges)
    && Unique(s.latencies.rows, LatencyName)
    && Unique(s.counters.rows, CounterName)
    && Unique(s.gauges.rows, GaugeName)
    && forall k :: k in View(s.latencies.rows, LatencyName) ==> WellFormedLatency(View(s.latencies.rows, LatencyName)[k])
  }

  function Empty(): (s: Telemetry)
    ensures Inv(s)
    ensures s.latencies.rows == [] && s.counters.rows == [] && s.gauges.rows == []
  {
    Telemetry(EmptyTable(), EmptyTable(), EmptyTable())
  }

  function Buckets(r: LatencyRow): seq<int> { r.buckets }
  function CounterValue(r: CounterRow): int { r.value }
  function GaugeValue(r: GaugeRow): int { r.value }

  /** The dict `pop_latencies` builds from the rows. */
  function Latencies(s: Telemetry): map<string, seq<int>> {
    ToMap(s.latencies.rows, LatencyName, Buckets)
  }

  /** The dict `pop_counters` builds from the rows. */
  function Counters(s: Telemetry): map<string, int> {
    ToMap(s.counters.rows, CounterName, CounterValue)
  }

  /** The dict `pop_gauges` builds from the rows. */
  function Gauges(s: Telemetry): map<string, int> {
    ToMap(s.gauges.rows, GaugeName, GaugeValue)
  }

  /** The histogram of a metric, all zeros while it has no row. */
  function Histogram(s: Telemetry, name: string): seq<int> {
    Stored(s, name).buckets
  }

  /** `inc_latency(name, bucket)`: a bucket from 0 to 21 goes up by one in the
      metric's histogram, which is created first when missing; any other bucket
      is ignored. */
  function IncLatency(s: Telemetry, name: string, bucket: int): (r: Result<Telemetry>)
    ensures r.Err? <==> 0 <= bucket < NumBuckets && GetCount(s.latencies, KeyIs(LatencyName, name)) > 1
    ensures r.Ok? ==> r.value == s.(latencies := r.value.latencies)
    ensures !(0 <= bucket < NumBuckets) ==> r == Ok(s)
    ensures Inv(s) ==> r.Ok? && Inv(r.value)
    ensures Inv(s) && 0 <= bucket < NumBuckets ==> r.Ok? && LatencyBumped(s, name, bucket, r.value.latencies)
  {
    if 0 <= bucket <= 21 then
      var written := Increment(s.latencies, LatencyName, name, NewLatency(name), BumpBucket(bucket));
      assert Inv(s) ==> written.Ok? && LatencyBumped(s, name, bucket, written.value) by {
        if Inv(s) {
          IncLatencyView(s, name, bucket, written);
        }
      }
      if written.Err? then Err(written.error) else Ok(s.(latencies := written.value))
    else
      Ok(s)
  }

  /** The latency table `t` is `s`'s with the histogram of `name` bumped at `bucket`. */
  predicate LatencyBumped(s: Telemetry, name: string, bucket: int, t: Table<LatencyRow>)
    requires 0 <= bucket < NumBuckets
  {
    && Inv(s.(latencies := t))
    && |Histogram(s, name)| == NumBuckets
    && Latencies(s.(latencies := t)) == Latencies(s)[name := Histogram(s, name)[bucket := Histogram(s, name)[bucket] + 1]]
  }

  lemma IncLatencyView(s: Telemetry, name: string, bucket: int, written: Result<Table<LatencyRow>>)
    requires Inv(s) && 0 <= bucket < NumBuckets
    requires written == Increment(s.latencies, LatencyName, name, NewLatency(name), BumpBucket(bucket))
    ensures written.Ok? && LatencyBumped(s, name, bucket, written.value)
  {
    assert KeepsKey(s.latencies.rows, LatencyName, BumpBucket(bucket));
    BumpedTable(s, name, bucket, written.value);
  }

  /** The histogram row of `name`, or the row `increment_or_create` would create. */
  function Stored(s: Telemetry, name: string): LatencyRow {
    if name in View(s.latencies.rows, LatencyName) then View(s.latencies.rows, LatencyName)[name] else NewLatency(name)
  }

  lemma BumpedTable(s: Telemetry, name: string, bucket: int, t: Table<LatencyRow>)
    requires Inv(s) && 0 <= bucket < NumBuckets
    requires Valid(t) && Unique(t.rows, LatencyName)
    requires View(t.rows, LatencyName) == View(s.latencies.rows, LatencyName)[name := Bumped(Stored(s, name), bucket)]
    ensures LatencyBumped(s, name, bucket, t)
  {
    BumpedInv(s, name, bucket, t);
    assert WellFormedLatency(Stored(s, name));
    BumpedHistogram(s, name, bucket, t);
  }

  lemma BumpedInv(s: Telemetry, name: string, bucket: int, t: Table<LatencyRow>)
    requires Inv(s) && 0 <= bucket < NumBuckets
    requires Valid(t) && Unique(t.rows, LatencyName)
    requires View(t.rows, LatencyName) == View(s.latencies.rows, LatencyName)[name := Bumped(Stored(s, name), bucket)]
    ensures Inv(s.(latencies := t))
  {
    var before := Stored(s, name);
    assert WellFormedLatency(before);
    BumpedBuckets(before, bucket);
    WellFormedAfter(View(s.latencies.rows, LatencyName), View(t.rows, LatencyName), name, Bumped(before, bucket));
  }

  lemma BumpedHistogram(s: Telemetry, name: string, bucket: int, t: Table<LatencyRow>)
    requires WellFormedLatency(Stored(s, name)) && 0 <= bucket < NumBuckets
    requires View(t.rows, LatencyName) == View(s.latencies.rows, LatencyName)[name := Bumped(Stored(s, name), bucket)]
    ensures |Histogram(s, name)| == NumBuckets
    ensures Latencies(s.(latencies := t)) == Latencies(s)[name := Histogram(s, name)[bucket := Histogram(s, name)[bucket] + 1]]
  {
    var before := Stored(s, name);
    var bumped := Bumped(before, bucket);
    BumpedBuckets(before, bucket);
    assert Buckets(bumped) == Histogram(s, name)[bucket := Histogram(s, name)[bucket] + 1];
    ToMapFollowsView(s.latencies.rows, t.rows, LatencyName, Buckets, name, bumped);
  }

  lemma BumpedBuckets(r: LatencyRow, b: int)
    requires 0 <= b < |r.buckets|
    ensures Bumped(r, b).buckets == r.buckets[b := r.buckets[b] + 1]
  {
  }

  lemma WellFormedAfter(v: map<string, LatencyRow>, after: map<string, LatencyRow>, name: string, bumped: LatencyRow)
    requires after == v[name := bumped] && WellFormedLatency(bumped)
    requires forall k :: k in v ==> WellFormedLatency(v[k])
    ensures forall k :: k in after ==> WellFormedLatency(after[k])
  {
  }

  /** `inc_counter(name)`: the counter goes up by one, starting from 0 when it
      has no row. */
  function IncCounter(s: Telemetry, name: string): (r: Result<Telemetry>)
    ensures r.Err? <==> GetCount(s.counters, KeyIs(CounterName, name)) > 1
    ensures r.Ok? ==> r.value == s.(counters := r.value.counters)
    ensures Inv(s) ==> r.Ok? && CounterBumped(s, name, r.value.counters)
  {
    var written := Increment(s.counters, CounterName, name, NewCounter(name), BumpCounter);
    assert Inv(s) ==> written.Ok? && CounterBumped(s, name, written.value) by {
      if Inv(s) {
        IncCounterView(s, name, written);
      }
    }
    if written.Err? then Err(written.error) else Ok(s.(counters := written.value))
  }

  /** A counter's value in a drained dict, 0 while it has no row. */
  function CounterOf(m: map<string, int>, name: string): int {
    if name in m then m[name] else 0
  }

  /** The counter table `t` is `s`'s with the counter `name` one higher. */
  predicate CounterBumped(s: Telemetry, name: string, t: Table<CounterRow>) {
    && Inv(s.(counters := t))
    && Counters(s.(counters := t)) == Counters(s)[name := CounterOf(Counters(s), name) + 1]
  }

  lemma IncCounterView(s: Telemetry, name: string, written: Result<Table<CounterRow>>)
    requires Inv(s)
    requires written == Increment(s.counters, CounterName, name, NewCounter(name), BumpCounter)
    ensures written.Ok? && CounterBumped(s, name, written.value)
  {
    assert KeepsKey(s.counters.rows, CounterName, BumpCounter);
    BumpedCounters(s, name, written.value);
    assert Inv(s.(counters := written.value));
  }

  lemma BumpedCounters(s: Telemetry, name: string, t: Table<CounterRow>)
    requires View(t.rows, CounterName) == View(s.counters.rows, CounterName)[name := BumpCounter(StoredCounter(s, name))]
    ensures Counters(s.(counters := t)) == Counters(s)[name := CounterOf(Counters(s), name) + 1]
  {
    var rows := s.counters.rows;
    var before := StoredCounter(s, name);
    ToMapFollowsView(rows, t.rows, CounterName, CounterValue, name, BumpCounter(before));
    assert BumpCounter(before).value == CounterOf(Counters(s), name) + 1 by {
      ToMapView(rows, CounterName, CounterValue);
    }
  }

  /** The counter row of `name`, or the row `increment_or_create` would create. */
  function StoredCounter(s: Telemetry, name: string): CounterRow {
    if name in View(s.counters.rows, CounterName) then View(s.counters.rows, CounterName)[name] else NewCounter(name)
  }

  /** The column update `value = v`. */
  function SetGauge(value: int): GaugeRow -> GaugeRow {
    (r: GaugeRow) => r.(value := value)
  }

  /** `put_gauge(name, value)`: the gauge takes the value, whether or not it had
      a row. */
  function PutGauge(s: Telemetry, name: string, value: int): (r: Result<Telemetry>)
    ensures r.Err? <==> GetCount(s.gauges, KeyIs(GaugeName, name)) > 1
    ensures r.Ok? ==> r.value == s.(gauges := r.value.gauges)
    ensures Inv(s) ==> r.Ok? && GaugeSet(s, name, value, r.value.gauges)
  {
    var written := UpdateOrInsert(s.gauges, KeyIs(GaugeName, name), GaugeRow(name, value), SetGauge(value));
    assert Inv(s) ==> written.Ok? && GaugeSet(s, name, value, written.value) by {
      if Inv(s) {
        PutGaugeView(s, name, value, written);
      }
    }
    if written.Err? then Err(written.error) else Ok(s.(gauges := written.value))
  }

  /** The gauge table `t` is `s`'s with the gauge `name` set to `value`. */
  predicate GaugeSet(s: Telemetry, name: string, value: int, t: Table<GaugeRow>) {
    Inv(s.(gauges := t)) && Gauges(s.(gauges := t)) == Gauges(s)[name := value]
  }

  lemma PutGaugeView(s: Telemetry, name: string, value: int, written: Result<Table<GaugeRow>>)
    requires Inv(s)
    requires written == UpdateOrInsert(s.gauges, KeyIs(GaugeName, name), GaugeRow(name, value), SetGauge(value))
    ensures written.Ok? && GaugeSet(s, name, value, written.value)
  {
    var rows := s.gauges.rows;
    var v := View(rows, GaugeName);
    var stored := if name in v then SetGauge(value)(v[name]) else GaugeRow(name, value);
    UpdateOrInsertView(s.gauges, GaugeName, name, GaugeRow(name, value), SetGauge(value));
    ToMapFollowsView(rows, written.value.rows, GaugeName, GaugeValue, name, stored);
  }

  /** `pop_latencies`: every stored histogram by name; the table is emptied. */
  function PopLatencies(s: Telemetry): (r: (Telemetry, map<string, seq<int>>))
    ensures r.1 == Latencies(s)
    ensures r.0.latencies.rows == [] && r.0.latencies.nextId == s.latencies.nextId
    ensures r.0.counters == s.counters && r.0.gauges == s.gauges
    ensures Inv(s) ==> Inv(r.0)
    ensures Inv(s) ==> forall k :: k in r.1 ==> |r.1[k]| == NumBuckets
  {
    var popped := Pop(s.latencies, None, Everything(), None);
    PopEverything(s.latencies);
    assert Inv(s) ==> forall k :: k in Latencies(s) ==> |Latencies(s)[k]| == NumBuckets by {
      if Inv(s) {
        LatencyLengths(s);
      }
    }
    (s.(latencies := popped.table), ToMap(popped.rows, LatencyName, Buckets))
  }

  /** Every stored histogram has one entry per bucket column. */
  lemma LatencyLengths(s: Telemetry)
    requires Inv(s)
    ensures forall k :: k in Latencies(s) ==> |Latencies(s)[k]| == NumBuckets
  {
    ToMapView(s.latencies.rows, LatencyName, Buckets);
  }

  /** `pop_counters`: every stored counter by name; the table is emptied. */
  function PopCounters(s: Telemetry): (r: (Telemetry, map<string, int>))
    ensures r.1 == Counters(s)
    ensures r.0.counters.rows == [] && r.0.counters.nextId == s.counters.nextId
    ensures r.0.latencies == s.latencies && r.0.gauges == s.gauges
    ensures Inv(s) ==> Inv(r.0)
  {
    var popped := Pop(s.counters, None, Everything(), None);
    PopEverything(s.counters);
    (s.(counters := popped.table), ToMap(popped.rows, CounterName, CounterValue))
  }

  /** `pop_gauges`: every stored gauge by name; the table is emptied. */
  function PopGauges(s: Telemetry): (r: (Telemetry, map<string, int>))
    ensures r.1 == Gauges(s)
    ensures r.0.gauges.rows == [] && r.0.gauges.nextId == s.gauges.nextId
    ensures r.0.latencies == s.latencies && r.0.counters == s.counters
    ensures Inv(s) ==> Inv(r.0)
  {
    var popped := Pop(s.gauges, None, Everything(), None);
    PopEverything(s.gauges);
    (s.(gauges := popped.table), ToMap(popped.rows, GaugeName, GaugeValue))
  }

  /** `clear`: deletes every latency, counter and gauge. */
  function Clear(s: Telemetry): (r: Telemetry)
    ensures Inv(s) ==> Inv(r)
    ensures Latencies(r) == map[] && Counters(r) == map[] && Gauges(r) == map[]
  {
    var latencies := DeleteAll(s.latencies, Everything());
    var counters := DeleteAll(s.counters, Everything());
    var gauges := DeleteAll(s.gauges, Everything());
    assert latencies.rows == [] by {
      CountAll(s.latencies.rows, Everything());
    }
    assert counters.rows == [] by {
      CountAll(s.counters.rows, Everything());
    }
    assert gauges.rows == [] by {
      CountAll(s.gauges.rows, Everything());
    }
    Telemetry(latencies, counters, gauges)
  }

  /** A drained table drains to nothing. */
  lemma SecondPopIsEmpty(s: Telemetry)
    ensures PopLatencies(PopLatencies(s).0).1 == map[]
    ensures PopCounters(PopCounters(s).0).1 == map[]
    ensures PopGauges(PopGauges(s).0).1 == map[]
  {
  }

  /** The last gauge value put wins. */
  lemma GaugeLastWriteWins(s: Telemetry, name: string, a: int, b: int)
    requires Inv(s)
    ensures PutGauge(s, name, a).Ok?
    ensures PutGauge(PutGauge(s, name, a).value, name, b).Ok?
    ensures Gauges(PutGauge(PutGauge(s, name, a).value, name, b).value) == Gauges(s)[name := b]
  {
    var s1 := PutGauge(s, name, a).value;
    MapOverwrite(Gauges(s), name, a, b);
  }

  // ------------------------------------------------------------ call sequences

  /** Successive `inc_latency(name, b)` calls, one per bucket, in order. */
  function IncLatencies(s: Telemetry, name: string, buckets: seq<int>): (r: Result<Telemetry>)
    ensures Inv(s) ==> r.Ok? && Inv(r.value)
    decreases |buckets|
  {
    if |buckets| == 0 then Ok(s)
    else
      var first := IncLatency(s, name, buckets[0]);
      if first.Err? then first else IncLatencies(first.value, name, buckets[1..])
  }

  /** How many times `x` occurs in `s`. */
  function Occurrences<X(==)>(s: seq<X>, x: X): nat {
    if |s| == 0 then 0 else (if s[0] == x then 1 else 0) + Occurrences(s[1..], x)
  }

  /** Some bucket of the sequence is one of the table's columns. */
  predicate AnyInRange(buckets: seq<int>) {
    exists i :: 0 <= i < |buckets| && 0 <= buckets[i] < NumBuckets
  }

  /** What `pop_latencies` reports for a metric is its stored histogram. */
  lemma HistogramReported(s: Telemetry, name: string)
    ensures name in Latencies(s) <==> name in View(s.latencies.rows, LatencyName)
    ensures name in Latencies(s) ==> Latencies(s)[name] == Histogram(s, name)
  {
    ToMapView(s.latencies.rows, LatencyName, Buckets);
  }

  /** In a consistent store every histogram, stored or not yet, has one entry
      per bucket column. */
  lemma HistogramLength(s: Telemetry, name: string)
    requires Inv(s)
    ensures |Histogram(s, name)| == NumBuckets
  {
    assert WellFormedLatency(Stored(s, name));
  }

  /** One `inc_latency` call on a consistent store: an in-range bucket of the
      metric's histogram goes up by one, an out-of-range one changes nothing,
      and no other metric is touched. */
  lemma IncLatencyReport(s: Telemetry, name: string, bucket: int, t: Telemetry)
    requires Inv(s) && Ok(t) == IncLatency(s, name, bucket)
    ensures Histogram(t, name) ==
      if 0 <= bucket < NumBuckets then Histogram(s, name)[bucket := Histogram(s, name)[bucket] + 1]
      else Histogram(s, name)
    ensures name in Latencies(t) <==> name in Latencies(s) || 0 <= bucket < NumBuckets
    ensures Latencies(t) - {name} == Latencies(s) - {name}
  {
    if 0 <= bucket < NumBuckets {
      BumpReported(s, name, bucket, t);
    }
  }

  lemma BumpReported(s: Telemetry, name: string, bucket: int, t: Telemetry)
    requires 0 <= bucket < NumBuckets
    requires LatencyBumped(s, name, bucket, t.latencies) && t == s.(latencies := t.latencies)
    ensures Histogram(t, name) == Histogram(s, name)[bucket := Histogram(s, name)[bucket] + 1]
    ensures name in Latencies(t)
    ensures Latencies(t) - {name} == Latencies(s) - {name}
  {
    HistogramReported(t, name);
    MapUpdateMinus(Latencies(s), name, Histogram(s, name)[bucket := Histogram(s, name)[bucket] + 1]);
  }

  /** A sequence of `inc_latency` calls on one metric counts, in each bucket
      column, the calls naming that bucket; calls outside 0..21 are ignored. */
  lemma {:induction false} IncLatenciesHistogram(s: Telemetry, name: string, buckets: seq<int>, t: Telemetry)
    requires Inv(s) && Ok(t) == IncLatencies(s, name, buckets)
    ensures |Histogram(t, name)| == NumBuckets
    ensures forall b :: 0 <= b < NumBuckets ==> Histogram(t, name)[b] == Histogram(s, name)[b] + Occurrences(buckets, b)
    decreases |buckets|
  {
    HistogramLength(s, name);
    if |buckets| > 0 {
      var s1 := IncLatency(s, name, buckets[0]).value;
      IncLatencyReport(s, name, buckets[0], s1);
      IncLatenciesHistogram(s1, name, buckets[1..], t);
    }
  }

  /** The same calls create the metric's row exactly when some bucket is in
      range, and leave every other metric's histogram alone. */
  lemma {:induction false} IncLatenciesReported(s: Telemetry, name: string, buckets: seq<int>, t: Telemetry)
    requires Inv(s) && Ok(t) == IncLatencies(s, name, buckets)
    ensures name in Latencies(t) <==> name in Latencies(s) || AnyInRange(buckets)
    ensures Latencies(t) - {name} == Latencies(s) - {name}
    decreases |buckets|
  {
    if |buckets| > 0 {
      var s1 := IncLatency(s, name, buckets[0]).value;
      IncLatencyReport(s, name, buckets[0], s1);
      IncLatenciesReported(s1, name, buckets[1..], t);
      AnyInRangeTail(buckets);
    }
  }

  lemma AnyInRangeTail(buckets: seq<int>)
    requires |buckets| > 0
    ensures AnyInRange(buckets) <==> 0 <= buckets[0] < NumBuckets || AnyInRange(buckets[1..])
  {
    if AnyInRange(buckets[1..]) {
      var i :| 0 <= i < |buckets[1..]| && 0 <= buckets[1..][i] < NumBuckets;
      assert buckets[i + 1] == buckets[1..][i];
    }
    if AnyInRange(buckets) && !(0 <= buckets[0] < NumBuckets) {
      var i :| 0 <= i < |buckets| && 0 <= buckets[i] < NumBuckets;
      assert buckets[1..][i - 1] == buckets[i];
    }
  }

  /** The latency example: six calls with buckets -1, 0, 1, 5, 5 and 22 on a
      fresh store report one hit in buckets 0 and 1, two in bucket 5, and 22
      buckets in all. */
  lemma LatencyExample(name: string, buckets: seq<int>, t: Telemetry)
    requires buckets == [-1, 0, 1, 5, 5, 22] && Ok(t) == IncLatencies(Empty(), name, buckets)
    ensures name in Latencies(t)
    ensures |Latencies(t)[name]| == NumBuckets
    ensures Latencies(t)[name][0] == 1 && Latencies(t)[name][1] == 1 && Latencies(t)[name][5] == 2
    ensures Latencies(t)[name][2] == 0
  {
    IncLatenciesHistogram(Empty(), name, buckets, t);
    IncLatenciesReported(Empty(), name, buckets, t);
    assert 0 <= buckets[1] < NumBuckets;
    HistogramReported(t, name);
    EmptyHistogram(name);
    ExampleHits();
  }

  lemma EmptyHistogram(name: string)
    ensures Histogram(Empty(), name) == NewLatency(name).buckets
    ensures Latencies(Empty()) == map[] && Counters(Empty()) == map[]
  {
  }

  lemma ExampleHits()
    ensures Occurrences([-1, 0, 1, 5, 5, 22], 0) == 1 && Occurrences([-1, 0, 1, 5, 5, 22], 1) == 1
    ensures Occurrences([-1, 0, 1, 5, 5, 22], 5) == 2 && Occurrences([-1, 0, 1, 5, 5, 22], 2) == 0
  {
    var b := [-1, 0, 1, 5, 5, 22];
    assert b[1..] == [0, 1, 5, 5, 22];
    assert b[1..][1..] == [1, 5, 5, 22];
    assert b[1..][1..][1..] == [5, 5, 22];
    assert b[1..][1..][1..][1..] == [5, 22];
    assert b[1..][1..][1..][1..][1..] == [22];
    assert [22][1..] == [];
  }

  /** Successive `inc_counter(name)` calls, one per name, in order. */
  function IncCounters(s: Telemetry, names: seq<string>): (r: Result<Telemetry>)
    ensures Inv(s) ==> r.Ok? && Inv(r.value)
    decreases |names|
  {
    if |names| == 0 then Ok(s)
    else
      var first := IncCounter(s, names[0]);
      if first.Err? then first else IncCounters(first.value, names[1..])
  }

  /** One `inc_counter` call on a consistent store, read through the drained dict. */
  lemma CounterCall(s: Telemetry, name: string, s1: Telemetry)
    requires Inv(s) && Ok(s1) == IncCounter(s, name)
    ensures Inv(s1)
    ensures forall k :: CounterOf(Counters(s1), k) == CounterOf(Counters(s), k) + (if k == name then 1 else 0)
  {
    assert CounterBumped(s, name, s1.counters);
    CounterStep(Counters(s), Counters(s1), name);
  }

  /** The same call adds the counter's name to the drained dict. */
  lemma CounterCallNames(s: Telemetry, name: string, s1: Telemetry)
    requires Inv(s) && Ok(s1) == IncCounter(s, name)
    ensures Inv(s1)
    ensures forall k :: k in Counters(s1) <==> k in Counters(s) || k == name
  {
    assert CounterBumped(s, name, s1.counters);
    CounterStep(Counters(s), Counters(s1), name);
  }

  /** A sequence of `inc_counter` calls on a consistent store raises each
      counter by the number of calls naming it, from 0 when it had no row;
      exactly the named counters are added to the drained dict. */
  lemma {:induction false} IncCountersTally(s: Telemetry, names: seq<string>, t: Telemetry)
    requires Inv(s) && Ok(t) == IncCounters(s, names)
    ensures forall k :: CounterOf(Counters(t), k) == CounterOf(Counters(s), k) + Occurrences(names, k)
    decreases |names|
  {
    if |names| > 0 {
      var s1 := IncCounter(s, names[0]).value;
      CounterCall(s, names[0], s1);
      IncCountersTally(s1, names[1..], t);
      TallyCombine(Counters(s), Counters(s1), Counters(t), names);
    }
  }

  lemma TallyCombine(c: map<string, int>, c1: map<string, int>, c2: map<string, int>, names: seq<string>)
    requires |names| > 0
    requires forall k :: CounterOf(c1, k) == CounterOf(c, k) + (if k == names[0] then 1 else 0)
    requires forall k :: CounterOf(c2, k) == CounterOf(c1, k) + Occurrences(names[1..], k)
    ensures forall k :: CounterOf(c2, k) == CounterOf(c, k) + Occurrences(names, k)
  {
    forall k
      ensures CounterOf(c2, k) == CounterOf(c, k) + Occurrences(names, k)
    {
      assert Occurrences(names, k) == (if names[0] == k then 1 else 0) + Occurrences(names[1..], k);
    }
  }

  /** The same calls add exactly the named counters to the drained dict. */
  lemma {:induction false} IncCountersNames(s: Telemetry, names: seq<string>, t: Telemetry)
    requires Inv(s) && Ok(t) == IncCounters(s, names)
    ensures forall k :: k in Counters(t) <==> k in Counters(s) || Occurrences(names, k) > 0
    decreases |names|
  {
    if |names| > 0 {
      var s1 := IncCounter(s, names[0]).value;
      CounterCallNames(s, names[0], s1);
      IncCountersNames(s1, names[1..], t);
      NamesCombine(Counters(s), Counters(s1), Counters(t), names);
    }
  }

  lemma NamesCombine(c: map<string, int>, c1: map<string, int>, c2: map<string, int>, names: seq<string>)
    requires |names| > 0
    requires forall k :: k in c1 <==> k in c || k == names[0]
    requires forall k :: k in c2 <==> k in c1 || Occurrences(names[1..], k) > 0
    ensures forall k :: k in c2 <==> k in c || Occurrences(names, k) > 0
  {
    forall k
      ensures k in c2 <==> k in c || Occurrences(names, k) > 0
    {
      assert Occurrences(names, k) == (if names[0] == k then 1 else 0) + Occurrences(names[1..], k);
    }
  }

  /** A counter bumped once, read through the drained dict. */
  lemma CounterStep(c: map<string, int>, c1: map<string, int>, name: string)
    requires c1 == c[name := CounterOf(c, name) + 1]
    ensures forall k :: CounterOf(c1, k) == CounterOf(c, k) + (if k == name then 1 else 0)
    ensures forall k :: k in c1 <==> k in c || k == name
  {
  }

  /** The counter example: three calls on one counter and one on another, on a
      fresh store, drain as 3 and 1. */
  lemma CounterExample(a: string, b: string, names: seq<string>, t: Telemetry)
    requires a != b && names == [a, a, a, b] && Ok(t) == IncCounters(Empty(), names)
    ensures Counters(t) == map[a := 3, b := 1]
  {
    IncCountersTally(Empty(), names, t);
    IncCountersNames(Empty(), names, t);
    ExampleOccurrences(a, b);
    EmptyHistogram(a);
    TwoCounters(Counters(t), a, b);
  }

  lemma TwoCounters(m: map<string, int>, a: string, b: string)
    requires a != b
    requires forall k :: k in m <==> k == a || k == b
    requires CounterOf(m, a) == 3 && CounterOf(m, b) == 1
    ensures m == map[a := 3, b := 1]
  {
  }

  lemma ExampleOccurrences(a: string, b: string)
    requires a != b
    ensures forall k :: Occurrences([a, a, a, b], k) == if k == a then 3 else if k == b then 1 else 0
  {
    forall k
      ensures Occurrences([a, a, a, b], k) == if k == a then 3 else if k == b then 1 else 0
    {
      var one := if k == a then 1 else 0;
      assert [b][1..] == [];
      assert Occurrences([b], k) == if k == b then 1 else 0;
      assert [a, b][1..] == [b];
      assert Occurrences([a, b], k) == one + Occurrences([b], k);
      assert [a, a, b][1..] == [a, b];
      assert Occurrences([a, a, b], k) == one + Occurrences([a, b], k);
      assert [a, a, a, b][1..] == [a, a, b];
      assert Occurrences([a, a, a, b], k) == one + Occurrences([a, a, b], k);
    }
  }
}
