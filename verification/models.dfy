/**
 The column values of the SDK's tables, one datatype per mapped class.

 The primary key of every table is the `id` of `Tables.Row`; the datatypes
 here hold the remaining columns. JSON columns are opaque strings, since the
 storage layer never looks inside them.
 */
module Models {
  import opened Common

  /** `split_splits`: a feature flag and its serialised definition. */
  datatype SplitRow = SplitRow(name: string, trafficType: string, definition: string)

  /** `split_metadata`: a named integer, such as the split change number. */
  datatype MetadataRow = MetadataRow(name: string, number: int)

  /** `split_segments` with its `split_segment_keys` children embedded, in
      collection order. The change number column is nullable. */
  datatype SegmentRow = SegmentRow(name: string, changeNumber: Option<int>, keys: seq<string>)

  /** `split_my_segments`: one (traffic key, segment) membership pair. */
  datatype MySegmentRow = MySegmentRow(trafficKey: string, segmentName: string)

  /** `split_impressions`: a serialised impression. */
  datatype ImpressionRow = ImpressionRow(payload: string)

  /** `split_events`: a serialised event and its size in bytes. */
  datatype EventRow = EventRow(payload: string, size: int)

  /** `split_latencies`: a named latency histogram; `buckets[i]` is the column
      `bucket_i`. */
  datatype LatencyRow = LatencyRow(name: string, buckets: seq<int>)

  /** `split_counters`. */
  datatype CounterRow = CounterRow(name: string, value: int)

  /** `split_gauges`. */
  datatype GaugeRow = GaugeRow(name: string, value: int)

  function SplitName(r: SplitRow): string { r.name }
  function MetadataName(r: MetadataRow): string { r.name }
  function SegmentName(r: SegmentRow): string { r.name }
  function LatencyName(r: LatencyRow): string { r.name }
  function CounterName(r: CounterRow): string { r.name }
  function GaugeName(r: GaugeRow): string { r.name }
  /** The column each store's `pop_many` returns: with these,
      `Queues.PopPayloads` is `pop_many` of the impression and event stores. */
  function ImpressionPayload(r: ImpressionRow): string { r.payload }
  function EventPayload(r: EventRow): string { r.payload }

  /** The latency table has the columns `bucket_0` to `bucket_21`. */
  const NumBuckets: nat := 22

  /** A histogram has exactly one entry per bucket column. */
  predicate WellFormedLatency(r: LatencyRow) {
    |r.buckets| == NumBuckets
  }

  /** A new latency row: every bucket column takes its default of 0. */
  function NewLatency(name: string): (r: LatencyRow)
    ensures r.name == name && WellFormedLatency(r)
    ensures forall i :: 0 <= i < |r.buckets| ==> r.buckets[i] == 0
  {
    LatencyRow(name, seq(NumBuckets, _ => 0))
  }

  /** `bucket_b + 1` on the row: that bucket goes up by one and every other
      column keeps its value; a bucket the row does not have changes nothing. */
  function Bumped(r: LatencyRow, b: int): (s: LatencyRow)
    ensures s.name == r.name && |s.buckets| == |r.buckets|
    ensures 0 <= b < |r.buckets| ==> s.buckets[b] == r.buckets[b] + 1
    ensures forall i :: 0 <= i < |r.buckets| && i != b ==> s.buckets[i] == r.buckets[i]
  {
    if 0 <= b < |r.buckets| then r.(buckets := r.buckets[b := r.buckets[b] + 1]) else r
  }

  /** `Bumped` as the column update handed to `increment_or_create`. */
  function BumpBucket(b: int): LatencyRow -> LatencyRow {
    (r: LatencyRow) => Bumped(r, b)
  }

  /** `value + 1` on a counter. */
  function BumpCounter(r: CounterRow): CounterRow {
    r.(value := r.value + 1)
  }

  /** A new counter row: the value column takes its default of 0. */
  function NewCounter(name: string): CounterRow {
    CounterRow(name, 0)
  }
}
