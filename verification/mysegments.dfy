/**
 The per-subject membership store: for each traffic key, the names of the
 segments it belongs to, one row per (traffic key, segment) pair.
 */
module MySegmentsStore {
  import opened Tables
  import opened Models

  /** Some row records that `key` belongs to `segment`. */
  predicate Member(rows: seq<Row<MySegmentRow>>, key: string, segment: string) {
    exists i :: 0 <= i < |rows| && rows[i].val == MySegmentRow(key, segment)
  }

  /** The filter `traffic_key == key`. */
  function TrafficKeyIs(key: string): MySegmentRow -> bool {
    (r: MySegmentRow) => r.trafficKey == key
  }

  /** The new rows `put` merges: one per segment name, in argument order. */
  function Memberships(key: string, segmentNames: seq<string>): (records: seq<Record<MySegmentRow>>)
    ensures AllFresh(records) && |records| == |segmentNames|
    ensures forall k :: 0 <= k < |records| ==> records[k].val == MySegmentRow(key, segmentNames[k])
  {
    seq(|segmentNames|, k requires 0 <= k < |segmentNames| => Fresh(MySegmentRow(key, segmentNames[k])))
  }

  /** `put`: replaces every membership of the traffic key by the given segment
      names and leaves every other traffic key's memberships alone. */
  function Put(t: Table<MySegmentRow>, key: string, segmentNames: seq<string>): (r: Table<MySegmentRow>)
    ensures Valid(t) ==> Valid(r)
    ensures forall k, s :: Member(r.rows, k, s) <==> if k == key then s in segmentNames else Member(t.rows, k, s)
  {
    var r := MergeAndCommit(DeleteAll(t, TrafficKeyIs(key)), Memberships(key, segmentNames));
    PutFacts(t, key, segmentNames, r);
    r
  }

  lemma PutFacts(t: Table<MySegmentRow>, key: string, segmentNames: seq<string>, r: Table<MySegmentRow>)
    requires r == MergeAndCommit(DeleteAll(t, TrafficKeyIs(key)), Memberships(key, segmentNames))
    ensures Valid(t) ==> Valid(r)
    ensures forall k, s :: Member(r.rows, k, s) <==> if k == key then s in segmentNames else Member(t.rows, k, s)
  {
    var cleared := DeleteAll(t, TrafficKeyIs(key));
    DeleteMembers(t, key, cleared);
    var added := MergedRows(cleared, key, segmentNames, r);
    AppendMembers(cleared.rows, key, segmentNames, added);
  }

  /** Deleting the traffic key's rows removes exactly its memberships. */
  lemma DeleteMembers(t: Table<MySegmentRow>, key: string, cleared: Table<MySegmentRow>)
    requires cleared == DeleteAll(t, TrafficKeyIs(key))
    ensures forall k, s :: Member(cleared.rows, k, s) <==> k != key && Member(t.rows, k, s)
  {
    DeleteKeeps(t, key, cleared);
    DeleteRemoves(t, key, cleared);
  }

  lemma DeleteRemoves(t: Table<MySegmentRow>, key: string, cleared: Table<MySegmentRow>)
    requires cleared == DeleteAll(t, TrafficKeyIs(key))
    ensures forall k, s :: Member(cleared.rows, k, s) ==> k != key && Member(t.rows, k, s)
  {
    forall k, s | Member(cleared.rows, k, s)
      ensures k != key && Member(t.rows, k, s)
    {
      var i :| 0 <= i < |cleared.rows| && cleared.rows[i].val == MySegmentRow(k, s);
      assert !TrafficKeyIs(key)(cleared.rows[i].val);
      SubMember(cleared.rows, t.rows, i);
      var j :| 0 <= j < |t.rows| && t.rows[j] == cleared.rows[i];
    }
  }

  lemma DeleteKeeps(t: Table<MySegmentRow>, key: string, cleared: Table<MySegmentRow>)
    requires cleared == DeleteAll(t, TrafficKeyIs(key))
    ensures forall k, s :: k != key && Member(t.rows, k, s) ==> Member(cleared.rows, k, s)
  {
    forall k, s | k != key && Member(t.rows, k, s)
      ensures Member(cleared.rows, k, s)
    {
      var i :| 0 <= i < |t.rows| && t.rows[i].val == MySegmentRow(k, s);
      assert !TrafficKeyIs(key)(t.rows[i].val);
      var c :| 0 <= c < |cleared.rows| && cleared.rows[c] == t.rows[i];
    }
  }

  /** The rows the merge appends, one per segment name. */
  lemma MergedRows(cleared: Table<MySegmentRow>, key: string, segmentNames: seq<string>, r: Table<MySegmentRow>)
    returns (added: seq<Row<MySegmentRow>>)
    requires r == MergeAndCommit(cleared, Memberships(key, segmentNames))
    ensures r.rows == cleared.rows + added && |added| == |segmentNames|
    ensures forall j :: 0 <= j < |segmentNames| ==> added[j].val == MySegmentRow(key, segmentNames[j])
  {
    var records := Memberships(key, segmentNames);
    added := MergeAppends(cleared, records, r);
  }

  /** Appending one row per segment name adds exactly those memberships. */
  lemma AppendMembers(cleared: seq<Row<MySegmentRow>>, key: string, segmentNames: seq<string>, added: seq<Row<MySegmentRow>>)
    requires |added| == |segmentNames|
    requires forall j :: 0 <= j < |segmentNames| ==> added[j].val == MySegmentRow(key, segmentNames[j])
    ensures forall k, s :: Member(cleared + added, k, s) <==> Member(cleared, k, s) || (k == key && s in segmentNames)
  {
    var r := cleared + added;
    var n := |cleared|;
    forall k, s | Member(r, k, s)
      ensures Member(cleared, k, s) || (k == key && s in segmentNames)
    {
      var i :| 0 <= i < |r| && r[i].val == MySegmentRow(k, s);
      if i >= n {
        assert r[i] == added[i - n];
      }
    }
    forall s | s in segmentNames
      ensures Member(r, key, s)
    {
      var j :| 0 <= j < |segmentNames| && segmentNames[j] == s;
      assert r[n + j] == added[j];
    }
    forall k, s | Member(cleared, k, s)
      ensures Member(r, k, s)
    {
      var i :| 0 <= i < n && cleared[i].val == MySegmentRow(k, s);
      assert r[i] == cleared[i];
    }
  }

  /** The filter `traffic_key == key AND segment_name == segment`. */
  function MembershipIs(key: string, segment: string): MySegmentRow -> bool {
    (r: MySegmentRow) => r.trafficKey == key && r.segmentName == segment
  }

  /** `segment_contains(segment_name, key)`: some row pairs the key with the segment. */
  function SegmentContains(t: Table<MySegmentRow>, segment: string, key: string): (r: bool)
    ensures r <==> Member(t.rows, key, segment)
  {
    var n := GetCount(t, MembershipIs(key, segment));
    assert n > 0 <==> Member(t.rows, key, segment) by {
      assert forall i :: 0 <= i < |t.rows| ==> (MembershipIs(key, segment)(t.rows[i].val) <==> t.rows[i].val == MySegmentRow(key, segment));
    }
    n > 0
  }

  /** After `put`, the traffic key is in exactly the segments given, and every
      other traffic key answers as before. */
  lemma PutThenContains(t: Table<MySegmentRow>, key: string, segmentNames: seq<string>, other: string, segment: string)
    ensures SegmentContains(Put(t, key, segmentNames), segment, key) == (segment in segmentNames)
    ensures other != key ==> SegmentContains(Put(t, key, segmentNames), segment, other) == SegmentContains(t, segment, other)
  {
  }

  /** `clear`: deletes every membership. */
  function Clear(t: Table<MySegmentRow>): (r: Table<MySegmentRow>)
    ensures Valid(t) ==> Valid(r)
    ensures forall k, s :: !Member(r.rows, k, s)
    ensures r.nextId == t.nextId
  {
    var r := DeleteAll(t, Everything());
    assert |r.rows| == 0 by {
      CountAll(t.rows, Everything());
    }
    r
  }
}
