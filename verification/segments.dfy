/**
 The segment store: named key lists with a per-segment change number.

 A segment's keys live in a child table; here they are embedded in the
 segment row in collection order. Replacing the collection orphans the old
 child rows, and an orphaned key belongs to no segment, so no operation of
 the store can see it. As with splits, nothing in the schema keeps segment
 names unique; `Inv` says the store's operations do.
 */
module SegmentStore {
  import opened Common
  import opened Sequences
  import opened Tables
  import opened Keyed
  import opened Models

  /** A segment as the store takes it in and hands it out. */
  datatype Segment = Segment(name: string, keys: seq<string>, changeNumber: Option<int>)

  predicate Inv(t: Table<SegmentRow>) {
    Valid(t) && Unique(t.rows, SegmentName)
  }

  /** The stored segments by name. */
  function Segments(t: Table<SegmentRow>): map<string, SegmentRow> {
    View(t.rows, SegmentName)
  }

  /** `get`: the segment with that name, its keys in collection order, or `None`. */
  function Get(t: Table<SegmentRow>, name: string): (r: Result<Option<Segment>>)
    ensures r.Err? <==> GetCount(t, KeyIs(SegmentName, name)) > 1
    ensures Inv(t) ==> r.Ok? && (r.value.Some? <==> name in Segments(t))
    ensures Inv(t) && r.value.Some? ==>
      r.value.value == Segment(name, Segments(t)[name].keys, Segments(t)[name].changeNumber)
  {
    var record :- Lookup(t, SegmentName, name);
    match record
    case None => Ok(None)
    case Some(row) => Ok(Some(Segment(name, row.keys, row.changeNumber)))
  }

  /** The column update `put` applies to an existing segment: the key collection
      is replaced and the change number is left as it was. */
  function ReplaceKeys(keys: seq<string>): SegmentRow -> SegmentRow {
    (r: SegmentRow) => r.(keys := keys)
  }

  /** `put`: stores the segment's keys; a segment that already exists keeps its
      stored change number, a new one takes the segment's. */
  function Put(t: Table<SegmentRow>, segment: Segment): (r: Result<Table<SegmentRow>>)
    ensures r.Err? <==> GetCount(t, KeyIs(SegmentName, segment.name)) > 1
    ensures Inv(t) ==>
      && r.Ok? && Inv(r.value)
      && Segments(r.value) == Segments(t)[segment.name := SegmentRow(
           segment.name,
           if segment.name in Segments(t) then Segments(t)[segment.name].changeNumber else segment.changeNumber,
           segment.keys)]
  {
    var created := SegmentRow(segment.name, segment.changeNumber, segment.keys);
    var written := Upsert(t, SegmentName, segment.name, created, ReplaceKeys(segment.keys));
    assert Inv(t) && segment.name in Segments(t) ==> Segments(t)[segment.name].name == segment.name by {
      if Inv(t) && segment.name in Segments(t) {
        ViewKey(t.rows, SegmentName, segment.name);
      }
    }
    written
  }

  /** The keys `update` keeps: those not listed for removal. */
  function Kept(toRemove: set<string>): string -> bool {
    (k: string) => k !in toRemove
  }

  /** What `update` does to a segment row: drops the keys to remove, appends the
      keys to add (without checking for ones already present), and takes the new
      change number when one is given. */
  function Revise(r: SegmentRow, toAdd: seq<string>, toRemove: set<string>, changeNumber: Option<int>): (s: SegmentRow)
    ensures s.name == r.name
    ensures forall k :: k in s.keys <==> (k in r.keys && k !in toRemove) || k in toAdd
    ensures multiset(s.keys) == multiset(Filter(r.keys, Kept(toRemove))) + multiset(toAdd)
    ensures s.changeNumber == if changeNumber.Some? then changeNumber else r.changeNumber
  {
    var kept := Filter(r.keys, Kept(toRemove));
    assert forall k :: k in kept <==> k in r.keys && k !in toRemove by {
      forall k | k in kept
        ensures k in r.keys && k !in toRemove
      {
        var i :| 0 <= i < |kept| && kept[i] == k;
      }
      forall k | k in r.keys && k !in toRemove
        ensures k in kept
      {
        var i :| 0 <= i < |r.keys| && r.keys[i] == k;
      }
    }
    SegmentRow(r.name, if changeNumber.Some? then changeNumber else r.changeNumber, kept + toAdd)
  }

  function Reviser(toAdd: seq<string>, toRemove: set<string>, changeNumber: Option<int>): SegmentRow -> SegmentRow {
    (r: SegmentRow) => Revise(r, toAdd, toRemove, changeNumber)
  }

  /** `update`: applies `Revise` to the stored segment, creating it first (with
      the given change number and no keys) when it is absent. The keys to add
      come in the order the caller's set yields them. */
  function Update(t: Table<SegmentRow>, name: string, toAdd: seq<string>, toRemove: set<string>,
                  changeNumber: Option<int>): (r: Result<Table<SegmentRow>>)
    ensures r.Err? <==> GetCount(t, KeyIs(SegmentName, name)) > 1
    ensures Inv(t) ==>
      && r.Ok? && Inv(r.value)
      && Segments(r.value) == Segments(t)[name := Revise(
           if name in Segments(t) then Segments(t)[name] else SegmentRow(name, changeNumber, []),
           toAdd, toRemove, changeNumber)]
  {
    var created := Revise(SegmentRow(name, changeNumber, []), toAdd, toRemove, changeNumber);
    Upsert(t, SegmentName, name, created, Reviser(toAdd, toRemove, changeNumber))
  }

  /** `get_change_number`: the segment's change number; `None` both for an
      absent segment and for a segment stored without one. */
  function GetChangeNumber(t: Table<SegmentRow>, name: string): (r: Result<Option<int>>)
    ensures r.Err? <==> GetCount(t, KeyIs(SegmentName, name)) > 1
    ensures Inv(t) ==> r == Ok(if name in Segments(t) then Segments(t)[name].changeNumber else None)
  {
    var segment :- Get(t, name);
    Ok(if segment.None? then None else segment.value.changeNumber)
  }

  function WithChangeNumber(n: int): SegmentRow -> SegmentRow {
    (r: SegmentRow) => r.(changeNumber := Some(n))
  }

  /** `set_change_number`: sets the change number of a stored segment and does
      nothing when the segment is absent. */
  function SetChangeNumber(t: Table<SegmentRow>, name: string, n: int): (r: Result<Table<SegmentRow>>)
    ensures r.Err? <==> GetCount(t, KeyIs(SegmentName, name)) > 1
    ensures Inv(t) ==>
      && r.Ok? && Inv(r.value)
      && Segments(r.value) ==
           if name in Segments(t) then Segments(t)[name := Segments(t)[name].(changeNumber := Some(n))]
           else Segments(t)
  {
    match GetOneOrNone(t, KeyIs(SegmentName, name))
    case Err(e) =>
      assert !Inv(t) by {
        if Inv(t) {
          UniqueAtMostOne(t.rows, SegmentName, name);
        }
      }
      Err(e)
    case Ok(None) =>
      assert Inv(t) ==> name !in Segments(t) by {
        CountNone(t.rows, KeyIs(SegmentName, name));
      }
      Ok(t)
    case Ok(Some(row)) =>
      UpsertTracked(t, SegmentName, name, row, WithChangeNumber(n));
      Ok(MergeAndCommit(t, [Tracked(row.id, WithChangeNumber(n)(row.val))]))
  }

  /** Setting the change number of an absent segment stores nothing, and the
      change number then still reads `None`. */
  lemma SetChangeNumberAbsent(t: Table<SegmentRow>, name: string, n: int)
    requires Inv(t) && name !in Segments(t)
    ensures SetChangeNumber(t, name, n) == Ok(t)
    ensures GetChangeNumber(SetChangeNumber(t, name, n).value, name) == Ok(None)
  {
    CountNone(t.rows, KeyIs(SegmentName, name));
  }

  /** Setting the change number of a stored segment and reading it back gives
      the number set. */
  lemma ChangeNumberRoundTrip(t: Table<SegmentRow>, name: string, n: int)
    requires Inv(t) && name in Segments(t)
    ensures SetChangeNumber(t, name, n).Ok?
    ensures GetChangeNumber(SetChangeNumber(t, name, n).value, name) == Ok(Some(n))
  {
  }

  /** The keys of every row of `rows`, one after the other: the key rows whose
      parent is among `rows`. */
  function AllKeys(rows: seq<Row<SegmentRow>>): seq<string> {
    if |rows| == 0 then [] else rows[0].val.keys + AllKeys(rows[1..])
  }

  /** The key rows that belong to a segment named `name`. */
  function KeysOf(t: Table<SegmentRow>, name: string): seq<string> {
    AllKeys(Where(t.rows, KeyIs(SegmentName, name)))
  }

  /** With unique segment names, the key rows of a segment are its own keys. */
  lemma KeysOfView(t: Table<SegmentRow>, name: string)
    requires Unique(t.rows, SegmentName)
    ensures KeysOf(t, name) == if name in Segments(t) then Segments(t)[name].keys else []
  {
    var w := Where(t.rows, KeyIs(SegmentName, name));
    UniqueAtMostOne(t.rows, SegmentName, name);
    CountNone(t.rows, KeyIs(SegmentName, name));
    if |w| == 1 {
      SubMember(w, t.rows, 0);
      var i :| 0 <= i < |t.rows| && t.rows[i] == w[0];
      ToMapAt(t.rows, SegmentName, Id(), i);
      assert AllKeys(w) == w[0].val.keys + AllKeys([]);
    } else {
      assert name !in Names(t.rows, SegmentName);
    }
  }

  /** `segment_contains`: `one_or_none` over the key rows of the segment that
      carry `key`; it fails when the key occurs more than once. */
  function SegmentContains(t: Table<SegmentRow>, name: string, key: string): (r: Result<bool>)
    ensures Inv(t) ==>
      var n := if name in Segments(t) then multiset(Segments(t)[name].keys)[key] else 0;
      && (r.Err? <==> n > 1)
      && (r == Ok(true) <==> n == 1)
      && (r == Ok(false) <==> n == 0)
  {
    var n := multiset(KeysOf(t, name))[key];
    assert Inv(t) ==> n == if name in Segments(t) then multiset(Segments(t)[name].keys)[key] else 0 by {
      if Inv(t) {
        KeysOfView(t, name);
      }
    }
    if n > 1 then Err(MultipleRowsFound) else Ok(n == 1)
  }

  /** No key occurs twice. */
  predicate Distinct(keys: seq<string>) {
    forall i, j :: 0 <= i < j < |keys| ==> keys[i] != keys[j]
  }

  /** In a list without repeats every key occurs at most once. */
  lemma {:induction false} DistinctCount(keys: seq<string>, k: string)
    requires Distinct(keys)
    ensures multiset(keys)[k] == if k in keys then 1 else 0
  {
    if |keys| > 0 {
      assert keys == [keys[0]] + keys[1..];
      assert forall i :: 1 <= i < |keys| ==> keys[1..][i - 1] == keys[i];
      DistinctCount(keys[1..], k);
    }
  }

  /** After `put` of a segment without repeated keys, `segment_contains` answers
      exactly whether the key is among the segment's keys. */
  lemma PutContains(t: Table<SegmentRow>, segment: Segment, key: string)
    requires Inv(t) && Distinct(segment.keys)
    ensures SegmentContains(Put(t, segment).value, segment.name, key) == Ok(key in segment.keys)
  {
    DistinctCount(segment.keys, key);
  }

  /** `update` appends without looking for keys already present: adding a key the
      segment keeps makes `segment_contains` fail on it. */
  lemma UpdateDuplicateFails(t: Table<SegmentRow>, name: string, key: string, toRemove: set<string>,
                             changeNumber: Option<int>)
    requires Inv(t) && name in Segments(t) && key in Segments(t)[name].keys && key !in toRemove
    ensures SegmentContains(Update(t, name, [key], toRemove, changeNumber).value, name, key).Err?
  {
    var before := Segments(t)[name];
    var kept := Filter(before.keys, Kept(toRemove));
    var i :| 0 <= i < |before.keys| && before.keys[i] == key;
    assert key in kept;
    assert multiset(kept)[key] >= 1;
  }

  /** After `update`, a key that the segment kept or that was added (and that
      now occurs once) is contained, and a removed key not added back is not. */
  lemma UpdateContains(t: Table<SegmentRow>, name: string, toAdd: seq<string>, toRemove: set<string>,
                       changeNumber: Option<int>, key: string)
    requires Inv(t)
    requires var s := Update(t, name, toAdd, toRemove, changeNumber).value;
      Distinct(Segments(s)[name].keys)
    ensures SegmentContains(Update(t, name, toAdd, toRemove, changeNumber).value, name, key) ==
      Ok((name in Segments(t) && key in Segments(t)[name].keys && key !in toRemove) || key in toAdd)
  {
    var s := Update(t, name, toAdd, toRemove, changeNumber).value;
    DistinctCount(Segments(s)[name].keys, key);
  }
}
