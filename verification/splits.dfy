/**
 The split store: feature flags keyed by name, plus the `split_metadata`
 table that holds the latest split change number.

 The stored JSON is taken to round-trip, so the store hands back exactly the
 split it was given. Nothing in the schema stops two rows from sharing a
 name; `Inv` says the store's own operations never let that happen.
 */
module SplitStore {
  import opened Common
  import opened Tables
  import opened Keyed
  import opened Models

  datatype SplitDb = SplitDb(splits: Table<SplitRow>, meta: Table<MetadataRow>)

  /** The metadata row that holds the split change number. */
  const ChangeNumberKey: string := "change_number"

  /** Both tables are well formed and no name occurs twice in either. */
  predicate Inv(s: SplitDb) {
    && Valid(s.splits) && Unique(s.splits.rows, SplitName)
    && Valid(s.meta) && Unique(s.meta.rows, MetadataName)
  }

  /** A store over empty tables. */
  function Empty(): (s: SplitDb)
    ensures Inv(s)
    ensures Splits(s) == map[]
  {
    SplitDb(EmptyTable(), EmptyTable())
  }

  /** The stored splits by name. */
  function Splits(s: SplitDb): map<string, SplitRow> {
    View(s.splits.rows, SplitName)
  }

  /** The metadata rows by name. */
  function Meta(s: SplitDb): map<string, MetadataRow> {
    View(s.meta.rows, MetadataName)
  }

  /** The change number the store reports: the stored one, or 0 before any is set. */
  function ChangeNumber(s: SplitDb): int {
    if ChangeNumberKey in Meta(s) then Meta(s)[ChangeNumberKey].number else 0
  }

  /** `get`: the split with that name, or `None`. */
  function Get(s: SplitDb, name: string): (r: Result<Option<SplitRow>>)
    ensures r.Err? <==> GetCount(s.splits, KeyIs(SplitName, name)) > 1
    ensures Inv(s) ==> r == Ok(if name in Splits(s) then Some(Splits(s)[name]) else None)
  {
    Lookup(s.splits, SplitName, name)
  }

  /** The column update `put` applies to an existing row: new traffic type and
      definition, same name and key. */
  function Rewrite(split: SplitRow): SplitRow -> SplitRow {
    (r: SplitRow) => r.(trafficType := split.trafficType, definition := split.definition)
  }

  /** `put`: an upsert keyed by the split's name. */
  function Put(s: SplitDb, split: SplitRow): (r: Result<SplitDb>)
    ensures r.Err? <==> GetCount(s.splits, KeyIs(SplitName, split.name)) > 1
    ensures r.Ok? ==> r.value.meta == s.meta
    ensures Inv(s) ==> r.Ok? && Inv(r.value) && Splits(r.value) == Splits(s)[split.name := split]
  {
    var t :- Upsert(s.splits, SplitName, split.name, split, Rewrite(split));
    assert Inv(s) ==> Splits(SplitDb(t, s.meta)) == Splits(s)[split.name := split] by {
      if Inv(s) && split.name in Splits(s) {
        ViewKey(s.splits.rows, SplitName, split.name);
      }
    }
    Ok(s.(splits := t))
  }

  /** `remove`: deletes the split's rows and reports whether it was stored. */
  function Remove(s: SplitDb, name: string): (r: Result<(SplitDb, bool)>)
    ensures r.Err? <==> GetCount(s.splits, KeyIs(SplitName, name)) > 1
    ensures r.Ok? ==> r.value.0.meta == s.meta
    ensures Inv(s) ==>
      && r.Ok? && Inv(r.value.0)
      && (r.value.1 <==> name in Splits(s))
      && Splits(r.value.0) == Splits(s) - {name}
  {
    var existing :- Get(s, name);
    if existing.None? then
      Ok((s, false))
    else
      var t := DeleteAll(s.splits, KeyIs(SplitName, name));
      assert Inv(s) ==> Unique(t.rows, SplitName) && Splits(SplitDb(t, s.meta)) == Splits(s) - {name} by {
        if Inv(s) {
          DeleteKeyView(s.splits, SplitName, name);
        }
      }
      Ok((s.(splits := t), true))
  }

  /** `get_change_number`: the stored split change number, 0 when none is stored. */
  function GetChangeNumber(s: SplitDb): (r: Result<int>)
    ensures r.Err? <==> GetCount(s.meta, KeyIs(MetadataName, ChangeNumberKey)) > 1
    ensures Inv(s) ==> r == Ok(ChangeNumber(s))
  {
    var record :- Lookup(s.meta, MetadataName, ChangeNumberKey);
    Ok(if record.None? then 0 else record.value.number)
  }

  /** `set_change_number`: `update_or_insert` on the `change_number` row. */
  function SetChangeNumber(s: SplitDb, n: int): (r: Result<SplitDb>)
    ensures r.Err? <==> GetCount(s.meta, KeyIs(MetadataName, ChangeNumberKey)) > 1
    ensures r.Ok? ==> r.value.splits == s.splits
    ensures Inv(s) ==>
      && r.Ok? && Inv(r.value)
      && Meta(r.value) == Meta(s)[ChangeNumberKey := MetadataRow(ChangeNumberKey, n)]
  {
    var created := MetadataRow(ChangeNumberKey, n);
    var update := (m: MetadataRow) => m.(number := n);
    var written := UpdateOrInsert(s.meta, KeyIs(MetadataName, ChangeNumberKey), created, update);
    assert Inv(s) ==>
      && written.Ok? && Unique(written.value.rows, MetadataName)
      && View(written.value.rows, MetadataName) == Meta(s)[ChangeNumberKey := created] by {
      if Inv(s) {
        UpdateOrInsertView(s.meta, MetadataName, ChangeNumberKey, created, update);
        if ChangeNumberKey in Meta(s) {
          ViewKey(s.meta.rows, MetadataName, ChangeNumberKey);
        }
      }
    }
    var t :- written;
    Ok(s.(meta := t))
  }

  /** The change number reads 0 until one is set. */
  lemma ChangeNumberInitially()
    ensures GetChangeNumber(Empty()) == Ok(0)
  {
  }

  /** Setting the change number and reading it back gives the number set. */
  lemma ChangeNumberRoundTrip(s: SplitDb, n: int)
    requires Inv(s)
    ensures SetChangeNumber(s, n).Ok?
    ensures GetChangeNumber(SetChangeNumber(s, n).value) == Ok(n)
  {
  }

  /** `get_split_names`: the distinct names of the stored splits. */
  function GetSplitNames(s: SplitDb): (r: set<string>)
    ensures forall i :: 0 <= i < |s.splits.rows| ==> s.splits.rows[i].val.name in r
    ensures forall n :: n in r ==> exists i :: 0 <= i < |s.splits.rows| && s.splits.rows[i].val.name == n
    ensures r == Splits(s).Keys
  {
    WhereEverything(s.splits.rows, Everything());
    var records := GetAll(s.splits, Everything(), None);
    Names(records, SplitName)
  }

  /** After `put`, the split's name is listed along with every name listed before. */
  lemma PutListsName(s: SplitDb, split: SplitRow)
    requires Inv(s)
    ensures GetSplitNames(Put(s, split).value) == GetSplitNames(s) + {split.name}
  {
  }

  /** After `remove`, the name is no longer listed and every other name still is. */
  lemma RemoveUnlistsName(s: SplitDb, name: string)
    requires Inv(s)
    ensures GetSplitNames(Remove(s, name).value.0) == GetSplitNames(s) - {name}
  {
  }

  /** The filter `name IN names`. */
  function NameIn(names: seq<string>): SplitRow -> bool {
    (r: SplitRow) => r.name in names
  }

  function Found(r: SplitRow): Option<SplitRow> {
    Some(r)
  }

  /** `fetch_many`: every requested name maps to its split, or to `None` when no
      split of that name is stored. */
  function FetchMany(s: SplitDb, names: seq<string>): (r: map<string, Option<SplitRow>>)
    ensures forall n :: n in r <==> n in names
    ensures Inv(s) ==> forall n :: n in r ==> r[n] == if n in Splits(s) then Some(Splits(s)[n]) else None
  {
    var records := GetAll(s.splits, NameIn(names), None);
    var r := (map n | n in names :: None) + ToMap(records, SplitName, Found);
    FetchManyKeys(s, names, r);
    assert Inv(s) ==> forall n :: n in r ==> r[n] == if n in Splits(s) then Some(Splits(s)[n]) else None by {
      if Inv(s) {
        FetchManyFound(s, names, r);
      }
    }
    r
  }

  lemma FetchManyKeys(s: SplitDb, names: seq<string>, r: map<string, Option<SplitRow>>)
    requires r == (map n | n in names :: None) + ToMap(Where(s.splits.rows, NameIn(names)), SplitName, Found)
    ensures forall n :: n in r <==> n in names
  {
    var rows := Where(s.splits.rows, NameIn(names));
    forall n | n in ToMap(rows, SplitName, Found)
      ensures n in names
    {
      var i :| 0 <= i < |rows| && rows[i].val.name == n;
      assert NameIn(names)(rows[i].val);
    }
  }

  lemma FetchManyFound(s: SplitDb, names: seq<string>, r: map<string, Option<SplitRow>>)
    requires Inv(s)
    requires r == (map n | n in names :: None) + ToMap(Where(s.splits.rows, NameIn(names)), SplitName, Found)
    ensures forall n :: n in r ==> r[n] == if n in Splits(s) then Some(Splits(s)[n]) else None
  {
    var rows := Where(s.splits.rows, NameIn(names));
    var found := ToMap(rows, SplitName, Found);
    var v := Splits(s);
    WhereView(s.splits.rows, SplitName, NameIn(names));
    ToMapView(rows, SplitName, Found);
    forall n | n in v
      ensures NameIn(names)(v[n]) <==> n in names
    {
      ViewKey(s.splits.rows, SplitName, n);
    }
    FetchManyKeys(s, names, r);
    forall n | n in r
      ensures r[n] == if n in v then Some(v[n]) else None
    {
      if n in v {
        assert n in found;
      }
    }
  }

  /** The filter `traffic_type_name == tt`. */
  function TrafficTypeIs(tt: string): SplitRow -> bool {
    (r: SplitRow) => r.trafficType == tt
  }

  /** Some split of the dict has the traffic type. */
  predicate HasTrafficType(m: map<string, SplitRow>, tt: string) {
    exists n :: n in m && m[n].trafficType == tt
  }

  /** `is_valid_traffic_type`: some stored split has that traffic type. */
  function IsValidTrafficType(s: SplitDb, tt: string): (r: bool)
    ensures r <==> exists i :: 0 <= i < |s.splits.rows| && s.splits.rows[i].val.trafficType == tt
    ensures Inv(s) ==> (r <==> HasTrafficType(Splits(s), tt))
  {
    var r := GetFirst(s.splits, TrafficTypeIs(tt)).Some?;
    assert Inv(s) ==> (r <==> HasTrafficType(Splits(s), tt)) by {
      if Inv(s) {
        TrafficTypeView(s, tt);
      }
    }
    r
  }

  lemma TrafficTypeView(s: SplitDb, tt: string)
    requires Inv(s)
    ensures (exists i :: 0 <= i < |s.splits.rows| && s.splits.rows[i].val.trafficType == tt)
        <==> HasTrafficType(Splits(s), tt)
  {
    if i :| 0 <= i < |s.splits.rows| && s.splits.rows[i].val.trafficType == tt {
      var row := s.splits.rows[i].val;
      ToMapAt(s.splits.rows, SplitName, Id(), i);
      assert row.name in Splits(s) && Splits(s)[row.name] == row;
    }
    if n :| n in Splits(s) && Splits(s)[n].trafficType == tt {
      ToMapMember(s.splits.rows, SplitName, Id(), n);
      var i :| 0 <= i < |s.splits.rows| && s.splits.rows[i].val.name == n && Splits(s)[n] == s.splits.rows[i].val;
      assert s.splits.rows[i].val.trafficType == tt;
    }
  }

  /** After `put`, a traffic type is valid when the new split has it or when a
      split under another name had it: overwriting a split drops its old traffic type. */
  lemma PutTrafficType(s: SplitDb, split: SplitRow, tt: string)
    requires Inv(s)
    ensures IsValidTrafficType(Put(s, split).value, tt) <==>
      split.trafficType == tt || HasTrafficType(Splits(s) - {split.name}, tt)
  {
    var t := Put(s, split).value;
    assert Inv(t) && Splits(t) == Splits(s)[split.name := split];
    HasTrafficTypeUpdated(Splits(s), split.name, split, tt);
  }

  lemma HasTrafficTypeUpdated(m: map<string, SplitRow>, k: string, x: SplitRow, tt: string)
    ensures HasTrafficType(m[k := x], tt) <==> x.trafficType == tt || HasTrafficType(m - {k}, tt)
  {
    if HasTrafficType(m - {k}, tt) {
      var n :| n in m - {k} && (m - {k})[n].trafficType == tt;
      assert m[k := x][n] == m[n];
    }
    if HasTrafficType(m[k := x], tt) && x.trafficType != tt {
      var n :| n in m[k := x] && m[k := x][n].trafficType == tt;
      assert n != k && (m - {k})[n] == m[n];
    }
    assert k in m[k := x];
  }

  /** After `remove`, a traffic type is valid when a split under another name has it. */
  lemma RemoveTrafficType(s: SplitDb, name: string, tt: string)
    requires Inv(s)
    ensures IsValidTrafficType(Remove(s, name).value.0, tt) <==>
      HasTrafficType(Splits(s) - {name}, tt)
  {
    var t := Remove(s, name).value.0;
    assert Inv(t) && Splits(t) == Splits(s) - {name};
  }

  /** What `kill_locally` goes on to do once past its guard. */
  datatype KillOutcome =
      /** Returned without writing anything. */
    | Skipped
      /** Found the split and would mark it killed and store it again. */
    | Kills(split: SplitRow)

  /** `kill_locally` up to the point where it hands the split to the model
      class: it does nothing when the stored change number is newer than the
      kill's or when the split is not stored. */
  function KillLocally(s: SplitDb, name: string, changeNumber: int): (r: Result<KillOutcome>)
    ensures Inv(s) ==> r.Ok?
    ensures Inv(s) ==> (r.value.Skipped? <==> ChangeNumber(s) > changeNumber || name !in Splits(s))
    ensures Inv(s) && r.value.Kills? ==> r.value.split == Splits(s)[name]
  {
    var current :- GetChangeNumber(s);
    if current > changeNumber then Ok(Skipped)
    else
      var split :- Get(s, name);
      if split.None? then Ok(Skipped) else Ok(Kills(split.value))
  }
}
