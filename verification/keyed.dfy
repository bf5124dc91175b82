/**
 Tables whose rows carry a name column that the stores treat as a key.

 The schema declares no unique constraint on these names; "at most one row
 per name" is kept only by the stores' look-up-then-insert logic. `Unique`
 states that invariant, `ToMap` is a dict comprehension over rows (the form
 in which the stores hand tables back), and the lemmas here show that the
 write primitives the stores use keep the invariant and act on the dict view
 as a single-key update.
 */
module Keyed {
  import opened Common
  import opened Tables

  /** The filter `column == k` on the name column `key`. */
  function KeyIs<T>(key: T -> string, k: string): T -> bool {
    (v: T) => key(v) == k
  }

  function Id<T>(): T -> T {
    (v: T) => v
  }

  /** No two rows share a name. */
  predicate Unique<T>(rows: seq<Row<T>>, key: T -> string) {
    forall i, j :: 0 <= i < j < |rows| ==> key(rows[i].val) != key(rows[j].val)
  }

  /** The names present in `rows`. */
  function Names<T>(rows: seq<Row<T>>, key: T -> string): set<string> {
    set i | 0 <= i < |rows| :: key(rows[i].val)
  }

  lemma NamesSnoc<T>(rows: seq<Row<T>>, key: T -> string)
    requires |rows| > 0
    ensures Names(rows, key) == Names(rows[..|rows| - 1], key) + {key(rows[|rows| - 1].val)}
  {
    var n := |rows| - 1;
    forall x | x in Names(rows, key)
      ensures x in Names(rows[..n], key) + {key(rows[n].val)}
    {
      var i :| 0 <= i < |rows| && key(rows[i].val) == x;
      if i < n {
        assert rows[..n][i] == rows[i];
      }
    }
    forall x | x in Names(rows[..n], key)
      ensures x in Names(rows, key)
    {
      var i :| 0 <= i < n && key(rows[..n][i].val) == x;
      assert rows[..n][i] == rows[i];
    }
  }

  /** The dict comprehension `{key(r): value(r) for r in rows}`: rows are visited
      in order, so a later row overwrites an earlier one with the same name. */
  function ToMap<T, V>(rows: seq<Row<T>>, key: T -> string, value: T -> V): (m: map<string, V>)
    ensures m.Keys == Names(rows, key)
  {
    if |rows| == 0 then map[]
    else
      var n := |rows| - 1;
      NamesSnoc(rows, key);
      ToMap(rows[..n], key, value)[key(rows[n].val) := value(rows[n].val)]
  }

  /** The table as a dict from name to row values. */
  function View<T>(rows: seq<Row<T>>, key: T -> string): map<string, T> {
    ToMap(rows, key, Id())
  }

  lemma ToMapSnoc<T, V>(rows: seq<Row<T>>, x: Row<T>, key: T -> string, value: T -> V)
    ensures ToMap(rows + [x], key, value) == ToMap(rows, key, value)[key(x.val) := value(x.val)]
  {
    assert (rows + [x])[..|rows|] == rows;
  }

  /** Every entry of the dict comes from a row with that name (the last one). */
  lemma {:induction false} ToMapMember<T, V>(rows: seq<Row<T>>, key: T -> string, value: T -> V, k: string)
    requires k in ToMap(rows, key, value)
    ensures exists i :: 0 <= i < |rows| && key(rows[i].val) == k && ToMap(rows, key, value)[k] == value(rows[i].val)
  {
    var n := |rows| - 1;
    if key(rows[n].val) != k {
      ToMapMember(rows[..n], key, value, k);
      var i :| 0 <= i < n && key(rows[..n][i].val) == k && ToMap(rows[..n], key, value)[k] == value(rows[..n][i].val);
      assert rows[..n][i] == rows[i];
    }
  }

  /** A dict of one column is that column of the dict view. */
  lemma {:induction false} ToMapView<T, V>(rows: seq<Row<T>>, key: T -> string, value: T -> V)
    ensures ToMap(rows, key, value).Keys == View(rows, key).Keys
    ensures forall k :: k in View(rows, key) ==> ToMap(rows, key, value)[k] == value(View(rows, key)[k])
  {
    if |rows| > 0 {
      ToMapView(rows[..|rows| - 1], key, value);
    }
  }

  /** A change of the dict view at one name is the same change of every
      column dict. */
  lemma ToMapFollowsView<T, V>(a: seq<Row<T>>, b: seq<Row<T>>, key: T -> string, value: T -> V, k: string, x: T)
    requires View(b, key) == View(a, key)[k := x]
    ensures ToMap(b, key, value) == ToMap(a, key, value)[k := value(x)]
  {
    ToMapView(a, key, value);
    ToMapView(b, key, value);
  }

  /** With unique names, each row's entry in the dict is the row's own value. */
  lemma {:induction false} ToMapAt<T, V>(rows: seq<Row<T>>, key: T -> string, value: T -> V, i: nat)
    requires Unique(rows, key) && i < |rows|
    ensures key(rows[i].val) in ToMap(rows, key, value)
    ensures ToMap(rows, key, value)[key(rows[i].val)] == value(rows[i].val)
  {
    var n := |rows| - 1;
    if i < n {
      assert rows[..n][i] == rows[i];
      ToMapAt(rows[..n], key, value, i);
    }
  }

  /** Unique names stay unique in a prefix. */
  lemma UniquePrefix<T>(rows: seq<Row<T>>, key: T -> string, n: nat)
    requires Unique(rows, key) && n <= |rows|
    ensures Unique(rows[..n], key)
  {
    assert forall i :: 0 <= i < n ==> rows[..n][i] == rows[i];
  }

  /** The dict view maps every name to a row with that name. */
  lemma ViewKey<T>(rows: seq<Row<T>>, key: T -> string, k: string)
    requires k in View(rows, key)
    ensures key(View(rows, key)[k]) == k
  {
    ToMapMember(rows, key, Id(), k);
  }

  /** Selecting rows keeps names unique. */
  lemma {:induction false} WhereUnique<T>(rows: seq<Row<T>>, key: T -> string, p: T -> bool)
    requires Unique(rows, key)
    ensures Unique(Where(rows, p), key)
  {
    if |rows| > 0 {
      assert forall i :: 1 <= i < |rows| ==> rows[1..][i - 1] == rows[i];
      var tail := Where(rows[1..], p);
      WhereUnique(rows[1..], key, p);
      forall k | 0 <= k < |tail|
        ensures key(tail[k].val) != key(rows[0].val)
      {
        SubMember(tail, rows[1..], k);
        var m :| 0 <= m < |rows[1..]| && rows[1..][m] == tail[k];
        assert rows[m + 1] == tail[k];
      }
    }
  }

  /** With unique names, the dict view of the rows satisfying `p` is the dict
      view of the table restricted to the entries satisfying `p`. */
  lemma WhereView<T>(rows: seq<Row<T>>, key: T -> string, p: T -> bool)
    requires Unique(rows, key)
    ensures Unique(Where(rows, p), key)
    ensures forall k :: k in View(Where(rows, p), key) <==> k in View(rows, key) && p(View(rows, key)[k])
    ensures forall k :: k in View(Where(rows, p), key) ==> View(Where(rows, p), key)[k] == View(rows, key)[k]
  {
    var w := Where(rows, p);
    WhereUnique(rows, key, p);
    var v := View(rows, key);
    var vw := View(w, key);
    forall k | k in vw
      ensures k in v && p(v[k]) && vw[k] == v[k]
    {
      ToMapMember(w, key, Id(), k);
      var i :| 0 <= i < |w| && key(w[i].val) == k && vw[k] == w[i].val;
      SubMember(w, rows, i);
      var j :| 0 <= j < |rows| && rows[j] == w[i];
      ToMapAt(rows, key, Id(), j);
    }
    forall k | k in v && p(v[k])
      ensures k in vw
    {
      ToMapMember(rows, key, Id(), k);
      var j :| 0 <= j < |rows| && key(rows[j].val) == k && v[k] == rows[j].val;
      var i :| 0 <= i < |w| && w[i] == rows[j];
      assert key(w[i].val) in Names(w, key);
    }
  }

  /** With unique names, deleting the rows named `k` removes `k` from the dict
      view and nothing else. */
  lemma DeleteKeyView<T>(t: Table<T>, key: T -> string, k: string)
    requires Unique(t.rows, key)
    ensures Unique(DeleteAll(t, KeyIs(key, k)).rows, key)
    ensures View(DeleteAll(t, KeyIs(key, k)).rows, key) == View(t.rows, key) - {k}
  {
    var w := Where(t.rows, Negate(KeyIs(key, k)));
    assert DeleteAll(t, KeyIs(key, k)).rows == w;
    WhereOtherKeys(t.rows, key, k, w);
    MapWithout(View(w, key), View(t.rows, key), k);
  }

  lemma WhereOtherKeys<T>(rows: seq<Row<T>>, key: T -> string, k: string, w: seq<Row<T>>)
    requires Unique(rows, key)
    requires w == Where(rows, Negate(KeyIs(key, k)))
    ensures Unique(w, key)
    ensures View(w, key).Keys == View(rows, key).Keys - {k}
    ensures forall j :: j in View(w, key) ==> View(w, key)[j] == View(rows, key)[j]
  {
    var v := View(rows, key);
    WhereView(rows, key, Negate(KeyIs(key, k)));
    forall j | j in v
      ensures Negate(KeyIs(key, k))(v[j]) <==> j != k
    {
      ViewKey(rows, key, j);
    }
  }

  lemma MapWithout<V>(m: map<string, V>, v: map<string, V>, k: string)
    requires m.Keys == v.Keys - {k}
    requires forall j :: j in m ==> m[j] == v[j]
    ensures m == v - {k}
  {
  }

  /** Replacing the values of the row named `k` by `update` of them (and leaving
      every other row alone) changes the dict view at `k` only. */
  lemma {:induction false} ToMapUpdated<T>(a: seq<Row<T>>, b: seq<Row<T>>, key: T -> string, k: string, update: T -> T)
    requires Unique(a, key) && |a| == |b|
    requires forall i :: 0 <= i < |a| ==> key(update(a[i].val)) == key(a[i].val)
    requires forall i :: 0 <= i < |a| ==>
      b[i] == if key(a[i].val) == k then Row(a[i].id, update(a[i].val)) else a[i]
    ensures View(b, key) == if k in View(a, key) then View(a, key)[k := update(View(a, key)[k])] else View(a, key)
  {
    if |a| > 0 {
      var n := |a| - 1;
      UniquePrefix(a, key, n);
      assert forall i :: 0 <= i < n ==> a[..n][i] == a[i] && b[..n][i] == b[i];
      ToMapUpdated(a[..n], b[..n], key, k, update);
      var pa := View(a[..n], key);
      var pb := View(b[..n], key);
      var x := a[n].val;
      assert View(a, key) == pa[key(x) := x];
      assert View(b, key) == pb[key(b[n].val) := b[n].val];
      if key(x) == k {
        assert k !in pa by {
          assert forall i :: 0 <= i < n ==> key(a[..n][i].val) != k;
        }
        assert View(b, key) == pa[k := update(x)];
        MapOverwrite(pa, k, x, update(x));
      } else {
        assert b[n] == a[n];
        if k in pa {
          MapSwap(pa, k, update(pa[k]), key(x), x);
        }
      }
    }
  }

  lemma MapOverwrite<V>(m: map<string, V>, k: string, x: V, y: V)
    ensures m[k := x][k := y] == m[k := y]
  {
  }

  lemma MapUpdateMinus<V>(m: map<string, V>, k: string, x: V)
    ensures m[k := x] - {k} == m - {k}
  {
  }

  lemma MapSwap<V>(m: map<string, V>, k: string, x: V, j: string, y: V)
    requires k != j
    ensures m[k := x][j := y] == m[j := y][k := x]
  {
  }

  /** Such an update keeps names unique, since it keeps every row's name. */
  lemma UpdatedUnique<T>(a: seq<Row<T>>, b: seq<Row<T>>, key: T -> string)
    requires Unique(a, key) && |a| == |b|
    requires forall i :: 0 <= i < |a| ==> key(b[i].val) == key(a[i].val)
    ensures Unique(b, key)
  {
  }

  /** With unique names at most one row matches a name. */
  lemma {:induction false} UniqueAtMostOne<T>(rows: seq<Row<T>>, key: T -> string, k: string)
    requires Unique(rows, key)
    ensures |Where(rows, KeyIs(key, k))| <= 1
  {
    if |rows| > 0 {
      assert forall i :: 1 <= i < |rows| ==> rows[1..][i - 1] == rows[i];
      UniqueAtMostOne(rows[1..], key, k);
      if key(rows[0].val) == k {
        CountNone(rows[1..], KeyIs(key, k));
      }
    }
  }

  /** Looking a name up with `one_or_none`, returning the row's values. */
  function Lookup<T>(t: Table<T>, key: T -> string, k: string): (r: Result<Option<T>>)
    ensures r.Err? <==> GetCount(t, KeyIs(key, k)) > 1
    ensures Unique(t.rows, key) ==>
      r == Ok(if k in View(t.rows, key) then Some(View(t.rows, key)[k]) else None)
  {
    var found := GetOneOrNone(t, KeyIs(key, k));
    assert Unique(t.rows, key) ==>
      found.Ok? && (found.value.Some? ==> k in View(t.rows, key) && View(t.rows, key)[k] == found.value.value.val)
             && (found.value.None? ==> k !in View(t.rows, key)) by {
      if Unique(t.rows, key) {
        UniqueAtMostOne(t.rows, key, k);
        if found.Ok? && found.value.Some? {
          var i :| 0 <= i < |t.rows| && t.rows[i] == found.value.value;
          ToMapAt(t.rows, key, Id(), i);
        }
      }
    }
    match found
    case Err(e) => Err(e)
    case Ok(None) => Ok(None)
    case Ok(Some(row)) => Ok(Some(row.val))
  }

  /** The dict view after appending a row. */
  lemma AppendView<T>(t: Table<T>, k: string, v: T, key: T -> string)
    requires Unique(t.rows, key) && key(v) == k && k !in View(t.rows, key)
    ensures Unique(t.rows + [Row(t.nextId, v)], key)
    ensures View(t.rows + [Row(t.nextId, v)], key) == View(t.rows, key)[k := v]
  {
    ToMapSnoc(t.rows, Row(t.nextId, v), key, Id());
    var rows := t.rows + [Row(t.nextId, v)];
    forall i, j | 0 <= i < j < |rows|
      ensures key(rows[i].val) != key(rows[j].val)
    {
      if j == |t.rows| {
        assert key(t.rows[i].val) in Names(t.rows, key);
      } else {
        assert rows[i] == t.rows[i] && rows[j] == t.rows[j];
      }
    }
  }

  /** The dict view after every row named `k` has had `update` applied. */
  lemma UpdatedView<T>(t: Table<T>, r: Table<T>, key: T -> string, k: string, update: T -> T)
    requires Unique(t.rows, key) && UpdatedInPlace(t, r, KeyIs(key, k), update)
    requires KeepsKey(t.rows, key, update)
    ensures Unique(r.rows, key)
    ensures View(r.rows, key) ==
      if k in View(t.rows, key) then View(t.rows, key)[k := update(View(t.rows, key)[k])] else View(t.rows, key)
  {
    ToMapUpdated(t.rows, r.rows, key, k, update);
    UpdatedUnique(t.rows, r.rows, key);
  }

  /** `update` never changes a row's name. */
  predicate KeepsKey<T>(rows: seq<Row<T>>, key: T -> string, update: T -> T) {
    forall i :: 0 <= i < |rows| ==> key(update(rows[i].val)) == key(rows[i].val)
  }

  /** The look-up-then-save idiom of the stores: find the row named `k` with
      `one_or_none`; when there is none, merge the new record `created`; when
      there is one, merge it back with `update` applied. */
  function Upsert<T>(t: Table<T>, key: T -> string, k: string, created: T, update: T -> T): (r: Result<Table<T>>)
    ensures r.Err? <==> GetCount(t, KeyIs(key, k)) > 1
    ensures Valid(t) && r.Ok? ==> Valid(r.value)
    ensures Valid(t) && Unique(t.rows, key) && key(created) == k && KeepsKey(t.rows, key, update) ==>
      && r.Ok?
      && Unique(r.value.rows, key)
      && View(r.value.rows, key) ==
           View(t.rows, key)[k := if k in View(t.rows, key) then update(View(t.rows, key)[k]) else created]
  {
    var existing := GetOneOrNone(t, KeyIs(key, k));
    match existing
    case Err(e) =>
      assert !Unique(t.rows, key) by {
        if Unique(t.rows, key) {
          UniqueAtMostOne(t.rows, key, k);
        }
      }
      Err(e)
    case Ok(None) =>
      UpsertFresh(t, key, k, created);
      Ok(MergeAndCommit(t, [Fresh(created)]))
    case Ok(Some(row)) =>
      UpsertTracked(t, key, k, row, update);
      Ok(MergeAndCommit(t, [Tracked(row.id, update(row.val))]))
  }

  lemma UpsertFresh<T>(t: Table<T>, key: T -> string, k: string, created: T)
    requires GetCount(t, KeyIs(key, k)) == 0
    ensures Unique(t.rows, key) && key(created) == k ==>
      var r := MergeAndCommit(t, [Fresh(created)]);
      && Unique(r.rows, key)
      && k !in View(t.rows, key)
      && View(r.rows, key) == View(t.rows, key)[k := created]
  {
    var r := MergeAndCommit(t, [Fresh(created)]);
    assert r.rows == t.rows + [Row(t.nextId, created)] by {
      assert r.rows == r.rows[..|t.rows|] + [r.rows[|t.rows|]];
    }
    if Unique(t.rows, key) && key(created) == k {
      CountNone(t.rows, KeyIs(key, k));
      AppendView(t, k, created, key);
    }
  }

  lemma UpsertTracked<T>(t: Table<T>, key: T -> string, k: string, row: Row<T>, update: T -> T)
    requires row in t.rows && key(row.val) == k
    requires forall i :: 0 <= i < |t.rows| && key(t.rows[i].val) == k ==> t.rows[i] == row
    ensures Valid(t) && Unique(t.rows, key) && KeepsKey(t.rows, key, update) ==>
      var r := MergeAndCommit(t, [Tracked(row.id, update(row.val))]);
      && Unique(r.rows, key)
      && k in View(t.rows, key)
      && View(r.rows, key) == View(t.rows, key)[k := update(View(t.rows, key)[k])]
  {
    if Valid(t) && Unique(t.rows, key) && KeepsKey(t.rows, key, update) {
      var r := MergeAndCommit(t, [Tracked(row.id, update(row.val))]);
      MergeTrackedUpdates(t, KeyIs(key, k), row, update);
      UpdatedView(t, r, key, k, update);
      var i :| 0 <= i < |t.rows| && t.rows[i] == row;
      ToMapAt(t.rows, key, Id(), i);
    }
  }

  /** `update_or_insert` on the row named `k` keeps names unique and updates the
      dict view at `k` only. */
  lemma UpdateOrInsertView<T>(t: Table<T>, key: T -> string, k: string, created: T, update: T -> T)
    requires Unique(t.rows, key) && key(created) == k
    requires KeepsKey(t.rows, key, update)
    ensures var r := UpdateOrInsert(t, KeyIs(key, k), created, update);
      && r.Ok?
      && Unique(r.value.rows, key)
      && View(r.value.rows, key) ==
           View(t.rows, key)[k := if k in View(t.rows, key) then update(View(t.rows, key)[k]) else created]
  {
    UniqueAtMostOne(t.rows, key, k);
    var r := UpdateOrInsert(t, KeyIs(key, k), created, update);
    if GetCount(t, KeyIs(key, k)) == 0 {
      assert k !in View(t.rows, key) by {
        CountNone(t.rows, KeyIs(key, k));
      }
      AppendView(t, k, created, key);
    } else {
      UpdatedView(t, r.value, key, k, update);
      assert k in View(t.rows, key) by {
        CountNone(t.rows, KeyIs(key, k));
      }
    }
  }

  /** `increment_or_create` on the row named `k` keeps names unique: the count of
      rows with that name ends at exactly one, and the dict view changes at `k` only. */
  lemma IncrementOrCreateView<T>(t: Table<T>, key: T -> string, k: string, created: T, bump: T -> T)
    requires Unique(t.rows, key) && key(created) == k && key(bump(created)) == k
    requires KeepsKey(t.rows, key, bump)
    ensures var r := IncrementOrCreate(t, KeyIs(key, k), created, bump);
      && r.Ok?
      && Unique(r.value.rows, key)
      && GetCount(r.value, KeyIs(key, k)) == 1
      && View(r.value.rows, key) ==
           View(t.rows, key)[k := bump(if k in View(t.rows, key) then View(t.rows, key)[k] else created)]
  {
    UniqueAtMostOne(t.rows, key, k);
    var r := IncrementOrCreate(t, KeyIs(key, k), created, bump);
    if GetCount(t, KeyIs(key, k)) == 0 {
      assert k !in View(t.rows, key) by {
        CountNone(t.rows, KeyIs(key, k));
      }
      AppendView(t, k, bump(created), key);
    } else {
      UpdatedView(t, r.value, key, k, bump);
      assert k in View(t.rows, key) by {
        CountNone(t.rows, KeyIs(key, k));
      }
    }
    assert k in View(r.value.rows, key);
    NameCountsOne(r.value.rows, key, k);
  }

  /** `increment_or_create` on the row named `k`, seen through the dict view:
      the name's row goes up by `bump`, starting from `created` when missing. */
  function Increment<T>(t: Table<T>, key: T -> string, k: string, created: T, bump: T -> T): (r: Result<Table<T>>)
    ensures r.Err? <==> GetCount(t, KeyIs(key, k)) > 1
    ensures Valid(t) && r.Ok? ==> Valid(r.value)
    ensures Unique(t.rows, key) && key(created) == k && key(bump(created)) == k && KeepsKey(t.rows, key, bump) ==>
      && r.Ok?
      && Unique(r.value.rows, key)
      && View(r.value.rows, key) == View(t.rows, key)[k := bump(if k in View(t.rows, key) then View(t.rows, key)[k] else created)]
  {
    var r := IncrementOrCreate(t, KeyIs(key, k), created, bump);
    assert Unique(t.rows, key) && key(created) == k && key(bump(created)) == k && KeepsKey(t.rows, key, bump) ==>
      && r.Ok?
      && Unique(r.value.rows, key)
      && View(r.value.rows, key) == View(t.rows, key)[k := bump(if k in View(t.rows, key) then View(t.rows, key)[k] else created)] by {
      if Unique(t.rows, key) && key(created) == k && key(bump(created)) == k && KeepsKey(t.rows, key, bump) {
        IncrementOrCreateView(t, key, k, created, bump);
      }
    }
    r
  }

  /** With unique names, a name that is present is matched by exactly one row. */
  lemma NameCountsOne<T>(rows: seq<Row<T>>, key: T -> string, k: string)
    requires Unique(rows, key) && k in Names(rows, key)
    ensures |Where(rows, KeyIs(key, k))| == 1
  {
    UniqueAtMostOne(rows, key, k);
    var i :| 0 <= i < |rows| && key(rows[i].val) == k;
    assert rows[i] in Where(rows, KeyIs(key, k));
  }
}
