/**
 The generic record client: one relational table and the primitives every
 specialised store is written in terms of.

 A table is the sequence of its rows in primary-key order (the order in which
 an SQLite rowid table is scanned) together with the key the next inserted row
 receives. Keys are handed out in increasing order and never reused, so the
 key doubles as the row's insertion sequence number; the queues order by it.
 A filter is a predicate on a row's column values and an `order_by` column is
 an integer-valued function of the row.
 */
module Tables {
  import opened Common
  import opened Sequences

  /** A stored row: its primary key and the values of its other columns. */
  datatype Row<T> = Row(id: nat, val: T)

  datatype Table<T> = Table(rows: seq<Row<T>>, nextId: nat)

  /** A record handed to `merge_and_commit`: a new instance without a key, or
      an instance carrying the primary key of the row it was read from. */
  datatype Record<T> = Fresh(val: T) | Tracked(id: nat, val: T)

  datatype Direction = Asc | Desc

  /** The `order_by` column and `direction` arguments. */
  datatype OrderBy<!T> = OrderBy(column: Row<T> -> int, direction: Direction)

  /** The result of `pop`: the table afterwards and the rows it removed. */
  datatype Popped<T> = Popped(table: Table<T>, rows: seq<Row<T>>)

  function EmptyTable<T>(): Table<T> {
    Table([], 0)
  }

  /** Primary keys strictly increase along the rows. */
  predicate Ascending<T>(rows: seq<Row<T>>) {
    forall i, j :: 0 <= i < j < |rows| ==> rows[i].id < rows[j].id
  }

  /** Primary keys are strictly increasing along the table and all below `nextId`. */
  predicate Valid<T>(t: Table<T>) {
    && Ascending(t.rows)
    && (forall i :: 0 <= i < |t.rows| ==> t.rows[i].id < t.nextId)
  }

  /** The keys of `rows`. */
  function IdsOf<T>(rows: seq<Row<T>>): set<nat> {
    set i | 0 <= i < |rows| :: rows[i].id
  }

  /** The row's primary key as an `order_by` column. */
  function IdColumn<T>(r: Row<T>): int {
    r.id
  }

  /** Oldest first: ascending primary key. */
  function ByInsertion<T>(): OrderBy<T> {
    OrderBy(IdColumn, Asc)
  }

  function Negate<T>(p: T -> bool): T -> bool {
    (x: T) => !p(x)
  }

  /** The filter that every row satisfies (a query without filters). */
  function Everything<T>(): T -> bool {
    (_: T) => true
  }

  /** Every element of a sub-multiset occurs in the larger sequence. */
  lemma SubMember<X>(a: seq<X>, b: seq<X>, k: nat)
    requires multiset(a) <= multiset(b) && k < |a|
    ensures a[k] in b
  {
    assert a[k] in multiset(a);
  }

  // ------------------------------------------------------- row selection

  /** The rows satisfying `p`, in table order. */
  function Where<T>(rows: seq<Row<T>>, p: T -> bool): (r: seq<Row<T>>)
    ensures |r| <= |rows|
    ensures forall i :: 0 <= i < |r| ==> p(r[i].val)
    ensures multiset(r) <= multiset(rows)
    ensures forall i :: 0 <= i < |rows| && p(rows[i].val) ==> rows[i] in r
  {
    if |rows| == 0 then []
    else
      var tail := Where(rows[1..], p);
      WhereCons(rows, p, tail);
      if p(rows[0].val) then [rows[0]] + tail else tail
  }

  /** One step of `Where`: what the query of the tail keeps carries over to the
      query of the whole, with or without the first row. */
  lemma WhereCons<T>(rows: seq<Row<T>>, p: T -> bool, tail: seq<Row<T>>)
    requires |rows| > 0
    requires multiset(tail) <= multiset(rows[1..])
    requires forall i :: 0 <= i < |rows[1..]| && p(rows[1..][i].val) ==> rows[1..][i] in tail
    ensures multiset(if p(rows[0].val) then [rows[0]] + tail else tail) <= multiset(rows)
    ensures forall i :: 0 <= i < |rows| && p(rows[i].val) ==>
      rows[i] in (if p(rows[0].val) then [rows[0]] + tail else tail)
  {
    assert rows == [rows[0]] + rows[1..];
    forall i | 1 <= i < |rows| && p(rows[i].val)
      ensures rows[i] in tail
    {
      assert rows[i] == rows[1..][i - 1];
    }
  }

  lemma {:induction false} WhereAscending<T>(rows: seq<Row<T>>, p: T -> bool)
    requires Ascending(rows)
    ensures Ascending(Where(rows, p))
  {
    if |rows| > 0 {
      var tail := Where(rows[1..], p);
      WhereAscending(rows[1..], p);
      forall k | 0 <= k < |tail|
        ensures rows[0].id < tail[k].id
      {
        SubMember(tail, rows[1..], k);
        HeadBelow(rows, tail[k]);
      }
      if p(rows[0].val) {
        ConsAscending(rows[0], tail);
      }
    }
  }

  /** In ascending rows, the first row's key is below every later row's. */
  lemma HeadBelow<T>(rows: seq<Row<T>>, x: Row<T>)
    requires Ascending(rows) && |rows| > 0 && x in rows[1..]
    ensures rows[0].id < x.id
  {
    var m :| 0 <= m < |rows[1..]| && rows[1..][m] == x;
    assert rows[m + 1] == x;
  }

  /** A row below every key of ascending rows can go in front of them. */
  lemma ConsAscending<T>(x: Row<T>, rows: seq<Row<T>>)
    requires Ascending(rows)
    requires forall k :: 0 <= k < |rows| ==> x.id < rows[k].id
    ensures Ascending([x] + rows)
  {
    var s := [x] + rows;
    forall i, j | 0 <= i < j < |s|
      ensures s[i].id < s[j].id
    {
      assert s[j] == rows[j - 1];
      if i > 0 {
        assert s[i] == rows[i - 1];
      }
    }
  }

  /** A filter every row satisfies selects the whole table. */
  lemma {:induction false} WhereEverything<T>(rows: seq<Row<T>>, p: T -> bool)
    requires forall i :: 0 <= i < |rows| ==> p(rows[i].val)
    ensures Where(rows, p) == rows
  {
    if |rows| > 0 {
      assert forall i :: 1 <= i < |rows| ==> rows[i] == rows[1..][i - 1];
      WhereEverything(rows[1..], p);
      assert rows == [rows[0]] + rows[1..];
    }
  }

  /** The rows whose key is not in `ids`, in table order. */
  function WithoutIds<T>(rows: seq<Row<T>>, ids: set<nat>): (r: seq<Row<T>>)
    ensures forall i :: 0 <= i < |r| ==> r[i].id !in ids
    ensures multiset(r) <= multiset(rows)
    ensures forall i :: 0 <= i < |rows| && rows[i].id !in ids ==> rows[i] in r
  {
    if |rows| == 0 then []
    else
      assert rows == [rows[0]] + rows[1..];
      var tail := WithoutIds(rows[1..], ids);
      assert forall i :: 1 <= i < |rows| ==> rows[i] == rows[1..][i - 1];
      if rows[0].id !in ids then [rows[0]] + tail else tail
  }

  lemma {:induction false} WithoutIdsAscending<T>(rows: seq<Row<T>>, ids: set<nat>)
    requires Ascending(rows)
    ensures Ascending(WithoutIds(rows, ids))
  {
    if |rows| > 0 {
      var tail := WithoutIds(rows[1..], ids);
      WithoutIdsAscending(rows[1..], ids);
      forall k | 0 <= k < |tail|
        ensures rows[0].id < tail[k].id
      {
        SubMember(tail, rows[1..], k);
        var m :| 0 <= m < |rows[1..]| && rows[1..][m] == tail[k];
        assert rows[m + 1] == tail[k];
      }
    }
  }

  /** Deleting a key set that holds no row's key leaves the rows as they are. */
  lemma {:induction false} WithoutNone<T>(rows: seq<Row<T>>, ids: set<nat>)
    requires forall i :: 0 <= i < |rows| ==> rows[i].id !in ids
    ensures WithoutIds(rows, ids) == rows
  {
    if |rows| > 0 {
      var tail := rows[1..];
      forall i | 0 <= i < |tail|
        ensures tail[i].id !in ids
      {
        assert tail[i] == rows[i + 1];
      }
      WithoutNone(tail, ids);
      assert rows == [rows[0]] + tail;
    }
  }

  /** Deleting a key set that holds the keys of the first `k` rows and of no
      later row leaves exactly the rows after the first `k`. */
  lemma {:induction false} WithoutPrefix<T>(rows: seq<Row<T>>, k: nat, ids: set<nat>)
    requires k <= |rows|
    requires forall i :: 0 <= i < k ==> rows[i].id in ids
    requires forall i :: k <= i < |rows| ==> rows[i].id !in ids
    ensures WithoutIds(rows, ids) == rows[k..]
  {
    if k == 0 {
      WithoutNone(rows, ids);
    } else {
      var tail := rows[1..];
      forall i | 0 <= i < k - 1
        ensures tail[i].id in ids
      {
        assert tail[i] == rows[i + 1];
      }
      forall i | k - 1 <= i < |tail|
        ensures tail[i].id !in ids
      {
        assert tail[i] == rows[i + 1];
      }
      WithoutPrefix(tail, k - 1, ids);
      assert rows[0].id in ids;
      assert rows[k..] == tail[k - 1..];
    }
  }

  // ------------------------------------------------------------ ordering

  /** The sort key that realises an `order_by`: the column itself when ascending,
      its negation when descending. */
  function SortKey<T>(o: OrderBy<T>): Row<T> -> int {
    if o.direction == Asc then o.column else (r: Row<T>) => -o.column(r)
  }

  /** `rows` respect the ordering `o`. */
  predicate InOrder<T>(rows: seq<Row<T>>, o: OrderBy<T>) {
    forall i, j :: 0 <= i < j < |rows| ==>
      if o.direction == Asc then o.column(rows[i]) <= o.column(rows[j])
      else o.column(rows[i]) >= o.column(rows[j])
  }

  lemma SortKeyOrder<T>(rows: seq<Row<T>>, o: OrderBy<T>)
    requires SortedBy(rows, SortKey(o))
    ensures InOrder(rows, o)
  {
    forall i, j | 0 <= i < j < |rows|
      ensures if o.direction == Asc then o.column(rows[i]) <= o.column(rows[j])
              else o.column(rows[i]) >= o.column(rows[j])
    {
      assert SortKey(o)(rows[i]) <= SortKey(o)(rows[j]);
    }
  }

  /** Rows sorted when an `order_by` is given and left in table order otherwise.
      The model sorts stably, keeping rows with equal sort keys in table order;
      SQL leaves their order unspecified. */
  function Ordered<T(==)>(rows: seq<Row<T>>, order: Option<OrderBy<T>>): (r: seq<Row<T>>)
    ensures multiset(r) == multiset(rows)
    ensures |r| == |rows|
    ensures order.Some? ==> SortedBy(r, SortKey(order.value)) && InOrder(r, order.value)
    ensures order.None? ==> r == rows
  {
    match order
    case None => rows
    case Some(o) =>
      var sorted := SortBy(rows, SortKey(o));
      SortKeyOrder(sorted, o);
      sorted
  }

  // ---------------------------------------------------------------- reads

  /** `get_all`: every matching row, ordered by `order_by` when one is given and
      in table order otherwise. */
  function GetAll<T(==)>(t: Table<T>, p: T -> bool, order: Option<OrderBy<T>>): (r: seq<Row<T>>)
    ensures forall i :: 0 <= i < |r| ==> r[i] in t.rows && p(r[i].val)
    ensures forall i :: 0 <= i < |t.rows| && p(t.rows[i].val) ==> t.rows[i] in r
    ensures order.Some? ==> InOrder(r, order.value)
    ensures order.None? ==> Valid(t) ==> Ascending(r)
    ensures order.None? ==> r == Where(t.rows, p)
    ensures multiset(r) == multiset(Where(t.rows, p))
  {
    var m := Where(t.rows, p);
    var r := Ordered(m, order);
    assert forall i :: 0 <= i < |r| ==> r[i] in t.rows && p(r[i].val) by {
      forall i | 0 <= i < |r|
        ensures r[i] in t.rows && p(r[i].val)
      {
        assert r[i] in multiset(m);
        var k :| 0 <= k < |m| && m[k] == r[i];
        SubMember(m, t.rows, k);
      }
    }
    assert forall i :: 0 <= i < |t.rows| && p(t.rows[i].val) ==> t.rows[i] in r by {
      forall i | 0 <= i < |t.rows| && p(t.rows[i].val)
        ensures t.rows[i] in r
      {
        assert t.rows[i] in multiset(r);
      }
    }
    assert order.None? && Valid(t) ==> Ascending(r) by {
      if order.None? && Valid(t) {
        WhereAscending(t.rows, p);
      }
    }
    r
  }

  /** The positions of the rows satisfying `p`. */
  function Matches<T>(rows: seq<Row<T>>, p: T -> bool): set<nat> {
    set i: nat | i < |rows| && p(rows[i].val)
  }

  /** `get_count`: the number of matching rows (`GetCountMatches` states it as
      the number of matching positions). */
  function GetCount<T>(t: Table<T>, p: T -> bool): (n: nat)
    ensures n <= |t.rows|
    ensures n == 0 <==> forall i :: 0 <= i < |t.rows| ==> !p(t.rows[i].val)
    ensures n == |t.rows| <==> forall i :: 0 <= i < |t.rows| ==> p(t.rows[i].val)
  {
    CountBounds(t.rows, p);
    |Where(t.rows, p)|
  }

  /** `get_count` is the number of positions whose row satisfies the filter. */
  lemma GetCountMatches<T>(t: Table<T>, p: T -> bool)
    ensures GetCount(t, p) == |Matches(t.rows, p)|
  {
    CountMatches(t.rows, p);
  }

  /** Every position one further on. */
  function Shift(s: set<nat>): set<nat> {
    set j | j in s :: j + 1
  }

  lemma {:induction false} ShiftSize(s: set<nat>)
    ensures |Shift(s)| == |s|
    decreases |s|
  {
    if s == {} {
      assert Shift(s) == {};
    } else {
      var x :| x in s;
      var rest := s - {x};
      ShiftSize(rest);
      assert Shift(s) == Shift(rest) + {x + 1} by {
        forall j | j in Shift(s)
          ensures j in Shift(rest) + {x + 1}
        {
          var i :| i in s && j == i + 1;
          if i != x {
            assert i in rest;
          }
        }
      }
      assert x + 1 !in Shift(rest);
    }
  }

  /** The filtered query has one row per matching position. */
  lemma {:induction false} CountMatches<T>(rows: seq<Row<T>>, p: T -> bool)
    ensures |Where(rows, p)| == |Matches(rows, p)|
  {
    if |rows| == 0 {
      assert Matches(rows, p) == {};
    } else {
      var tail := Matches(rows[1..], p);
      CountMatches(rows[1..], p);
      ShiftSize(tail);
      MatchesCons(rows, p);
      assert 0 !in Shift(tail);
    }
  }

  /** The matching positions: the first row's, then the rest's one further on. */
  lemma MatchesCons<T>(rows: seq<Row<T>>, p: T -> bool)
    requires |rows| > 0
    ensures Matches(rows, p) == (if p(rows[0].val) then {0} else {}) + Shift(Matches(rows[1..], p))
  {
    var tail := Matches(rows[1..], p);
    forall i: nat
      ensures i in Matches(rows, p) <==> i in (if p(rows[0].val) then {0} else {}) + Shift(tail)
    {
      if i > 0 {
        assert i in Shift(tail) <==> i - 1 in tail;
        if i < |rows| {
          assert rows[1..][i - 1] == rows[i];
        }
      }
    }
  }

  lemma {:induction false} CountBounds<T>(rows: seq<Row<T>>, p: T -> bool)
    ensures |Where(rows, p)| == 0 <==> forall i :: 0 <= i < |rows| ==> !p(rows[i].val)
    ensures |Where(rows, p)| == |rows| <==> forall i :: 0 <= i < |rows| ==> p(rows[i].val)
  {
    CountNone(rows, p);
    CountAll(rows, p);
  }

  lemma {:induction false} CountNone<T>(rows: seq<Row<T>>, p: T -> bool)
    ensures |Where(rows, p)| == 0 <==> forall i :: 0 <= i < |rows| ==> !p(rows[i].val)
  {
    if |rows| > 0 {
      CountNone(rows[1..], p);
      assert forall i :: 1 <= i < |rows| ==> rows[i] == rows[1..][i - 1];
    }
  }

  lemma {:induction false} CountAll<T>(rows: seq<Row<T>>, p: T -> bool)
    ensures |Where(rows, p)| == |rows| <==> forall i :: 0 <= i < |rows| ==> p(rows[i].val)
  {
    if |rows| > 0 {
      CountAll(rows[1..], p);
      assert forall i :: 1 <= i < |rows| ==> rows[i] == rows[1..][i - 1];
      assert |Where(rows[1..], p)| <= |rows[1..]|;
    }
  }

  /** `get_one_or_none`: the single matching row, `None` when there is none, and
      an error when more than one row matches. */
  function GetOneOrNone<T>(t: Table<T>, p: T -> bool): (r: Result<Option<Row<T>>>)
    ensures r.Err? <==> GetCount(t, p) > 1
    ensures r.Err? ==> r.error == MultipleRowsFound
    ensures r.Ok? && r.value.None? <==> GetCount(t, p) == 0
    ensures r.Ok? && r.value.Some? ==>
      && r.value.value in t.rows && p(r.value.value.val)
      && forall i :: 0 <= i < |t.rows| && p(t.rows[i].val) ==> t.rows[i] == r.value.value
  {
    var m := Where(t.rows, p);
    if |m| > 1 then Err(MultipleRowsFound)
    else if |m| == 0 then Ok(None)
    else
      SubMember(m, t.rows, 0);
      Ok(Some(m[0]))
  }

  /** `get_first`: the earliest matching row in table order, if any. */
  function GetFirst<T>(t: Table<T>, p: T -> bool): (r: Option<Row<T>>)
    ensures r.None? <==> forall i :: 0 <= i < |t.rows| ==> !p(t.rows[i].val)
    ensures r.Some? ==>
      (exists i :: 0 <= i < |t.rows| && t.rows[i] == r.value && p(r.value.val) &&
                   forall j :: 0 <= j < i ==> !p(t.rows[j].val))
  {
    FirstOf(t.rows, p)
  }

  function FirstOf<T>(rows: seq<Row<T>>, p: T -> bool): (r: Option<Row<T>>)
    ensures r.None? <==> forall i :: 0 <= i < |rows| ==> !p(rows[i].val)
    ensures r.Some? ==>
      (exists i :: 0 <= i < |rows| && rows[i] == r.value && p(r.value.val) &&
                   forall j :: 0 <= j < i ==> !p(rows[j].val))
  {
    if |rows| == 0 then None
    else if p(rows[0].val) then Some(rows[0])
    else
      var r := FirstOf(rows[1..], p);
      assert forall i :: 1 <= i < |rows| ==> rows[i] == rows[1..][i - 1];
      assert r.Some? ==> (exists i :: 1 <= i < |rows| && rows[i] == r.value && p(r.value.val) &&
                                      forall j :: 0 <= j < i ==> !p(rows[j].val)) by {
        if r.Some? {
          var i :| 0 <= i < |rows[1..]| && rows[1..][i] == r.value && p(r.value.val) &&
                   forall j :: 0 <= j < i ==> !p(rows[1..][j].val);
          assert rows[i + 1] == r.value;
        }
      }
      r
  }

  // ---------------------------------------------------------------- writes

  /** True when some row has primary key `id`. */
  predicate HasId<T>(rows: seq<Row<T>>, id: nat) {
    exists i :: 0 <= i < |rows| && rows[i].id == id
  }

  /** The rows with the row keyed `id` given the new column values `v`. */
  function Overwrite<T>(rows: seq<Row<T>>, id: nat, v: T): (r: seq<Row<T>>)
    ensures |r| == |rows|
    ensures forall i :: 0 <= i < |rows| ==> r[i].id == rows[i].id
    ensures forall i :: 0 <= i < |rows| && rows[i].id != id ==> r[i] == rows[i]
    ensures forall i :: 0 <= i < |rows| && rows[i].id == id ==> r[i].val == v
  {
    seq(|rows|, i requires 0 <= i < |rows| => if rows[i].id == id then Row(id, v) else rows[i])
  }

  /** The rows with `row` placed at the position its key calls for. */
  function InsertById<T>(rows: seq<Row<T>>, row: Row<T>): (r: seq<Row<T>>)
    ensures |r| == |rows| + 1
    ensures multiset(r) == multiset(rows) + multiset{row}
  {
    if |rows| == 0 || row.id < rows[0].id then [row] + rows
    else
      assert rows == [rows[0]] + rows[1..];
      [rows[0]] + InsertById(rows[1..], row)
  }

  lemma {:induction false} InsertByIdAscending<T>(rows: seq<Row<T>>, row: Row<T>)
    requires Ascending(rows) && !HasId(rows, row.id)
    ensures Ascending(InsertById(rows, row))
  {
    if |rows| > 0 && row.id >= rows[0].id {
      var tail := InsertById(rows[1..], row);
      assert forall k :: 0 <= k < |rows[1..]| ==> rows[1..][k] == rows[k + 1];
      InsertByIdAscending(rows[1..], row);
      assert rows[0].id != row.id;
      forall k | 0 <= k < |tail|
        ensures rows[0].id < tail[k].id
      {
        assert tail[k] in multiset(tail);
        if tail[k] != row {
          assert tail[k] in multiset(rows[1..]);
          var m :| 0 <= m < |rows[1..]| && rows[1..][m] == tail[k];
          assert rows[m + 1] == tail[k];
        }
      }
    }
  }

  /** One step of `merge_and_commit`: a tracked record whose key is present
      overwrites that row; a tracked record whose key is absent is inserted under
      that key; a fresh record is appended under the next key. */
  function MergeOne<T>(t: Table<T>, rec: Record<T>): (r: Table<T>)
    ensures Valid(t) ==> Valid(r)
    ensures rec.Fresh? ==> r.rows == t.rows + [Row(t.nextId, rec.val)] && r.nextId == t.nextId + 1
    ensures rec.Tracked? && HasId(t.rows, rec.id) ==>
      && r.nextId == t.nextId
      && |r.rows| == |t.rows|
      && (forall i :: 0 <= i < |t.rows| ==> r.rows[i].id == t.rows[i].id)
      && (forall i :: 0 <= i < |t.rows| && t.rows[i].id != rec.id ==> r.rows[i] == t.rows[i])
      && (forall i :: 0 <= i < |t.rows| && t.rows[i].id == rec.id ==> r.rows[i].val == rec.val)
    ensures rec.Tracked? && !HasId(t.rows, rec.id) ==>
      multiset(r.rows) == multiset(t.rows) + multiset{Row(rec.id, rec.val)}
  {
    match rec
    case Fresh(v) => Table(t.rows + [Row(t.nextId, v)], t.nextId + 1)
    case Tracked(id, v) =>
      if HasId(t.rows, id) then Table(Overwrite(t.rows, id, v), t.nextId)
      else
        var r := Table(InsertById(t.rows, Row(id, v)), if t.nextId <= id then id + 1 else t.nextId);
        assert Valid(t) ==> Valid(r) by {
          if Valid(t) {
            InsertByIdAscending(t.rows, Row(id, v));
            forall i | 0 <= i < |r.rows|
              ensures r.rows[i].id < r.nextId
            {
              assert r.rows[i] in multiset(r.rows);
            }
          }
        }
        r
  }

  predicate AllFresh<T>(records: seq<Record<T>>) {
    forall k :: 0 <= k < |records| ==> records[k].Fresh?
  }

  /** `merge_and_commit`: the records are merged one after the other, in argument order. */
  function MergeAndCommit<T>(t: Table<T>, records: seq<Record<T>>): (r: Table<T>)
    ensures Valid(t) ==> Valid(r)
    ensures AllFresh(records) ==>
      && r.nextId == t.nextId + |records|
      && |r.rows| == |t.rows| + |records|
      && r.rows[..|t.rows|] == t.rows
      && forall k :: 0 <= k < |records| ==> r.rows[|t.rows| + k] == Row(t.nextId + k, records[k].val)
    decreases |records|
  {
    if |records| == 0 then t
    else
      var head := MergeOne(t, records[0]);
      var r := MergeAndCommit(head, records[1..]);
      assert AllFresh(records) ==> AllFresh(records[1..]) && records[0].Fresh? by {
        if AllFresh(records) {
          assert forall k :: 1 <= k < |records| ==> records[1..][k - 1] == records[k];
        }
      }
      r
  }

  /** Merging fresh records appends them, in order, after the existing rows. */
  lemma MergeAppends<T>(t: Table<T>, records: seq<Record<T>>, r: Table<T>) returns (added: seq<Row<T>>)
    requires AllFresh(records) && r == MergeAndCommit(t, records)
    ensures r.rows == t.rows + added
    ensures |added| == |records|
    ensures forall j :: 0 <= j < |records| ==> added[j].val == records[j].val
  {
    var n := |t.rows|;
    added := r.rows[n..];
    assert r.rows == r.rows[..n] + added;
    forall j | 0 <= j < |records|
      ensures added[j].val == records[j].val
    {
      assert added[j] == r.rows[n + j];
    }
  }

  /** Merging a single tracked record whose row exists overwrites exactly that
      row's column values; keys, order and every other row stay as they were. */
  lemma MergeTrackedOverwrites<T>(t: Table<T>, id: nat, v: T)
    requires HasId(t.rows, id)
    ensures var r := MergeAndCommit(t, [Tracked(id, v)]);
      && |r.rows| == |t.rows| && r.nextId == t.nextId
      && (forall i :: 0 <= i < |t.rows| ==> r.rows[i].id == t.rows[i].id)
      && (forall i :: 0 <= i < |t.rows| && t.rows[i].id != id ==> r.rows[i] == t.rows[i])
      && (forall i :: 0 <= i < |t.rows| && t.rows[i].id == id ==> r.rows[i].val == v)
  {
    assert MergeAndCommit(t, [Tracked(id, v)]) == MergeAndCommit(MergeOne(t, Tracked(id, v)), []);
  }

  /** Merging back the one matching row of a valid table, with `update` applied
      to its values, is an in-place update of exactly the matching rows. */
  lemma MergeTrackedUpdates<T>(t: Table<T>, p: T -> bool, row: Row<T>, update: T -> T)
    requires Valid(t) && row in t.rows && p(row.val)
    requires forall i :: 0 <= i < |t.rows| && p(t.rows[i].val) ==> t.rows[i] == row
    ensures UpdatedInPlace(t, MergeAndCommit(t, [Tracked(row.id, update(row.val))]), p, update)
  {
    var j :| 0 <= j < |t.rows| && t.rows[j] == row;
    assert HasId(t.rows, row.id);
    MergeTrackedOverwrites(t, row.id, update(row.val));
    forall i | 0 <= i < |t.rows|
      ensures p(t.rows[i].val) <==> t.rows[i].id == row.id
    {
      if t.rows[i].id == row.id {
        assert i == j;
      }
    }
  }

  /** Every matching row's values replaced by `update` of them. */
  function UpdateWhere<T>(rows: seq<Row<T>>, p: T -> bool, update: T -> T): (r: seq<Row<T>>)
    ensures |r| == |rows|
    ensures forall i :: 0 <= i < |rows| ==> r[i].id == rows[i].id
  {
    seq(|rows|, i requires 0 <= i < |rows| =>
      if p(rows[i].val) then Row(rows[i].id, update(rows[i].val)) else rows[i])
  }

  /** `after` is `before` with every matching row's values replaced by `update`
      of them, and nothing else changed. */
  predicate UpdatedInPlace<T(==)>(before: Table<T>, after: Table<T>, p: T -> bool, update: T -> T) {
    && after.nextId == before.nextId
    && |after.rows| == |before.rows|
    && forall i :: 0 <= i < |before.rows| ==>
         after.rows[i] == if p(before.rows[i].val) then Row(before.rows[i].id, update(before.rows[i].val))
                          else before.rows[i]
  }

  /** `update_or_insert`: with no matching row, appends the row `created` (the
      caller builds it from the filter and update columns together); with one
      matching row, replaces that row's values by `update` of them; with several,
      fails like `one_or_none`. */
  function UpdateOrInsert<T>(t: Table<T>, p: T -> bool, created: T, update: T -> T): (r: Result<Table<T>>)
    ensures r.Err? <==> GetCount(t, p) > 1
    ensures GetCount(t, p) == 0 ==>
      r == Ok(Table(t.rows + [Row(t.nextId, created)], t.nextId + 1))
    ensures GetCount(t, p) == 1 ==> r.Ok? && UpdatedInPlace(t, r.value, p, update)
    ensures Valid(t) && r.Ok? ==> Valid(r.value)
  {
    var existing :- GetOneOrNone(t, p);
    match existing
    case None => Ok(MergeOne(t, Fresh(created)))
    case Some(_) => Ok(Table(UpdateWhere(t.rows, p, update), t.nextId))
  }

  /** `increment_or_create`: looks the row up like `one_or_none`; when absent,
      inserts `created` (the columns' defaults apply) and commits; then applies
      `bump`, the target column's `+ 1`, to the row. */
  function IncrementOrCreate<T>(t: Table<T>, p: T -> bool, created: T, bump: T -> T): (r: Result<Table<T>>)
    ensures r.Err? <==> GetCount(t, p) > 1
    ensures GetCount(t, p) == 0 ==>
      r == Ok(Table(t.rows + [Row(t.nextId, bump(created))], t.nextId + 1))
    ensures GetCount(t, p) == 1 ==> r.Ok? && UpdatedInPlace(t, r.value, p, bump)
    ensures Valid(t) && r.Ok? ==> Valid(r.value)
  {
    var existing :- GetOneOrNone(t, p);
    match existing
    case None =>
      // the new row is committed first and then bumped in place
      Ok(MergeOne(t, Fresh(bump(created))))
    case Some(_) => Ok(Table(UpdateWhere(t.rows, p, bump), t.nextId))
  }

  /** `delete_all`: removes every row satisfying the filter and no other row. */
  function DeleteAll<T>(t: Table<T>, p: T -> bool): (r: Table<T>)
    ensures r.nextId == t.nextId
    ensures multiset(r.rows) <= multiset(t.rows)
    ensures forall i :: 0 <= i < |r.rows| ==> !p(r.rows[i].val)
    ensures forall i :: 0 <= i < |t.rows| && !p(t.rows[i].val) ==> t.rows[i] in r.rows
    ensures |r.rows| == |t.rows| - GetCount(t, p)
    ensures Valid(t) ==> Valid(r)
  {
    var rows := Where(t.rows, Negate(p));
    SplitCount(t.rows, p);
    assert forall i :: 0 <= i < |rows| ==> rows[i] in t.rows by {
      forall i | 0 <= i < |rows|
        ensures rows[i] in t.rows
      {
        SubMember(rows, t.rows, i);
      }
    }
    assert Valid(t) ==> Ascending(rows) by {
      if Valid(t) {
        WhereAscending(t.rows, Negate(p));
      }
    }
    Table(rows, t.nextId)
  }

  /** A table splits into the rows that satisfy a filter and those that do not. */
  lemma {:induction false} SplitCount<T>(rows: seq<Row<T>>, p: T -> bool)
    ensures |Where(rows, p)| + |Where(rows, Negate(p))| == |rows|
  {
    if |rows| > 0 {
      SplitCount(rows[1..], p);
    }
  }

  /** `pop`: reads the matching rows (ordered by `order_by` when given, at most
      `limit` of them when given), deletes exactly those rows by primary key and
      returns them. */
  function Pop<T(==)>(t: Table<T>, limit: Option<nat>, p: T -> bool, order: Option<OrderBy<T>>): (r: Popped<T>)
    // the rows returned all matched, and there are as many as the limit allows
    ensures multiset(r.rows) <= multiset(t.rows)
    ensures forall i :: 0 <= i < |r.rows| ==> p(r.rows[i].val)
    ensures |r.rows| == if limit.Some? && limit.value < GetCount(t, p) then limit.value else GetCount(t, p)
    // they come in the requested order (see also `PopTakesFirst`)
    ensures order.Some? ==> InOrder(r.rows, order.value)
    ensures order.None? ==> r.rows <= Where(t.rows, p)
    // exactly the returned rows leave the table
    ensures multiset(r.table.rows) <= multiset(t.rows)
    ensures forall i :: 0 <= i < |r.table.rows| ==> r.table.rows[i].id !in IdsOf(r.rows)
    ensures forall i :: 0 <= i < |t.rows| && t.rows[i].id !in IdsOf(r.rows) ==> t.rows[i] in r.table.rows
    ensures r.table.nextId == t.nextId
    ensures Valid(t) ==> Valid(r.table)
  {
    var taken := PopRows(t.rows, limit, p, order);
    var rest := WithoutIds(t.rows, IdsOf(taken));
    PopRowsFacts(t.rows, limit, p, order, taken);
    PopRestFacts(t, limit, p, order, taken, rest);
    Popped(Table(rest, t.nextId), taken)
  }

  /** The rows `pop` returns come first in the requested order: every matching
      row it leaves behind sorts no earlier than any row it took. */
  lemma PopTakesFirst<T>(t: Table<T>, limit: Option<nat>, p: T -> bool, o: OrderBy<T>)
    ensures var r := Pop(t, limit, p, Some(o));
      forall i, j ::
        0 <= i < |r.rows| && 0 <= j < |t.rows| && p(t.rows[j].val) && t.rows[j].id !in IdsOf(r.rows) ==>
          SortKey(o)(r.rows[i]) <= SortKey(o)(t.rows[j])
  {
    var taken := PopRows(t.rows, limit, p, Some(o));
    PopRowsFacts(t.rows, limit, p, Some(o), taken);
  }

  /** Without a limit, `pop` leaves no matching row behind. */
  lemma PopUnlimitedDrains<T>(t: Table<T>, p: T -> bool, order: Option<OrderBy<T>>)
    ensures var r := Pop(t, None, p, order);
      forall i :: 0 <= i < |r.table.rows| ==> !p(r.table.rows[i].val)
  {
    var taken := PopRows(t.rows, None, p, order);
    PopRestFacts(t, None, p, order, taken, WithoutIds(t.rows, IdsOf(taken)));
  }

  /** The rows `pop` selects: the matching rows, ordered, cut to the limit. */
  function PopRows<T(==)>(rows: seq<Row<T>>, limit: Option<nat>, p: T -> bool, order: Option<OrderBy<T>>): seq<Row<T>> {
    Take(Ordered(Where(rows, p), order), limit)
  }

  lemma PopRowsFacts<T>(rows: seq<Row<T>>, limit: Option<nat>, p: T -> bool, order: Option<OrderBy<T>>,
                         taken: seq<Row<T>>)
    requires taken == PopRows(rows, limit, p, order)
    ensures multiset(taken) <= multiset(rows)
    ensures forall i :: 0 <= i < |taken| ==> p(taken[i].val)
    ensures |taken| == if limit.Some? && limit.value < |Where(rows, p)| then limit.value else |Where(rows, p)|
    ensures order.Some? ==> InOrder(taken, order.value)
    ensures order.Some? ==> forall i, j ::
      0 <= i < |taken| && 0 <= j < |rows| && p(rows[j].val) && rows[j].id !in IdsOf(taken) ==>
        SortKey(order.value)(taken[i]) <= SortKey(order.value)(rows[j])
    ensures order.None? ==> taken <= Where(rows, p)
    ensures limit.None? ==> forall i :: 0 <= i < |rows| && p(rows[i].val) ==> rows[i].id in IdsOf(taken)
  {
    var ordered := Ordered(Where(rows, p), order);
    assert taken == Take(ordered, limit);
    assert multiset(taken) <= multiset(rows) && forall i :: 0 <= i < |taken| ==> p(taken[i].val) by {
      PoppedMatch(rows, p, ordered, taken);
    }
    assert order.Some? ==> InOrder(taken, order.value) by {
      if order.Some? {
        assert forall i :: 0 <= i < |taken| ==> taken[i] == ordered[i];
      }
    }
    assert order.Some? ==> forall i, j ::
      0 <= i < |taken| && 0 <= j < |rows| && p(rows[j].val) && rows[j].id !in IdsOf(taken) ==>
        SortKey(order.value)(taken[i]) <= SortKey(order.value)(rows[j]) by {
      if order.Some? {
        PoppedFirst(rows, p, SortKey(order.value), ordered, taken);
      }
    }
    assert limit.None? ==> forall i :: 0 <= i < |rows| && p(rows[i].val) ==> rows[i].id in IdsOf(taken) by {
      if limit.None? {
        PoppedAll(rows, p, ordered);
      }
    }
  }

  lemma PopRestFacts<T>(t: Table<T>, limit: Option<nat>, p: T -> bool, order: Option<OrderBy<T>>,
                         taken: seq<Row<T>>, rest: seq<Row<T>>)
    requires taken == PopRows(t.rows, limit, p, order)
    requires rest == WithoutIds(t.rows, IdsOf(taken))
    ensures
      && (limit.None? ==> forall i :: 0 <= i < |rest| ==> !p(rest[i].val))
      && (Valid(t) ==> Valid(Table(rest, t.nextId)))
  {
    if limit.None? {
      PoppedAll(t.rows, p, Ordered(Where(t.rows, p), order));
      forall i | 0 <= i < |rest|
        ensures !p(rest[i].val)
      {
        SubMember(rest, t.rows, i);
        var j :| 0 <= j < |t.rows| && t.rows[j] == rest[i];
      }
    }
    if Valid(t) {
      WithoutIdsAscending(t.rows, IdsOf(taken));
      forall i | 0 <= i < |rest|
        ensures rest[i].id < t.nextId
      {
        SubMember(rest, t.rows, i);
        var j :| 0 <= j < |t.rows| && t.rows[j] == rest[i];
      }
    }
  }

  /** The rows `pop` takes are rows of the table that match. */
  lemma PoppedMatch<T>(rows: seq<Row<T>>, p: T -> bool, ordered: seq<Row<T>>, taken: seq<Row<T>>)
    requires multiset(ordered) == multiset(Where(rows, p))
    requires taken <= ordered
    ensures multiset(taken) <= multiset(rows)
    ensures forall i :: 0 <= i < |taken| ==> p(taken[i].val)
  {
    var matching := Where(rows, p);
    assert ordered == taken + ordered[|taken|..];
    assert multiset(ordered) == multiset(taken) + multiset(ordered[|taken|..]);
    forall i | 0 <= i < |taken|
      ensures p(taken[i].val)
    {
      assert taken[i] == ordered[i];
      assert taken[i] in multiset(matching);
      var k :| 0 <= k < |matching| && matching[k] == taken[i];
    }
  }

  /** A prefix of the sorted matching rows precedes, in the sort order, every
      matching row it does not contain. */
  lemma PoppedFirst<T>(rows: seq<Row<T>>, p: T -> bool, key: Row<T> -> int, ordered: seq<Row<T>>, taken: seq<Row<T>>)
    requires multiset(ordered) == multiset(Where(rows, p))
    requires SortedBy(ordered, key)
    requires taken <= ordered
    ensures forall i, j ::
      0 <= i < |taken| && 0 <= j < |rows| && p(rows[j].val) && rows[j].id !in IdsOf(taken) ==>
        key(taken[i]) <= key(rows[j])
  {
    forall i, j | 0 <= i < |taken| && 0 <= j < |rows| && p(rows[j].val) && rows[j].id !in IdsOf(taken)
      ensures key(taken[i]) <= key(rows[j])
    {
      var y := rows[j];
      assert y in multiset(ordered) by {
        assert y in multiset(Where(rows, p));
      }
      PoppedBefore(ordered, taken, key, y, i);
    }
  }

  /** A row that was ordered but not taken sorts no earlier than any taken row. */
  lemma PoppedBefore<T>(ordered: seq<Row<T>>, taken: seq<Row<T>>, key: Row<T> -> int, y: Row<T>, i: nat)
    requires SortedBy(ordered, key) && taken <= ordered
    requires y in ordered && y.id !in IdsOf(taken) && i < |taken|
    ensures key(taken[i]) <= key(y)
  {
    var k :| 0 <= k < |ordered| && ordered[k] == y;
    forall m | 0 <= m < |taken|
      ensures taken[m] != y
    {
      assert taken[m].id in IdsOf(taken);
    }
    assert taken[i] == ordered[i];
    assert |taken| <= k;
  }

  /** Taking all the matching rows takes the key of every matching row. */
  lemma PoppedAll<T>(rows: seq<Row<T>>, p: T -> bool, ordered: seq<Row<T>>)
    requires multiset(ordered) == multiset(Where(rows, p))
    ensures forall i :: 0 <= i < |rows| && p(rows[i].val) ==> rows[i].id in IdsOf(ordered)
  {
    forall i | 0 <= i < |rows| && p(rows[i].val)
      ensures rows[i].id in IdsOf(ordered)
    {
      assert rows[i] in multiset(Where(rows, p));
      assert rows[i] in multiset(ordered);
      var k :| 0 <= k < |ordered| && ordered[k] == rows[i];
    }
  }

  /** How many rows a pop with this limit takes from `size` matching rows. */
  function Capped(limit: Option<nat>, size: nat): (n: nat)
    ensures n <= size
    ensures limit.Some? ==> n <= limit.value
  {
    if limit.Some? && limit.value < size then limit.value else size
  }

  /** Popping everything oldest first from a valid table takes its first rows,
      as many as the limit allows, and leaves the rest in table order. */
  lemma PopOldestFirst<T>(t: Table<T>, limit: Option<nat>)
    requires Ascending(t.rows)
    ensures Pop(t, limit, Everything(), Some(ByInsertion())) ==
      Popped(Table(t.rows[Capped(limit, |t.rows|)..], t.nextId), t.rows[..Capped(limit, |t.rows|)])
  {
    var n := Capped(limit, |t.rows|);
    OldestTaken(t.rows, limit);
    PrefixIds(t.rows, n);
    PopParts(t, limit, n);
  }

  /** Taking rows oldest first from an ascending table takes a prefix. */
  lemma OldestTaken<T>(rows: seq<Row<T>>, limit: Option<nat>)
    requires Ascending(rows)
    ensures PopRows(rows, limit, Everything(), Some(ByInsertion())) == rows[..Capped(limit, |rows|)]
  {
    OrderedOldest(rows);
    TakeCapped(rows, limit);
  }

  lemma TakeCapped<X>(s: seq<X>, limit: Option<nat>)
    ensures Take(s, limit) == s[..Capped(limit, |s|)]
  {
    if limit.None? || limit.value >= |s| {
      assert s[..|s|] == s;
    }
  }

  /** `Pop` assembled from the rows it takes and the rows it keeps. */
  lemma PopParts<T>(t: Table<T>, limit: Option<nat>, n: nat)
    requires n <= |t.rows|
    requires PopRows(t.rows, limit, Everything(), Some(ByInsertion())) == t.rows[..n]
    requires WithoutIds(t.rows, IdsOf(t.rows[..n])) == t.rows[n..]
    ensures Pop(t, limit, Everything(), Some(ByInsertion())) == Popped(Table(t.rows[n..], t.nextId), t.rows[..n])
  {
  }

  /** An ascending table is already in insertion order. */
  lemma OrderedOldest<T>(rows: seq<Row<T>>)
    requires Ascending(rows)
    ensures Ordered(Where(rows, Everything()), Some(ByInsertion())) == rows
  {
    WhereEverything(rows, Everything());
    assert SortKey(ByInsertion<T>()) == IdColumn;
    SortBySorted(rows, IdColumn);
  }

  /** Deleting the keys of a prefix of an ascending table leaves the suffix. */
  lemma PrefixIds<T>(rows: seq<Row<T>>, n: nat)
    requires Ascending(rows) && n <= |rows|
    ensures WithoutIds(rows, IdsOf(rows[..n])) == rows[n..]
  {
    var taken := rows[..n];
    forall i | 0 <= i < n
      ensures rows[i].id in IdsOf(taken)
    {
      assert taken[i] == rows[i];
    }
    forall i | n <= i < |rows|
      ensures rows[i].id !in IdsOf(taken)
    {
      assert forall m :: 0 <= m < |taken| ==> taken[m].id < rows[i].id;
    }
    WithoutPrefix(rows, n, IdsOf(taken));
  }

  /** Popping with no limit, filter or order drains the table in table order. */
  lemma PopEverything<T>(t: Table<T>)
    ensures Pop(t, None, Everything(), None) == Popped(Table([], t.nextId), t.rows)
  {
    WhereEverything(t.rows, Everything());
    forall i | 0 <= i < |t.rows|
      ensures t.rows[i].id in IdsOf(t.rows)
    {
    }
    WithoutPrefix(t.rows, |t.rows|, IdsOf(t.rows));
  }
}
