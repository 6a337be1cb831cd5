/** A database table with an identity primary key: rows in insertion
    order, each carrying the key the database assigned, and the next key
    the identity column will hand out. */
module Tables {
  import opened Base

  datatype Row<T> = Row(id: int, data: T)

  datatype Table<T> = Table(rows: seq<Row<T>>, nextId: int)

  function Empty<T>(): Table<T> {
    Table([], 1)
  }

  /** The primary keys present. */
  function Ids<T>(t: Table<T>): set<int> {
    set i | 0 <= i < |t.rows| :: t.rows[i].id
  }

  /** Keys are positive, distinct, and below the identity counter. */
  predicate WellFormed<T>(t: Table<T>) {
    && 0 < t.nextId
    && (forall i :: 0 <= i < |t.rows| ==> 0 < t.rows[i].id < t.nextId)
    && (forall i, j :: 0 <= i < j < |t.rows| ==> t.rows[i].id != t.rows[j].id)
  }

  lemma EmptyWellFormed<T>()
    ensures WellFormed(Empty<T>()) && Ids(Empty<T>()) == {}
  {
  }

  /** Lookup by primary key (`FindAsync`): the first row with that key. */
  function FindRow<T>(rows: seq<Row<T>>, id: int): (r: Option<T>)
    ensures r.Some? <==> exists i :: 0 <= i < |rows| && rows[i].id == id
    ensures r.Some? ==> Row(id, r.value) in rows
  {
    if rows == [] then None
    else if rows[0].id == id then Some(rows[0].data)
    else
      var r := FindRow(rows[1..], id);
      assert forall i :: 1 <= i < |rows| ==> rows[i] == rows[1..][i - 1];
      r
  }

  function Find<T>(t: Table<T>, id: int): (r: Option<T>)
    ensures r.Some? <==> id in Ids(t)
    ensures r.Some? ==> Row(id, r.value) in t.rows
  {
    var r := FindRow(t.rows, id);
    assert r.Some? ==> id in Ids(t);
    r
  }

  /** In a well-formed table a key names exactly one row, so `Find`
      returns that row's data. */
  lemma FindUnique<T>(t: Table<T>, id: int, data: T)
    requires WellFormed(t)
    requires Row(id, data) in t.rows
    ensures Find(t, id) == Some(data)
  {
    var r := Find(t, id);
    var i :| 0 <= i < |t.rows| && t.rows[i] == Row(id, data);
    var j :| 0 <= j < |t.rows| && t.rows[j] == Row(id, r.value);
    assert t.rows[i].id == t.rows[j].id;
  }

  /** `Add` followed by a successful save: the new row takes the next
      identity value. */
  function Insert<T>(t: Table<T>, data: T): (r: Table<T>)
    ensures Ids(r) == Ids(t) + {t.nextId}
    ensures r.nextId > t.nextId
    ensures Row(t.nextId, data) in r.rows
    ensures forall x :: x in t.rows ==> x in r.rows
    ensures |r.rows| == |t.rows| + 1
  {
    var r := Table(t.rows + [Row(t.nextId, data)], t.nextId + 1);
    assert r.rows[|t.rows|].id == t.nextId;
    assert forall i :: 0 <= i < |t.rows| ==> r.rows[i] == t.rows[i];
    r
  }

  /** Inserting keeps the keys well formed and the new row is found by
      its key, while every other key still finds what it found before. */
  lemma InsertFound<T>(t: Table<T>, data: T, other: int)
    requires WellFormed(t)
    ensures WellFormed(Insert(t, data))
    ensures t.nextId !in Ids(t)
    ensures Find(Insert(t, data), t.nextId) == Some(data)
    ensures other != t.nextId ==> Find(Insert(t, data), other) == Find(t, other)
  {
    var r := Insert(t, data);
    assert forall i :: 0 <= i < |t.rows| ==> r.rows[i] == t.rows[i];
    assert WellFormed(r);
    FindUnique(r, t.nextId, data);
    if other != t.nextId {
      match Find(t, other)
      case Some(d) =>
        FindUnique(r, other, d);
      case None =>
    }
  }

  /** The rows that `keep` accepts, in their original order. */
  function FilterRows<T(!new)>(rows: seq<Row<T>>, keep: Row<T> -> bool): (r: seq<Row<T>>)
    ensures |r| <= |rows|
    ensures forall x :: x in r <==> x in rows && keep(x)
  {
    if rows == [] then []
    else
      var rest := FilterRows(rows[1..], keep);
      assert forall x :: x in rows <==> x == rows[0] || x in rows[1..];
      if keep(rows[0]) then [rows[0]] + rest else rest
  }

  /** Keeps the rows `keep` accepts; the identity counter is unaffected. */
  function Filter<T(!new)>(t: Table<T>, keep: Row<T> -> bool): (r: Table<T>)
    ensures r.nextId == t.nextId
    ensures forall x :: x in r.rows <==> x in t.rows && keep(x)
    ensures |r.rows| <= |t.rows|
  {
    Table(FilterRows(t.rows, keep), t.nextId)
  }

  /** A filtered table keeps well-formed keys, and exactly the keys of
      the rows kept. */
  lemma FilterWellFormed<T(!new)>(t: Table<T>, keep: Row<T> -> bool)
    requires WellFormed(t)
    ensures WellFormed(Filter(t, keep))
    ensures Ids(Filter(t, keep)) == set i | 0 <= i < |t.rows| && keep(t.rows[i]) :: t.rows[i].id
  {
    var r := Filter(t, keep);
    forall i | 0 <= i < |r.rows| ensures 0 < r.rows[i].id < r.nextId {
      assert r.rows[i] in t.rows;
    }
    forall i, j | 0 <= i < j < |r.rows| ensures r.rows[i].id != r.rows[j].id {
      FilterRowsDistinct(t.rows, keep, i, j);
    }
    var kept := set i | 0 <= i < |t.rows| && keep(t.rows[i]) :: t.rows[i].id;
    forall k | k in Ids(r) ensures k in kept {
      var i :| 0 <= i < |r.rows| && r.rows[i].id == k;
      assert r.rows[i] in t.rows;
    }
    forall k | k in kept ensures k in Ids(r) {
      var i :| 0 <= i < |t.rows| && keep(t.rows[i]) && t.rows[i].id == k;
      assert t.rows[i] in r.rows;
    }
  }

  /** Filtering distinct-keyed rows leaves them distinct-keyed. */
  lemma {:induction false} FilterRowsDistinct<T(!new)>(rows: seq<Row<T>>, keep: Row<T> -> bool, i: int, j: int)
    requires forall a, b :: 0 <= a < b < |rows| ==> rows[a].id != rows[b].id
    requires 0 <= i < j < |FilterRows(rows, keep)|
    ensures FilterRows(rows, keep)[i].id != FilterRows(rows, keep)[j].id
    decreases |rows|
  {
    var rest := FilterRows(rows[1..], keep);
    assert forall a, b :: 0 <= a < b < |rows[1..]| ==> rows[1..][a].id != rows[1..][b].id by {
      forall a, b | 0 <= a < b < |rows[1..]| ensures rows[1..][a].id != rows[1..][b].id {
        assert rows[1..][a] == rows[a + 1] && rows[1..][b] == rows[b + 1];
      }
    }
    if keep(rows[0]) {
      var r := FilterRows(rows, keep);
      assert r == [rows[0]] + rest;
      if i == 0 {
        assert r[j] == rest[j - 1] && r[j] in rows[1..];
        var b :| 0 <= b < |rows[1..]| && rows[1..][b] == r[j];
        assert rows[1..][b] == rows[b + 1];
      } else {
        FilterRowsDistinct(rows[1..], keep, i - 1, j - 1);
      }
    } else {
      FilterRowsDistinct(rows[1..], keep, i, j);
    }
  }

  /** `Remove` of one entity by key. */
  function RemoveId<T(!new)>(t: Table<T>, id: int): (r: Table<T>)
    ensures forall x :: x in r.rows <==> x in t.rows && x.id != id
    ensures r.nextId == t.nextId
  {
    Filter(t, (x: Row<T>) => x.id != id)
  }

  /** Removing a key takes exactly that key away from the table. */
  lemma RemoveIdKeys<T(!new)>(t: Table<T>, id: int)
    requires WellFormed(t)
    ensures WellFormed(RemoveId(t, id))
    ensures Ids(RemoveId(t, id)) == Ids(t) - {id}
    ensures Find(RemoveId(t, id), id).None?
  {
    FilterWellFormed(t, (x: Row<T>) => x.id != id);
  }

  /** Every other key still finds what it found before the removal. */
  lemma RemoveIdFound<T(!new)>(t: Table<T>, id: int, other: int)
    requires WellFormed(t)
    ensures other != id ==> Find(RemoveId(t, id), other) == Find(t, other)
  {
    var r := RemoveId(t, id);
    RemoveIdKeys(t, id);
    if other != id {
      match Find(t, other)
      case Some(d) =>
        assert Row(other, d) in r.rows;
        FindUnique(r, other, d);
      case None =>
    }
  }

  /** `FirstOrDefault(predicate)`: the first row `p` accepts. */
  function FirstWhere<T>(rows: seq<Row<T>>, p: Row<T> -> bool): (r: Option<Row<T>>)
    ensures r.Some? <==> exists i :: 0 <= i < |rows| && p(rows[i])
    ensures r.Some? ==> exists i :: 0 <= i < |rows| && rows[i] == r.value && p(r.value)
                                      && forall j :: 0 <= j < i ==> !p(rows[j])
  {
    if rows == [] then None
    else if p(rows[0]) then Some(rows[0])
    else
      var r := FirstWhere(rows[1..], p);
      assert forall i :: 1 <= i < |rows| ==> rows[i] == rows[1..][i - 1];
      if r.Some? then
        ghost var k :| 0 <= k < |rows[1..]| && rows[1..][k] == r.value && p(r.value)
                       && forall j :: 0 <= j < k ==> !p(rows[1..][j]);
        assert rows[k + 1] == r.value;
        r
      else r
  }

  /** Overwrites the data of the row with key `id`, everything else in
      place (a tracked entity whose properties were assigned, then saved). */
  function Replace<T>(t: Table<T>, id: int, data: T): (r: Table<T>)
    ensures |r.rows| == |t.rows| && r.nextId == t.nextId
    ensures forall i :: 0 <= i < |t.rows| ==> r.rows[i].id == t.rows[i].id
    ensures forall i :: 0 <= i < |t.rows| && t.rows[i].id != id ==> r.rows[i] == t.rows[i]
    ensures forall i :: 0 <= i < |t.rows| && t.rows[i].id == id ==> r.rows[i] == Row(id, data)
  {
    Table(seq(|t.rows|, i requires 0 <= i < |t.rows| =>
                if t.rows[i].id == id then Row(id, data) else t.rows[i]),
          t.nextId)
  }

  /** A replacement keeps the keys, and so their well-formedness. */
  lemma ReplaceKeys<T>(t: Table<T>, id: int, data: T)
    requires WellFormed(t)
    ensures WellFormed(Replace(t, id, data))
    ensures Ids(Replace(t, id, data)) == Ids(t)
  {
    var r := Replace(t, id, data);
    forall k | k in Ids(r) ensures k in Ids(t) {
      var i :| 0 <= i < |r.rows| && r.rows[i].id == k;
      assert t.rows[i].id == k;
    }
    forall k | k in Ids(t) ensures k in Ids(r) {
      var i :| 0 <= i < |t.rows| && t.rows[i].id == k;
      assert r.rows[i].id == k;
    }
  }

  /** After a replacement the key finds the new data and every other key
      finds what it found before. */
  lemma ReplaceFound<T>(t: Table<T>, id: int, data: T, other: int)
    requires WellFormed(t) && id in Ids(t)
    ensures Find(Replace(t, id, data), id) == Some(data)
    ensures other != id ==> Find(Replace(t, id, data), other) == Find(t, other)
  {
    var r := Replace(t, id, data);
    ReplaceKeys(t, id, data);
    var i :| 0 <= i < |t.rows| && t.rows[i].id == id;
    assert r.rows[i] == Row(id, data);
    FindUnique(r, id, data);
    if other != id {
      match Find(t, other)
      case Some(d) =>
        var j :| 0 <= j < |t.rows| && t.rows[j] == Row(other, d);
        assert r.rows[j] == t.rows[j];
        FindUnique(r, other, d);
      case None =>
    }
  }

  /** Writing back the data a key already has changes nothing. */
  lemma ReplaceSame<T>(t: Table<T>, id: int, data: T)
    requires WellFormed(t) && Find(t, id) == Some(data)
    ensures Replace(t, id, data) == t
  {
    var k :| 0 <= k < |t.rows| && t.rows[k] == Row(id, data);
    var r := Replace(t, id, data);
    forall i | 0 <= i < |t.rows| ensures r.rows[i] == t.rows[i] {
      if t.rows[i].id == id {
        assert i == k;
      }
    }
  }

  /** A second replacement of the same key overrides the first. */
  lemma ReplaceTwice<T>(t: Table<T>, id: int, a: T, b: T)
    ensures Replace(Replace(t, id, a), id, b) == Replace(t, id, b)
  {
    var r1, r2 := Replace(Replace(t, id, a), id, b), Replace(t, id, b);
    forall i | 0 <= i < |t.rows| ensures r1.rows[i] == r2.rows[i] {
    }
  }

  /** `AddRange` followed by a successful save: the new rows take
      consecutive identity values, in order. */
  function InsertAll<T>(t: Table<T>, datas: seq<T>): (r: Table<T>)
    ensures r.nextId == t.nextId + |datas|
    ensures |r.rows| == |t.rows| + |datas|
    ensures forall i :: 0 <= i < |t.rows| ==> r.rows[i] == t.rows[i]
    ensures forall k :: 0 <= k < |datas| ==> r.rows[|t.rows| + k] == Row(t.nextId + k, datas[k])
  {
    Table(t.rows + seq(|datas|, k requires 0 <= k < |datas| => Row(t.nextId + k, datas[k])), t.nextId + |datas|)
  }

  /** The added rows are exactly the new keys, all above the old ones. */
  lemma InsertAllKeys<T>(t: Table<T>, datas: seq<T>)
    requires WellFormed(t)
    ensures WellFormed(InsertAll(t, datas))
    ensures forall x :: x in InsertAll(t, datas).rows <==>
      x in t.rows || exists k :: 0 <= k < |datas| && x == Row(t.nextId + k, datas[k])
  {
    var r := InsertAll(t, datas);
    forall x | x in r.rows
      ensures x in t.rows || exists k :: 0 <= k < |datas| && x == Row(t.nextId + k, datas[k])
    {
      var i :| 0 <= i < |r.rows| && r.rows[i] == x;
      if i >= |t.rows| {
        assert x == Row(t.nextId + (i - |t.rows|), datas[i - |t.rows|]);
      }
    }
    forall k | 0 <= k < |datas| ensures Row(t.nextId + k, datas[k]) in r.rows {
      assert r.rows[|t.rows| + k] == Row(t.nextId + k, datas[k]);
    }
    forall i, j | 0 <= i < j < |r.rows| ensures r.rows[i].id != r.rows[j].id {
      if j < |t.rows| {
        assert r.rows[i] == t.rows[i] && r.rows[j] == t.rows[j];
      } else if i < |t.rows| {
        assert r.rows[i] == t.rows[i];
        assert r.rows[j].id == t.nextId + (j - |t.rows|);
      } else {
        assert r.rows[i].id == t.nextId + (i - |t.rows|);
        assert r.rows[j].id == t.nextId + (j - |t.rows|);
      }
    }
    forall i | 0 <= i < |r.rows| ensures 0 < r.rows[i].id < r.nextId {
      if i < |t.rows| {
        assert r.rows[i] == t.rows[i];
      }
    }
  }
}
