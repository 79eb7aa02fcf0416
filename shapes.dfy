/** How the storage layer reshapes result rows: the first column of a
    listing, the six-field descriptor of a `DESCRIBE` row, and the Python
    dict that `dict(zip(columns, row))` builds for a `SELECT` row. */
module Shapes {
  import opened Py
  import opened Driver
  import Statements

  // ---------------------------------------------------------------------
  // Listings

  /** `[item[0] for item in rows]`: `None` when some row has no column,
      since indexing it raises. */
  function FirstColumn(rows: seq<Row>): (r: Option<seq<Value>>)
    ensures r.None? <==> exists k :: 0 <= k < |rows| && |rows[k]| == 0
    ensures r.Some? ==> |r.value| == |rows| && forall k :: 0 <= k < |rows| ==> r.value[k] == rows[k][0]
  {
    if forall k :: 0 <= k < |rows| ==> |rows[k]| > 0
    then Some(seq(|rows|, k requires 0 <= k < |rows| => rows[k][0]))
    else None
  }

  // ---------------------------------------------------------------------
  // Column descriptors

  /** The dict built for one column; `nullable` is the only field recoded. */
  datatype ColumnInfo = ColumnInfo(
    columnName: Value, dataType: Value, nullable: string, key: Value, defaultValue: Value, extra: Value)

  /** The dict built for one table. */
  datatype TableInfo = TableInfo(tableName: Value, columns: seq<ColumnInfo>)

  /** `'YES' if raw == 'YES' else 'NO'`. */
  function Nullable(raw: Value): (r: string)
    ensures r == "YES" <==> raw == Str("YES")
    ensures r == "YES" || r == "NO"
  {
    if raw == Str("YES") then "YES" else "NO"
  }

  /** The descriptor of a `DESCRIBE` row: its first six cells, in order. */
  function ColumnOf(row: Row): ColumnInfo
    requires |row| >= 6
  {
    ColumnInfo(row[0], row[1], Nullable(row[2]), row[3], row[4], row[5])
  }

  /** The descriptors of all `DESCRIBE` rows, or `None` when a row is too
      short to index its sixth cell. */
  function ColumnsOf(rows: seq<Row>): (r: Option<seq<ColumnInfo>>)
    ensures r.None? <==> exists k :: 0 <= k < |rows| && |rows[k]| < 6
    ensures r.Some? ==> |r.value| == |rows|
    ensures r.Some? ==> forall k :: 0 <= k < |rows| ==> |rows[k]| >= 6 && r.value[k] == ColumnOf(rows[k])
  {
    if forall k :: 0 <= k < |rows| ==> |rows[k]| >= 6
    then Some(seq(|rows|, k requires 0 <= k < |rows| && |rows[k]| >= 6 => ColumnOf(rows[k])))
    else None
  }

  /** The loop over the rows of one `DESCRIBE` that appends a descriptor
      per row; indexing a short row raises, which ends the listing. */
  method DescribeColumns(rows: seq<Row>) returns (r: Option<seq<ColumnInfo>>)
    ensures r == ColumnsOf(rows)
  {
    var columns: seq<ColumnInfo> := [];
    var i := 0;
    while i < |rows|
      invariant 0 <= i <= |rows|
      invariant |columns| == i
      invariant forall k :: 0 <= k < i ==> |rows[k]| >= 6 && columns[k] == ColumnOf(rows[k])
    {
      var row := rows[i];
      if |row| < 6 {
        assert |rows[i]| < 6;
        return None;
      }
      var info := ColumnInfo(row[0], row[1], if row[2] == Str("YES") then "YES" else "NO", row[3], row[4], row[5]);
      columns := columns + [info];
      i := i + 1;
    }
    assert ColumnsOf(rows).value == columns;
    r := Some(columns);
  }

  // ---------------------------------------------------------------------
  // Records

  /** A Python dict from column names to cells, in insertion order. */
  type Record = seq<(string, Value)>

  predicate DistinctKeys(d: Record) {
    forall i, j :: 0 <= i < j < |d| ==> d[i].0 != d[j].0
  }

  /** `d[key]`, or `None` when the key is absent. */
  function Lookup(d: Record, key: string): Option<Value>
    decreases |d|
  {
    if d == [] then None
    else if d[0].0 == key then Some(d[0].1)
    else Lookup(d[1..], key)
  }

  /** `d[key] = value`: an existing key keeps its place and takes the new
      value, a new key goes last. */
  function Put(d: Record, key: string, value: Value): (r: Record)
    ensures |r| == |d| || |r| == |d| + 1
    ensures Statements.Keys(d) <= Statements.Keys(r)
    decreases |d|
  {
    if d == [] then [(key, value)]
    else if d[0].0 == key then [(key, value)] + d[1..]
    else [d[0]] + Put(d[1..], key, value)
  }

  /** `dict(pairs)`: the pairs put in one after the other. */
  function DictOf(pairs: seq<(string, Value)>): Record
    decreases |pairs|
  {
    if pairs == [] then []
    else Put(DictOf(pairs[..|pairs| - 1]), pairs[|pairs| - 1].0, pairs[|pairs| - 1].1)
  }

  /** `zip(names, row)`: as many pairs as the shorter of the two. */
  function Zip(names: seq<string>, row: Row): (z: seq<(string, Value)>)
    ensures |z| == if |names| <= |row| then |names| else |row|
    ensures forall k :: 0 <= k < |z| ==> z[k] == (names[k], row[k])
  {
    var n := if |names| <= |row| then |names| else |row|;
    seq(n, k requires 0 <= k < n => (names[k], row[k]))
  }

  /** `dict(zip(names, row))`. */
  function Entry(names: seq<string>, row: Row): Record {
    DictOf(Zip(names, row))
  }

  /** The value the last pair with `key` carries, as a reference for what a
      dict built from `pairs` maps `key` to. */
  function LastValue(pairs: seq<(string, Value)>, key: string): Option<Value>
    decreases |pairs|
  {
    if pairs == [] then None
    else if pairs[|pairs| - 1].0 == key then Some(pairs[|pairs| - 1].1)
    else LastValue(pairs[..|pairs| - 1], key)
  }

  lemma {:induction false} PutLookup(d: Record, key: string, value: Value, other: string)
    ensures Lookup(Put(d, key, value), other) == if other == key then Some(value) else Lookup(d, other)
    decreases |d|
  {
    if d != [] && d[0].0 != key {
      PutLookup(d[1..], key, value, other);
      assert Put(d, key, value)[1..] == Put(d[1..], key, value);
    }
  }

  /** A dict built from pairs maps every key to the value of its last pair. */
  lemma {:induction false} DictOfLookup(pairs: seq<(string, Value)>, key: string)
    ensures Lookup(DictOf(pairs), key) == LastValue(pairs, key)
    decreases |pairs|
  {
    if pairs != [] {
      var n := |pairs| - 1;
      DictOfLookup(pairs[..n], key);
      PutLookup(DictOf(pairs[..n]), pairs[n].0, pairs[n].1, key);
    }
  }

  /** The keys of a dict, as a set. */
  function KeysOf(d: Record): set<string>
    decreases |d|
  {
    if d == [] then {} else {d[0].0} + KeysOf(d[1..])
  }

  lemma {:induction false} KeysOfMember(d: Record, x: string)
    ensures x in KeysOf(d) <==> exists j :: 0 <= j < |d| && d[j].0 == x
    decreases |d|
  {
    if d != [] {
      KeysOfMember(d[1..], x);
      if x in KeysOf(d[1..]) {
        var j :| 0 <= j < |d[1..]| && d[1..][j].0 == x;
        assert d[j + 1].0 == x;
      }
      if exists j :: 0 <= j < |d| && d[j].0 == x {
        var j :| 0 <= j < |d| && d[j].0 == x;
        if j > 0 { assert d[1..][j - 1].0 == x; }
      }
    }
  }

  /** A key not in the dict goes last. */
  lemma {:induction false} PutFresh(d: Record, key: string, value: Value)
    requires key !in KeysOf(d)
    ensures Put(d, key, value) == d + [(key, value)]
    decreases |d|
  {
    if d != [] {
      var tail := d[1..];
      assert d[0].0 != key && key !in KeysOf(tail);
      PutFresh(tail, key, value);
      assert Put(d, key, value) == [d[0]] + (tail + [(key, value)]);
      Regrouped(d[0], tail, (key, value));
    }
  }

  lemma Regrouped<T>(first: T, rest: seq<T>, last: T)
    ensures [first] + (rest + [last]) == [first] + rest + [last]
  {
  }

  /** Putting a key adds it to the keys and nothing else. */
  lemma {:induction false} PutKeys(d: Record, key: string, value: Value)
    ensures KeysOf(Put(d, key, value)) == KeysOf(d) + {key}
    decreases |d|
  {
    if d != [] && d[0].0 != key {
      PutKeys(d[1..], key, value);
      assert Put(d, key, value)[1..] == Put(d[1..], key, value);
    } else if d != [] {
      assert Put(d, key, value)[1..] == d[1..];
    }
  }

  /** In a dict with distinct keys, the first key is not among the others. */
  lemma HeadNotInTail(d: Record)
    requires d != [] && DistinctKeys(d)
    ensures d[0].0 !in KeysOf(d[1..])
  {
    var tail := d[1..];
    KeysOfMember(tail, d[0].0);
    forall j | 0 <= j < |tail| ensures tail[j].0 != d[0].0 {
      assert tail[j] == d[j + 1];
    }
  }

  /** A fresh key in front of a dict with distinct keys keeps them distinct. */
  lemma ConsDistinct(head: (string, Value), rest: Record)
    requires DistinctKeys(rest) && head.0 !in KeysOf(rest)
    ensures DistinctKeys([head] + rest)
  {
    var r := [head] + rest;
    forall j | 1 <= j < |r| ensures r[j].0 != r[0].0 {
      assert r[j] == rest[j - 1];
      KeysOfMember(rest, rest[j - 1].0);
    }
    forall i, j | 1 <= i < j < |r| ensures r[i].0 != r[j].0 {
      assert r[i] == rest[i - 1] && r[j] == rest[j - 1];
    }
  }

  /** Putting a key keeps the keys of a dict distinct. */
  lemma {:induction false} PutDistinct(d: Record, key: string, value: Value)
    requires DistinctKeys(d)
    ensures DistinctKeys(Put(d, key, value))
    decreases |d|
  {
    if d != [] {
      var tail := d[1..];
      assert DistinctKeys(tail);
      HeadNotInTail(d);
      if d[0].0 != key {
        PutDistinct(tail, key, value);
        PutKeys(tail, key, value);
        ConsDistinct(d[0], Put(tail, key, value));
      } else {
        ConsDistinct((key, value), tail);
      }
    }
  }

  /** `dict(pairs)` never holds a key twice. */
  lemma {:induction false} DictOfDistinctKeys(pairs: seq<(string, Value)>)
    ensures DistinctKeys(DictOf(pairs))
    decreases |pairs|
  {
    if pairs != [] {
      var n := |pairs| - 1;
      DictOfDistinctKeys(pairs[..n]);
      PutDistinct(DictOf(pairs[..n]), pairs[n].0, pairs[n].1);
    }
  }

  /** A dict built from pairs whose keys are all different holds exactly
      those pairs, in order. */
  lemma {:induction false} DictOfDistinct(pairs: seq<(string, Value)>)
    requires DistinctKeys(pairs)
    ensures DictOf(pairs) == pairs
    decreases |pairs|
  {
    if pairs != [] {
      var n := |pairs| - 1;
      var init := pairs[..n];
      assert DistinctKeys(init);
      DictOfDistinct(init);
      KeysOfMember(init, pairs[n].0);
      PutFresh(init, pairs[n].0, pairs[n].1);
      assert init + [pairs[n]] == pairs;
    }
  }

  /** With distinct column names, a row's record pairs the names with the
      cells by position, as many as the shorter of the two. */
  lemma EntryPairsByPosition(names: seq<string>, row: Row)
    requires forall i, j :: 0 <= i < j < |names| ==> names[i] != names[j]
    ensures var e := Entry(names, row);
      && |e| == (if |names| <= |row| then |names| else |row|)
      && forall k :: 0 <= k < |e| ==> e[k] == (names[k], row[k])
  {
    DictOfDistinct(Zip(names, row));
  }

  /** The loop over the rows of a `SELECT` that appends one record per row. */
  method ZipRows(names: seq<string>, rows: seq<Row>) returns (entries: seq<Record>)
    ensures |entries| == |rows|
    ensures forall k :: 0 <= k < |rows| ==> entries[k] == Entry(names, rows[k])
  {
    entries := [];
    var i := 0;
    while i < |rows|
      invariant 0 <= i <= |rows|
      invariant |entries| == i
      invariant forall k :: 0 <= k < i ==> entries[k] == Entry(names, rows[k])
    {
      entries := entries + [Entry(names, rows[i])];
      i := i + 1;
    }
  }
}
