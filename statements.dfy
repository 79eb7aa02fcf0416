/** The SQL text the storage layer sends.  Names and values are spliced in
    as raw text: identifiers of databases are wrapped in backticks, values
    in single quotes, and nothing is escaped. */
module Statements {
  import opened Py
  import opened Driver

  /** A Python dict in insertion order: the column-to-type map of
      `create_table`, the record of `insert_record` and `update_record`. */
  type Dict<V> = seq<(string, V)>

  function Keys<V>(d: Dict<V>): (ks: seq<string>)
    ensures |ks| == |d| && forall k :: 0 <= k < |d| ==> ks[k] == d[k].0
  {
    seq(|d|, k requires 0 <= k < |d| => d[k].0)
  }

  const ShowDatabases := "SHOW DATABASES"
  const ShowTables := "SHOW TABLES"

  /** What is left of `q` once `head` is cut off its front and `tail` off
      its back, or `None` when `q` does not start with `head` and end with
      `tail`: reading a name or a list back out of a statement. */
  function Unwrap(q: string, head: string, tail: string): Option<string> {
    if |head| + |tail| <= |q| && q[..|head|] == head && q[|q| - |tail|..] == tail
    then Some(q[|head|..|q| - |tail|])
    else None
  }

  lemma UnwrapConcat(head: string, body: string, tail: string)
    ensures Unwrap(head + body + tail, head, tail) == Some(body)
  {
    var q := head + body + tail;
    assert q[..|head|] == head;
    assert q[|q| - |tail|..] == tail;
    assert q[|head|..|q| - |tail|] == body;
  }

  lemma UnwrapHead(head: string, body: string)
    ensures Unwrap(head + body, head, "") == Some(body)
  {
    assert head + body + "" == head + body;
    UnwrapConcat(head, body, "");
  }

  function ShowCreateDatabase(name: string): string {
    "SHOW CREATE DATABASE `" + name + "`"
  }

  function ShowDatabasesLike(name: string): string {
    "SHOW DATABASES LIKE '" + name + "'"
  }

  function CreateDatabase(name: string): string {
    "CREATE DATABASE `" + name + "`"
  }

  function DropDatabase(name: string): string {
    "DROP DATABASE `" + name + "`"
  }

  /** One `name type` item per entry of the column map, in map order. */
  function ColumnDefinitionItems(columns: Dict<string>): (items: seq<string>)
    ensures |items| == |columns|
    ensures forall k :: 0 <= k < |columns| ==> items[k] == columns[k].0 + " " + columns[k].1
  {
    seq(|columns|, k requires 0 <= k < |columns| => columns[k].0 + " " + columns[k].1)
  }

  function CreateTable(table: string, columns: Dict<string>): string {
    "CREATE TABLE " + table + " (" + Join(", ", ColumnDefinitionItems(columns)) + ")"
  }

  function Describe(table: string): string {
    "DESCRIBE " + table
  }

  function DropTableIfExists(table: string): string {
    "DROP TABLE IF EXISTS " + table
  }

  function SelectAll(table: string): string {
    "SELECT * FROM " + table
  }

  /** A value as it appears in a statement: its text between single quotes, unescaped. */
  function Quoted(v: Value): string {
    "'" + Text(v) + "'"
  }

  function QuotedValues(data: Dict<Value>): (items: seq<string>)
    ensures |items| == |data|
    ensures forall k :: 0 <= k < |data| ==> items[k] == Quoted(data[k].1)
  {
    seq(|data|, k requires 0 <= k < |data| => Quoted(data[k].1))
  }

  function ColumnList(data: Dict<Value>): string {
    Join(", ", Keys(data))
  }

  function ValueList(data: Dict<Value>): string {
    Join(", ", QuotedValues(data))
  }

  function Insert(table: string, data: Dict<Value>): string {
    "INSERT INTO " + table + " (" + ColumnList(data) + ") VALUES (" + ValueList(data) + ")"
  }

  function AssignmentItems(data: Dict<Value>): (items: seq<string>)
    ensures |items| == |data|
    ensures forall k :: 0 <= k < |data| ==> items[k] == data[k].0 + " = " + Quoted(data[k].1)
  {
    seq(|data|, k requires 0 <= k < |data| => data[k].0 + " = " + Quoted(data[k].1))
  }

  function Assignments(data: Dict<Value>): string {
    Join(", ", AssignmentItems(data))
  }

  function Update(table: string, id: int, data: Dict<Value>): string {
    "UPDATE " + table + " SET " + Assignments(data) + " WHERE id = " + IntText(id)
  }

  function Delete(table: string, id: int): string {
    "DELETE FROM " + table + " WHERE id = " + IntText(id)
  }

  // ---------------------------------------------------------------------
  // The name or list each statement carries reads back out of its text

  lemma ShowCreateDatabaseReadsBack(name: string)
    ensures Unwrap(ShowCreateDatabase(name), "SHOW CREATE DATABASE `", "`") == Some(name)
  {
    UnwrapConcat("SHOW CREATE DATABASE `", name, "`");
  }

  lemma ShowDatabasesLikeReadsBack(name: string)
    ensures Unwrap(ShowDatabasesLike(name), "SHOW DATABASES LIKE '", "'") == Some(name)
  {
    UnwrapConcat("SHOW DATABASES LIKE '", name, "'");
  }

  lemma CreateDatabaseReadsBack(name: string)
    ensures Unwrap(CreateDatabase(name), "CREATE DATABASE `", "`") == Some(name)
  {
    UnwrapConcat("CREATE DATABASE `", name, "`");
  }

  lemma DropDatabaseReadsBack(name: string)
    ensures Unwrap(DropDatabase(name), "DROP DATABASE `", "`") == Some(name)
  {
    UnwrapConcat("DROP DATABASE `", name, "`");
  }

  lemma CreateTableReadsBack(table: string, columns: Dict<string>)
    ensures Unwrap(CreateTable(table, columns), "CREATE TABLE " + table + " (", ")")
         == Some(Join(", ", ColumnDefinitionItems(columns)))
  {
    UnwrapConcat("CREATE TABLE " + table + " (", Join(", ", ColumnDefinitionItems(columns)), ")");
  }

  lemma DescribeReadsBack(table: string)
    ensures Unwrap(Describe(table), "DESCRIBE ", "") == Some(table)
  {
    UnwrapHead("DESCRIBE ", table);
  }

  lemma DropTableIfExistsReadsBack(table: string)
    ensures Unwrap(DropTableIfExists(table), "DROP TABLE IF EXISTS ", "") == Some(table)
  {
    UnwrapHead("DROP TABLE IF EXISTS ", table);
  }

  lemma SelectAllReadsBack(table: string)
    ensures Unwrap(SelectAll(table), "SELECT * FROM ", "") == Some(table)
  {
    UnwrapHead("SELECT * FROM ", table);
  }

  /** Both middle parts of a five-part text read back from between their
      neighbours. */
  lemma UnwrapFive(a: string, b: string, c: string, d: string, e: string)
    ensures Unwrap(a + b + c + d + e, a, c + d + e) == Some(b)
    ensures Unwrap(a + b + c + d + e, a + b + c, e) == Some(d)
  {
    assert a + b + c + d + e == a + b + (c + d + e);
    UnwrapConcat(a, b, c + d + e);
    UnwrapConcat(a + b + c, d, e);
  }

  /** The column list reads back from between the table's `(` and
      `) VALUES (`, the value list from between that and the final `)`. */
  lemma InsertReadsBack(table: string, data: Dict<Value>)
    ensures Unwrap(Insert(table, data), "INSERT INTO " + table + " (", ") VALUES (" + ValueList(data) + ")")
         == Some(ColumnList(data))
    ensures Unwrap(Insert(table, data), "INSERT INTO " + table + " (" + ColumnList(data) + ") VALUES (", ")")
         == Some(ValueList(data))
  {
    UnwrapFive("INSERT INTO " + table + " (", ColumnList(data), ") VALUES (", ValueList(data), ")");
  }

  lemma UpdateReadsBack(table: string, id: int, data: Dict<Value>)
    ensures Unwrap(Update(table, id, data), "UPDATE " + table + " SET ", " WHERE id = " + IntText(id))
         == Some(Assignments(data))
  {
    var head, tail := "UPDATE " + table + " SET ", " WHERE id = " + IntText(id);
    UnwrapConcat(head, Assignments(data), tail);
    assert head + Assignments(data) + tail == Update(table, id, data);
  }

  lemma DeleteReadsBack(table: string, id: int)
    ensures Unwrap(Delete(table, id), "DELETE FROM " + table + " WHERE id = ", "") == Some(IntText(id))
  {
    UnwrapHead("DELETE FROM " + table + " WHERE id = ", IntText(id));
  }

  // ---------------------------------------------------------------------
  // What the lists inside the statements read back as

  /** Every key and every value text of `data` is free of commas. */
  predicate PlainEntries(data: Dict<Value>) {
    forall k :: 0 <= k < |data| ==> CommaFree(data[k].0) && CommaFree(Text(data[k].1))
  }

  lemma QuotedCommaFree(v: Value)
    requires CommaFree(Text(v))
    ensures CommaFree(Quoted(v))
  {
    CommaFreeConcat("'", Text(v));
    CommaFreeConcat("'" + Text(v), "'");
  }

  /** The column list of `CREATE TABLE` holds exactly one `name type` item
      per map entry, in map order, when names and types hold no comma. */
  lemma CreateTableItems(columns: Dict<string>)
    requires |columns| >= 1
    requires forall k :: 0 <= k < |columns| ==> CommaFree(columns[k].0) && CommaFree(columns[k].1)
    ensures Split(Join(", ", ColumnDefinitionItems(columns)), ", ") == ColumnDefinitionItems(columns)
  {
    var items := ColumnDefinitionItems(columns);
    forall k | 0 <= k < |items| ensures CommaFree(items[k]) {
      CommaFreeConcat(columns[k].0, " ");
      CommaFreeConcat(columns[k].0 + " ", columns[k].1);
    }
    SplitJoinCommaFree(items);
  }

  /** The column list and the value list of `INSERT` read back as the keys
      and the quoted values of the record: as many of each, in the same
      key order. */
  lemma InsertListsAlign(data: Dict<Value>)
    requires |data| >= 1 && PlainEntries(data)
    ensures var cols, vals := Split(ColumnList(data), ", "), Split(ValueList(data), ", ");
      && |cols| == |vals| == |data|
      && forall k :: 0 <= k < |data| ==> cols[k] == data[k].0 && vals[k] == Quoted(data[k].1)
  {
    SplitJoinCommaFree(Keys(data));
    var quoted := QuotedValues(data);
    forall k | 0 <= k < |quoted| ensures CommaFree(quoted[k]) {
      QuotedCommaFree(data[k].1);
    }
    SplitJoinCommaFree(quoted);
  }

  /** The SET clause of `UPDATE` holds exactly one `key = 'value'` item per
      key of the record, in key order. */
  lemma UpdateAssignments(data: Dict<Value>)
    requires |data| >= 1 && PlainEntries(data)
    ensures var items := Split(Assignments(data), ", ");
      && |items| == |data|
      && forall k :: 0 <= k < |data| ==> items[k] == data[k].0 + " = " + Quoted(data[k].1)
  {
    var items := AssignmentItems(data);
    forall k | 0 <= k < |items| ensures CommaFree(items[k]) {
      QuotedCommaFree(data[k].1);
      CommaFreeConcat(data[k].0, " = ");
      CommaFreeConcat(data[k].0 + " = ", Quoted(data[k].1));
    }
    SplitJoinCommaFree(items);
  }

  /** Both `UPDATE` and `DELETE` end in `WHERE id = ` followed by the id's
      decimal text, which reads back as the id itself. */
  lemma WhereClauseNamesId(table: string, id: int, data: Dict<Value>)
    ensures var u, d := Update(table, id, data), Delete(table, id);
      var n := |IntText(id)|;
      && |u| >= n && |d| >= n
      && u[..|u| - n] == "UPDATE " + table + " SET " + Assignments(data) + " WHERE id = "
      && d[..|d| - n] == "DELETE FROM " + table + " WHERE id = "
      && ParseInt(u[|u| - n..]) == Some(id)
      && ParseInt(d[|d| - n..]) == Some(id)
  {
    var u, d := Update(table, id, data), Delete(table, id);
    var n := |IntText(id)|;
    assert u[|u| - n..] == IntText(id);
    assert d[|d| - n..] == IntText(id);
    IntTextRoundTrip(id);
  }

  /** Nothing is escaped: a value `a', 'b` closes its literal early, so one
      record field yields two items in the value list. */
  lemma QuoteInValueSplitsList(key: string, a: string, b: string)
    requires CommaFree(a) && CommaFree(b)
    ensures var data := [(key, Str(a + "', '" + b))];
      Split(ValueList(data), ", ") == ["'" + a + "'", "'" + b + "'"]
  {
    var data := [(key, Str(a + "', '" + b))];
    var first, second := "'" + a + "'", "'" + b + "'";
    assert QuotedValues(data) == [first + ", " + second] by {
      QuoteOpensTwo(a, b);
    }
    assert ValueList(data) == Join(", ", [first, second]);
    CommaFreeConcat("'", a);
    CommaFreeConcat("'" + a, "'");
    CommaFreeConcat("'", b);
    CommaFreeConcat("'" + b, "'");
    SplitJoinCommaFree([first, second]);
  }

  /** Quoting `a', 'b` gives the quoted `a`, a comma-space, and the quoted `b`. */
  lemma QuoteOpensTwo(a: string, b: string)
    ensures "'" + (a + "', '" + b) + "'" == ("'" + a + "'") + ", " + ("'" + b + "'")
  {
    assert "', '" == "'" + ", " + "'";
  }
}
