/** The storage layer's session object, `AWSMySQLLib`: one connection
    field, connect and close, and the catalog and record operations, each
    of which turns every failure into its own sentinel (`false`, `-1`,
    `None`, `[]`, or the empty dict, which is `None` here).

    Every operation is specified by a function of the connection as a
    value (`Link`): the operation's result and the link afterwards. */
module AwsMySqlLib {
  import opened Py
  import opened Driver
  import Statements
  import opened DdlParser
  import opened Shapes

  /** A handle exists and is open. */
  predicate Live(l: Link) {
    l.Handle? && l.open
  }

  // ---------------------------------------------------------------------
  // Connecting and closing

  /** `self.connection = pymysql.connect(...)`: replaced by a fresh open
      handle when the driver connects, untouched when it raises. */
  function ConnectSpec(l: Link, dial: Dial, target: Target): (bool, Link) {
    match dial(target)
    case None => (false, l)
    case Some(server) => (true, Handle(target, server, true, []))
  }

  /** `close_connection`: closes a live handle; the field keeps the handle. */
  function CloseSpec(l: Link): (bool, Link) {
    if Live(l) then (true, l.(open := false)) else (false, l)
  }

  // ---------------------------------------------------------------------
  // Catalog queries

  /** The dict of `get_database_properties` from the driver's reply to
      `SHOW CREATE DATABASE`; `None` is the empty dict: the query failed,
      returned no row, or the row has no text in its second column. */
  function PropertiesOf(reply: Reply): (r: Option<Properties>)
    ensures r.Some? <==>
      reply.Ok? && |reply.rows| > 0 && |reply.rows[0]| >= 2 && reply.rows[0][1].Str?
    ensures r.Some? ==> r.value == Parse(reply.rows[0][1].s)
  {
    if reply.Failed? || |reply.rows| == 0 then None
    else
      var row := reply.rows[0];
      if |row| < 2 || !row[1].Str? then None else Some(Parse(row[1].s))
  }

  function PropertiesSpec(l: Link, name: string): (Option<Properties>, Link) {
    var (reply, l') := Deliver(l, Execute(Statements.ShowCreateDatabase(name)));
    (PropertiesOf(reply), l')
  }

  /** The loop of `get_database_info` from the names left to describe. */
  function PropertiesFrom(l: Link, acc: seq<Option<Properties>>, names: seq<Value>): (seq<Option<Properties>>, Link)
    decreases |names|
  {
    if names == [] then (acc, l)
    else
      var (p, l') := PropertiesSpec(l, Text(names[0]));
      PropertiesFrom(l', acc + [p], names[1..])
  }

  function InfoSpec(l: Link): (Option<seq<Option<Properties>>>, Link) {
    var (reply, l1) := Deliver(l, Execute(Statements.ShowDatabases));
    if reply.Failed? then (None, l1)
    else
      match FirstColumn(reply.rows)
      case None => (None, l1)
      case Some(names) =>
        var (infos, l2) := PropertiesFrom(l1, [], names);
        (Some(infos), l2)
  }

  function ExistsSpec(l: Link, name: string): (bool, Link) {
    var (reply, l') := Deliver(l, Execute(Statements.ShowDatabasesLike(name)));
    (reply.Ok? && |reply.rows| > 0, l')
  }

  /** The loop of `list_tables_with_columns` from the tables left to
      describe; `None` once a `DESCRIBE` fails or returns a short row. */
  function DescribeFrom(l: Link, acc: seq<TableInfo>, tables: seq<Value>): (Option<seq<TableInfo>>, Link)
    decreases |tables|
  {
    if tables == [] then (Some(acc), l)
    else
      var (reply, l') := Deliver(l, Execute(Statements.Describe(Text(tables[0]))));
      if reply.Failed? then (None, l')
      else
        match ColumnsOf(reply.rows)
        case None => (None, l')
        case Some(columns) => DescribeFrom(l', acc + [TableInfo(tables[0], columns)], tables[1..])
  }

  function TablesSpec(l: Link): (seq<TableInfo>, Link) {
    var (reply, l1) := Deliver(l, Execute(Statements.ShowTables));
    if reply.Failed? then ([], l1)
    else
      match FirstColumn(reply.rows)
      case None => ([], l1)
      case Some(tables) =>
        var (r, l2) := DescribeFrom(l1, [], tables);
        (if r.Some? then r.value else [], l2)
  }

  function EntriesOf(names: seq<string>, rows: seq<Row>): (es: seq<Record>)
    ensures |es| == |rows| && forall k :: 0 <= k < |rows| ==> es[k] == Entry(names, rows[k])
  {
    seq(|rows|, k requires 0 <= k < |rows| => Entry(names, rows[k]))
  }

  function EntriesSpec(l: Link, table: string): (Option<seq<Record>>, Link) {
    var (reply, l') := Deliver(l, Execute(Statements.SelectAll(table)));
    if reply.Failed? || reply.description.None? then (None, l')
    else (Some(EntriesOf(reply.description.value, reply.rows)), l')
  }

  // ---------------------------------------------------------------------
  // Statements without a result

  /** `create_database`, `remove_database`: one statement, no commit. */
  function ExecuteSpec(l: Link, sql: string): (bool, Link) {
    var (reply, l') := Deliver(l, Execute(sql));
    (reply.Ok?, l')
  }

  /** `create_table`, `delete_table`, `update_record`, `delete_record`:
      the statement, then a commit when the statement went through. */
  function ExecuteCommitSpec(l: Link, sql: string): (bool, Link) {
    var (reply, l1) := Deliver(l, Execute(sql));
    if reply.Failed? then (false, l1)
    else
      var (committed, l2) := Deliver(l1, Commit);
      (committed.Ok?, l2)
  }

  /** `insert_record`: the insert id of the statement once it is committed. */
  function InsertSpec(l: Link, table: string, data: Statements.Dict<Value>): (int, Link) {
    var (reply, l1) := Deliver(l, Execute(Statements.Insert(table, data)));
    if reply.Failed? then (-1, l1)
    else
      var (committed, l2) := Deliver(l1, Commit);
      if committed.Failed? then (-1, l2) else (reply.lastRowId as int, l2)
  }

  // ---------------------------------------------------------------------
  // The session object

  class AWSMySQLLib {
    const host: string
    const user: string
    const password: string
    const database: string
    const port: int
    var connection: Connection?

    constructor (host: string, user: string, password: string, database: string, port: int)
      ensures this.host == host && this.user == user && this.password == password
      ensures this.database == database && this.port == port
      ensures connection == null
    {
      this.host := host;
      this.user := user;
      this.password := password;
      this.database := database;
      this.port := port;
      connection := null;
    }

    /** The connection field as a value. */
    function CurrentLink(): Link
      reads this, connection
    {
      if connection == null then Absent else connection.AsLink()
    }

    function HostTarget(): Target {
      Target(host, user, password, None, port)
    }

    function DatabaseTarget(): Target {
      Target(host, user, password, Some(database), port)
    }

    method Connect(target: Target, dial: Dial) returns (ok: bool)
      modifies this
      ensures (ok, CurrentLink()) == ConnectSpec(old(CurrentLink()), dial, target)
      ensures ok ==> fresh(connection)
      ensures !ok ==> connection == old(connection)
      ensures old(connection) != null ==> old(connection).AsLink() == old(CurrentLink())
    {
      var server := dial(target);
      if server.None? {
        return false;
      }
      connection := new Connection(target, server.value);
      ok := true;
    }

    /** `connect_to_rds_host`: connects without selecting a database. */
    method ConnectToRdsHost(dial: Dial) returns (ok: bool)
      modifies this
      ensures (ok, CurrentLink()) == ConnectSpec(old(CurrentLink()), dial, HostTarget())
      ensures ok ==> fresh(connection)
      ensures !ok ==> connection == old(connection)
      ensures old(connection) != null ==> old(connection).AsLink() == old(CurrentLink())
    {
      ok := Connect(HostTarget(), dial);
    }

    /** `connect_to_database`: connects and selects the configured database. */
    method ConnectToDatabase(dial: Dial) returns (ok: bool)
      modifies this
      ensures (ok, CurrentLink()) == ConnectSpec(old(CurrentLink()), dial, DatabaseTarget())
      ensures ok ==> fresh(connection)
      ensures !ok ==> connection == old(connection)
      ensures old(connection) != null ==> old(connection).AsLink() == old(CurrentLink())
    {
      ok := Connect(DatabaseTarget(), dial);
    }

    /** One request over the connection field; without a handle the
        attribute access raises, which the callers catch. */
    method Run(req: Request) returns (reply: Reply)
      modifies connection
      ensures (reply, CurrentLink()) == Deliver(old(CurrentLink()), req)
    {
      if connection == null {
        reply := Failed;
      } else {
        reply := connection.Send(req);
      }
    }

    method GetDatabaseProperties(name: string) returns (props: Option<Properties>)
      modifies connection
      ensures (props, CurrentLink()) == PropertiesSpec(old(CurrentLink()), name)
    {
      var reply := Run(Execute(Statements.ShowCreateDatabase(name)));
      props := None;
      if reply.Ok? && |reply.rows| > 0 {
        var result := reply.rows[0];
        if |result| > 0 && |result| >= 2 && result[1].Str? {
          props := Some(Parse(result[1].s));
        }
      }
    }

    method GetDatabaseInfo() returns (infos: Option<seq<Option<Properties>>>)
      modifies connection
      ensures (infos, CurrentLink()) == InfoSpec(old(CurrentLink()))
    {
      var reply := Run(Execute(Statements.ShowDatabases));
      if reply.Failed? {
        return None;
      }
      var names := FirstColumn(reply.rows);
      if names.None? {
        return None;
      }
      var acc := PropertiesOfEach(names.value);
      infos := Some(acc);
    }

    /** The loop of `get_database_info`: the properties of each listed name,
        queried one after the other. */
    method PropertiesOfEach(names: seq<Value>) returns (acc: seq<Option<Properties>>)
      modifies connection
      ensures (acc, CurrentLink()) == PropertiesFrom(old(CurrentLink()), [], names)
    {
      ghost var listed := CurrentLink();
      acc := [];
      var i := 0;
      while i < |names|
        invariant 0 <= i <= |names|
        invariant PropertiesFrom(CurrentLink(), acc, names[i..]) == PropertiesFrom(listed, [], names)
      {
        assert names[i..][1..] == names[i + 1..];
        var p := GetDatabaseProperties(Text(names[i]));
        acc := acc + [p];
        i := i + 1;
      }
    }

    method CheckDatabaseExists(name: string) returns (found: bool)
      modifies connection
      ensures (found, CurrentLink()) == ExistsSpec(old(CurrentLink()), name)
    {
      var reply := Run(Execute(Statements.ShowDatabasesLike(name)));
      found := reply.Ok? && |reply.rows| > 0;
    }

    method CreateDatabase(name: string) returns (ok: bool)
      modifies connection
      ensures (ok, CurrentLink()) == ExecuteSpec(old(CurrentLink()), Statements.CreateDatabase(name))
    {
      var reply := Run(Execute(Statements.CreateDatabase(name)));
      ok := reply.Ok?;
    }

    method RemoveDatabase(name: string) returns (ok: bool)
      modifies connection
      ensures (ok, CurrentLink()) == ExecuteSpec(old(CurrentLink()), Statements.DropDatabase(name))
    {
      var reply := Run(Execute(Statements.DropDatabase(name)));
      ok := reply.Ok?;
    }

    /** A statement and then a commit, outside the cursor's block. */
    method ExecuteAndCommit(sql: string) returns (ok: bool)
      modifies connection
      ensures (ok, CurrentLink()) == ExecuteCommitSpec(old(CurrentLink()), sql)
    {
      var reply := Run(Execute(sql));
      if reply.Failed? {
        return false;
      }
      var committed := Run(Commit);
      ok := committed.Ok?;
    }

    method CreateTable(table: string, columns: Statements.Dict<string>) returns (ok: bool)
      modifies connection
      ensures (ok, CurrentLink()) == ExecuteCommitSpec(old(CurrentLink()), Statements.CreateTable(table, columns))
    {
      ok := ExecuteAndCommit(Statements.CreateTable(table, columns));
    }

    method ListTablesWithColumns() returns (tables: seq<TableInfo>)
      modifies connection
      ensures (tables, CurrentLink()) == TablesSpec(old(CurrentLink()))
    {
      var reply := Run(Execute(Statements.ShowTables));
      if reply.Failed? {
        return [];
      }
      var names := FirstColumn(reply.rows);
      if names.None? {
        return [];
      }
      var described := DescribeEach(names.value);
      tables := if described.Some? then described.value else [];
    }

    /** The loop of `list_tables_with_columns`: each listed table described
        one after the other; a failed `DESCRIBE` or a short row ends it. */
    method DescribeEach(names: seq<Value>) returns (described: Option<seq<TableInfo>>)
      modifies connection
      ensures (described, CurrentLink()) == DescribeFrom(old(CurrentLink()), [], names)
    {
      ghost var listed := CurrentLink();
      var acc: seq<TableInfo> := [];
      var i := 0;
      while i < |names|
        invariant 0 <= i <= |names|
        invariant DescribeFrom(CurrentLink(), acc, names[i..]) == DescribeFrom(listed, [], names)
      {
        assert names[i..][1..] == names[i + 1..];
        var table := names[i];
        var reply := Run(Execute(Statements.Describe(Text(table))));
        if reply.Failed? {
          return None;
        }
        var columns := DescribeColumns(reply.rows);
        if columns.None? {
          return None;
        }
        acc := acc + [TableInfo(table, columns.value)];
        i := i + 1;
      }
      described := Some(acc);
    }

    method DeleteTable(table: string) returns (ok: bool)
      modifies connection
      ensures (ok, CurrentLink()) == ExecuteCommitSpec(old(CurrentLink()), Statements.DropTableIfExists(table))
    {
      ok := ExecuteAndCommit(Statements.DropTableIfExists(table));
    }

    method ListEntriesInTable(table: string) returns (entries: Option<seq<Record>>)
      modifies connection
      ensures (entries, CurrentLink()) == EntriesSpec(old(CurrentLink()), table)
    {
      var reply := Run(Execute(Statements.SelectAll(table)));
      if reply.Failed? || reply.description.None? {
        return None;
      }
      var records := ZipRows(reply.description.value, reply.rows);
      assert records == EntriesOf(reply.description.value, reply.rows);
      entries := Some(records);
    }

    method InsertRecord(table: string, data: Statements.Dict<Value>) returns (id: int)
      modifies connection
      ensures (id, CurrentLink()) == InsertSpec(old(CurrentLink()), table, data)
    {
      var reply := Run(Execute(Statements.Insert(table, data)));
      if reply.Failed? {
        return -1;
      }
      var committed := Run(Commit);
      if committed.Failed? {
        return -1;
      }
      id := reply.lastRowId;
    }

    method UpdateRecord(table: string, id: int, data: Statements.Dict<Value>) returns (ok: bool)
      modifies connection
      ensures (ok, CurrentLink()) == ExecuteCommitSpec(old(CurrentLink()), Statements.Update(table, id, data))
    {
      ok := ExecuteAndCommit(Statements.Update(table, id, data));
    }

    method DeleteRecord(table: string, id: int) returns (ok: bool)
      modifies connection
      ensures (ok, CurrentLink()) == ExecuteCommitSpec(old(CurrentLink()), Statements.Delete(table, id))
    {
      ok := ExecuteAndCommit(Statements.Delete(table, id));
    }

    method CloseConnection() returns (closed: bool)
      modifies connection
      ensures (closed, CurrentLink()) == CloseSpec(old(CurrentLink()))
    {
      if connection != null && connection.open {
        connection.Close();
        closed := true;
      } else {
        closed := false;
      }
    }
  }
}
