/** What the session's operations promise, stated on their specifications:
    the failure sentinels, the connection states, and what each operation
    sends and returns on a live handle. */
module SessionProperties {
  import opened Py
  import opened Driver
  import Statements
  import opened DdlParser
  import opened Shapes
  import opened AwsMySqlLib

  // ---------------------------------------------------------------------
  // Without a live handle

  /** With no handle, or a closed one, every operation returns its failure
      sentinel, sends nothing and leaves the connection as it was. */
  lemma NoLiveHandleSentinels(l: Link, name: string, sql: string, table: string, data: Statements.Dict<Value>)
    requires !Live(l)
    ensures PropertiesSpec(l, name) == (None, l)
    ensures InfoSpec(l) == (None, l)
    ensures ExistsSpec(l, name) == (false, l)
    ensures ExecuteSpec(l, sql) == (false, l)
    ensures ExecuteCommitSpec(l, sql) == (false, l)
    ensures TablesSpec(l) == ([], l)
    ensures EntriesSpec(l, table) == (None, l)
    ensures InsertSpec(l, table, data) == (-1, l)
    ensures CloseSpec(l) == (false, l)
  {
  }

  // ---------------------------------------------------------------------
  // Connection states

  /** The four states a session can be in, read off its connection field. */
  datatype SessionState = Disconnected | ConnectedToHost | ConnectedToDatabase | Closed

  function StateOf(l: Link): SessionState {
    match l
    case Absent => Disconnected
    case Handle(target, _, open, _) =>
      if !open then Closed
      else if target.database.Some? then ConnectedToDatabase
      else ConnectedToHost
  }

  /** A failed connect keeps the state; a successful one reaches the
      connected state its target asks for, from any state, closed included. */
  lemma ConnectTransitions(l: Link, dial: Dial, target: Target)
    ensures var (ok, l') := ConnectSpec(l, dial, target);
      && (ok <==> dial(target).Some?)
      && (!ok ==> l' == l)
      && (ok ==> Live(l') && l'.sent == [] && l'.target == target)
      && (ok ==> StateOf(l') == if target.database.Some? then ConnectedToDatabase else ConnectedToHost)
  {
  }

  /** Closing succeeds exactly on a live handle and leaves it closed; the
      field is never reset, and a second close returns false. */
  lemma CloseTransitions(l: Link)
    ensures var (closed, l') := CloseSpec(l);
      && (closed <==> Live(l))
      && (l.Handle? ==> StateOf(l') == Closed && l'.sent == l.sent)
      && (l.Absent? ==> l' == Absent)
      && CloseSpec(l') == (false, l')
  {
  }

  /** The closed state is left again by connecting. */
  lemma ReconnectAfterClose(l: Link, dial: Dial, target: Target)
    requires dial(target).Some?
    ensures StateOf(CloseSpec(l).1) != ConnectedToHost && StateOf(CloseSpec(l).1) != ConnectedToDatabase
    ensures Live(ConnectSpec(CloseSpec(l).1, dial, target).1)
  {
  }

  // ---------------------------------------------------------------------
  // One request, or a request and a commit, on a live handle

  function Open(target: Target, server: Server, sent: seq<Request>): Link {
    Handle(target, server, true, sent)
  }

  /** `get_database_properties` sends `SHOW CREATE DATABASE` and parses the
      second column of the first row; any other reply gives the empty dict. */
  lemma PropertiesOnLive(target: Target, server: Server, sent: seq<Request>, name: string)
    ensures var q := Execute(Statements.ShowCreateDatabase(name));
      var reply := server(sent, q);
      var (props, l') := PropertiesSpec(Open(target, server, sent), name);
      && l' == Open(target, server, sent + [q])
      && (props.Some? <==> reply.Ok? && |reply.rows| > 0 && |reply.rows[0]| >= 2 && reply.rows[0][1].Str?)
      && (props.Some? ==> props.value == Parse(reply.rows[0][1].s))
  {
  }

  /** `check_database_exists` is true exactly when the `LIKE` listing
      succeeds with at least one row. */
  lemma ExistsOnLive(target: Target, server: Server, sent: seq<Request>, name: string)
    ensures var q := Execute(Statements.ShowDatabasesLike(name));
      var reply := server(sent, q);
      ExistsSpec(Open(target, server, sent), name) == (reply.Ok? && |reply.rows| >= 1, Open(target, server, sent + [q]))
  {
  }

  /** A statement followed by a commit succeeds exactly when both do; the
      commit is sent only after a statement that went through. */
  lemma ExecuteCommitOnLive(target: Target, server: Server, sent: seq<Request>, sql: string)
    ensures var first := server(sent, Execute(sql));
      var second := server(sent + [Execute(sql)], Commit);
      var (ok, l') := ExecuteCommitSpec(Open(target, server, sent), sql);
      && (ok <==> first.Ok? && second.Ok?)
      && l' == Open(target, server, sent + [Execute(sql)] + (if first.Ok? then [Commit] else []))
  {
  }

  /** `insert_record` returns -1 exactly when the insert or its commit
      fails, and otherwise the insert id the driver reported. */
  lemma InsertOnLive(target: Target, server: Server, sent: seq<Request>, table: string, data: Statements.Dict<Value>)
    ensures var q := Execute(Statements.Insert(table, data));
      var first := server(sent, q);
      var second := server(sent + [q], Commit);
      var (id, l') := InsertSpec(Open(target, server, sent), table, data);
      && (id == -1 <==> first.Failed? || second.Failed?)
      && (id != -1 ==> id == first.lastRowId && id >= 0)
      && l' == Open(target, server, sent + [q] + (if first.Ok? then [Commit] else []))
  {
  }

  /** `list_entries_in_table` gives one record per row, in row order, each
      built from the column names and that row; `None` only when the query
      fails or returns no result set, so an empty table gives `Some([])`. */
  lemma EntriesOnLive(target: Target, server: Server, sent: seq<Request>, table: string)
    ensures var q := Execute(Statements.SelectAll(table));
      var reply := server(sent, q);
      var (entries, l') := EntriesSpec(Open(target, server, sent), table);
      && l' == Open(target, server, sent + [q])
      && (entries.None? <==> reply.Failed? || reply.description.None?)
      && (entries.Some? ==> |entries.value| == |reply.rows|)
      && (entries.Some? ==>
            forall k :: 0 <= k < |reply.rows| ==> entries.value[k] == Entry(reply.description.value, reply.rows[k]))
  {
  }

  /** With distinct column names, each record pairs the names with the
      cells of its row by position. */
  lemma EntriesPairByPosition(target: Target, server: Server, sent: seq<Request>, table: string)
    requires var reply := server(sent, Execute(Statements.SelectAll(table)));
      reply.Ok? && reply.description.Some?
    requires var names := server(sent, Execute(Statements.SelectAll(table))).description.value;
      forall i, j :: 0 <= i < j < |names| ==> names[i] != names[j]
    ensures var reply := server(sent, Execute(Statements.SelectAll(table)));
      var names := reply.description.value;
      var entries := EntriesSpec(Open(target, server, sent), table).0;
      && entries.Some? && |entries.value| == |reply.rows|
      && forall k :: 0 <= k < |reply.rows| ==> entries.value[k] == Zip(names, reply.rows[k])
  {
    var reply := server(sent, Execute(Statements.SelectAll(table)));
    forall k | 0 <= k < |reply.rows| ensures Entry(reply.description.value, reply.rows[k]) == Zip(reply.description.value, reply.rows[k]) {
      EntryPairsByPosition(reply.description.value, reply.rows[k]);
    }
  }

  // ---------------------------------------------------------------------
  // The catalog loops

  /** The requests `query` makes of each name, in order. */
  function Each(names: seq<Value>, query: Value -> Request): (qs: seq<Request>)
    ensures |qs| == |names| && forall k :: 0 <= k < |names| ==> qs[k] == query(names[k])
  {
    seq(|names|, k requires 0 <= k < |names| => query(names[k]))
  }

  lemma EachStep(names: seq<Value>, query: Value -> Request, k: nat)
    requires k < |names|
    ensures [query(names[0])] + Each(names[1..][..k], query) == Each(names[..k + 1], query)
  {
  }

  function PropertiesQuery(name: Value): Request {
    Execute(Statements.ShowCreateDatabase(Text(name)))
  }

  function DescribeQuery(table: Value): Request {
    Execute(Statements.Describe(Text(table)))
  }

  /** The properties of the `k`-th listed database: the answer to its
      query, sent after the queries for the names before it. */
  function Answers(server: Server, sent: seq<Request>, names: seq<Value>): (r: seq<Option<Properties>>)
    ensures |r| == |names|
    ensures forall k :: 0 <= k < |names| ==>
      r[k] == PropertiesOf(server(sent + Each(names[..k], PropertiesQuery), PropertiesQuery(names[k])))
  {
    seq(|names|, k requires 0 <= k < |names| =>
      PropertiesOf(server(sent + Each(names[..k], PropertiesQuery), PropertiesQuery(names[k]))))
  }

  lemma EachHead(names: seq<Value>, query: Value -> Request)
    requires names != []
    ensures Each(names, query) == [query(names[0])] + Each(names[1..], query)
  {
  }

  /** A sequence is its first element followed by the rest. */
  lemma ConsOf<T>(all: seq<T>, first: T, rest: seq<T>)
    requires |all| == |rest| + 1 && all[0] == first
    requires forall k :: 0 <= k < |rest| ==> all[k + 1] == rest[k]
    ensures all == [first] + rest
  {
    forall k | 0 <= k < |all| ensures all[k] == ([first] + rest)[k] {
      if k > 0 { assert ([first] + rest)[k] == rest[k - 1]; }
    }
  }

  /** After the first query is sent, the answers for the remaining names
      are the answers for the whole list from the second on. */
  lemma AnswersShift(server: Server, sent: seq<Request>, names: seq<Value>, k: nat)
    requires k + 1 < |names|
    ensures Answers(server, sent + [PropertiesQuery(names[0])], names[1..])[k] == Answers(server, sent, names)[k + 1]
  {
    EachStep(names, PropertiesQuery, k);
    assert sent + [PropertiesQuery(names[0])] + Each(names[1..][..k], PropertiesQuery)
        == sent + Each(names[..k + 1], PropertiesQuery);
  }

  lemma AnswersFirst(server: Server, sent: seq<Request>, names: seq<Value>)
    requires names != []
    ensures Answers(server, sent, names)[0] == PropertiesOf(server(sent, PropertiesQuery(names[0])))
  {
    assert names[..0] == [];
    assert sent + Each(names[..0], PropertiesQuery) == sent;
  }

  lemma AnswersHead(server: Server, sent: seq<Request>, names: seq<Value>)
    requires names != []
    ensures Answers(server, sent, names)
         == [PropertiesOf(server(sent, PropertiesQuery(names[0])))] + Answers(server, sent + [PropertiesQuery(names[0])], names[1..])
  {
    var rest := Answers(server, sent + [PropertiesQuery(names[0])], names[1..]);
    forall k | 0 <= k < |rest| ensures Answers(server, sent, names)[k + 1] == rest[k] {
      AnswersShift(server, sent, names, k);
    }
    AnswersFirst(server, sent, names);
    ConsOf(Answers(server, sent, names), PropertiesOf(server(sent, PropertiesQuery(names[0]))), rest);
  }

  /** One turn of the `get_database_info` loop on a live handle. */
  lemma PropertiesFromStep(target: Target, server: Server, sent: seq<Request>,
                           acc: seq<Option<Properties>>, names: seq<Value>)
    requires names != []
    ensures var q := PropertiesQuery(names[0]);
      PropertiesFrom(Open(target, server, sent), acc, names)
      == PropertiesFrom(Open(target, server, sent + [q]), acc + [PropertiesOf(server(sent, q))], names[1..])
  {
  }

  lemma {:induction false} PropertiesFromLive(target: Target, server: Server, sent: seq<Request>,
                                              acc: seq<Option<Properties>>, names: seq<Value>)
    ensures PropertiesFrom(Open(target, server, sent), acc, names).0 == acc + Answers(server, sent, names)
    ensures PropertiesFrom(Open(target, server, sent), acc, names).1 == Open(target, server, sent + Each(names, PropertiesQuery))
    decreases |names|
  {
    if names == [] {
      assert acc + [] == acc;
      assert sent + [] == sent;
    } else {
      var q := PropertiesQuery(names[0]);
      PropertiesFromLive(target, server, sent + [q], acc + [PropertiesOf(server(sent, q))], names[1..]);
      PropertiesFromLiveStep(target, server, sent, acc, names);
    }
  }

  /** The induction step of `PropertiesFromLive`. */
  lemma PropertiesFromLiveStep(target: Target, server: Server, sent: seq<Request>,
                               acc: seq<Option<Properties>>, names: seq<Value>)
    requires names != []
    requires var q := PropertiesQuery(names[0]);
      var r := PropertiesFrom(Open(target, server, sent + [q]), acc + [PropertiesOf(server(sent, q))], names[1..]);
      && r.0 == acc + [PropertiesOf(server(sent, q))] + Answers(server, sent + [q], names[1..])
      && r.1 == Open(target, server, sent + [q] + Each(names[1..], PropertiesQuery))
    ensures PropertiesFrom(Open(target, server, sent), acc, names).0 == acc + Answers(server, sent, names)
    ensures PropertiesFrom(Open(target, server, sent), acc, names).1 == Open(target, server, sent + Each(names, PropertiesQuery))
  {
    var q := PropertiesQuery(names[0]);
    var p := PropertiesOf(server(sent, q));
    var whole := PropertiesFrom(Open(target, server, sent), acc, names);
    var r := PropertiesFrom(Open(target, server, sent + [q]), acc + [p], names[1..]);
    assert whole == r by { PropertiesFromStep(target, server, sent, acc, names); }
    assert whole.0 == acc + Answers(server, sent, names) by {
      AnswersHead(server, sent, names);
      Regroup(acc, p, Answers(server, sent + [q], names[1..]));
    }
    assert whole.1 == Open(target, server, sent + Each(names, PropertiesQuery)) by {
      EachHead(names, PropertiesQuery);
      Regroup(sent, q, Each(names[1..], PropertiesQuery));
    }
  }

  lemma Regroup<T>(front: seq<T>, x: T, back: seq<T>)
    ensures front + [x] + back == front + ([x] + back)
  {
  }

  /** `get_database_info` returns exactly one entry per listed name, in
      listing order, each the properties of that name; `None` only when the
      listing fails or a listed row is empty. */
  lemma InfoOnePerName(target: Target, server: Server, sent: seq<Request>)
    ensures var reply := server(sent, Execute(Statements.ShowDatabases));
      var after := sent + [Execute(Statements.ShowDatabases)];
      var (infos, l') := InfoSpec(Open(target, server, sent));
      && (infos.None? <==> reply.Failed? || FirstColumn(reply.rows).None?)
      && (infos.None? ==> l' == Open(target, server, after))
      && (infos.Some? ==>
            var names := FirstColumn(reply.rows).value;
            && |infos.value| == |names|
            && infos.value == Answers(server, after, names)
            && l' == Open(target, server, after + Each(names, PropertiesQuery)))
  {
    var reply := server(sent, Execute(Statements.ShowDatabases));
    var after := sent + [Execute(Statements.ShowDatabases)];
    if reply.Ok? && FirstColumn(reply.rows).Some? {
      var names := FirstColumn(reply.rows).value;
      PropertiesFromLive(target, server, after, [], names);
      assert [] + Answers(server, after, names) == Answers(server, after, names);
    }
  }

  /** The reply to the `DESCRIBE` of the `k`-th table, sent after those of
      the tables before it. */
  function DescribeReply(server: Server, sent: seq<Request>, tables: seq<Value>, k: nat): Reply
    requires k < |tables|
  {
    server(sent + Each(tables[..k], DescribeQuery), DescribeQuery(tables[k]))
  }

  predicate Described(reply: Reply) {
    reply.Ok? && ColumnsOf(reply.rows).Some?
  }

  lemma DescribeReplyStep(server: Server, sent: seq<Request>, tables: seq<Value>, k: nat)
    requires k + 1 < |tables|
    ensures DescribeReply(server, sent + [DescribeQuery(tables[0])], tables[1..], k) == DescribeReply(server, sent, tables, k + 1)
  {
    EachStep(tables, DescribeQuery, k);
    assert sent + [DescribeQuery(tables[0])] + Each(tables[1..][..k], DescribeQuery)
        == sent + Each(tables[..k + 1], DescribeQuery);
  }

  /** One turn of the `list_tables_with_columns` loop on a live handle. */
  lemma DescribeFromStep(target: Target, server: Server, sent: seq<Request>,
                         acc: seq<TableInfo>, tables: seq<Value>)
    requires tables != []
    ensures var q := DescribeQuery(tables[0]);
      var reply := server(sent, q);
      && DescribeReply(server, sent, tables, 0) == reply
      && (!Described(reply) ==> DescribeFrom(Open(target, server, sent), acc, tables).0 == None)
      && (Described(reply) ==>
            DescribeFrom(Open(target, server, sent), acc, tables)
            == DescribeFrom(Open(target, server, sent + [q]), acc + [TableInfo(tables[0], ColumnsOf(reply.rows).value)], tables[1..]))
  {
    assert tables[..0] == [];
    assert sent + Each(tables[..0], DescribeQuery) == sent;
  }

  /** The loop ends with a list exactly when every `DESCRIBE` succeeds. */
  lemma {:induction false} DescribeFromSucceeds(target: Target, server: Server, sent: seq<Request>,
                                                acc: seq<TableInfo>, tables: seq<Value>)
    ensures DescribeFrom(Open(target, server, sent), acc, tables).0.Some?
        <==> forall k :: 0 <= k < |tables| ==> Described(DescribeReply(server, sent, tables, k))
    decreases |tables|
  {
    if tables != [] {
      var q := DescribeQuery(tables[0]);
      var reply := server(sent, q);
      DescribeFromStep(target, server, sent, acc, tables);
      if Described(reply) {
        var tail := tables[1..];
        DescribeFromSucceeds(target, server, sent + [q], acc + [TableInfo(tables[0], ColumnsOf(reply.rows).value)], tail);
        forall k | 0 <= k < |tail| ensures DescribeReply(server, sent + [q], tail, k) == DescribeReply(server, sent, tables, k + 1) {
          DescribeReplyStep(server, sent, tables, k);
        }
        if forall k :: 0 <= k < |tail| ==> Described(DescribeReply(server, sent + [q], tail, k)) {
          forall k | 0 <= k < |tables| ensures Described(DescribeReply(server, sent, tables, k)) {
            if k > 0 { assert Described(DescribeReply(server, sent + [q], tail, k - 1)); }
          }
        } else {
          var j :| 0 <= j < |tail| && !Described(DescribeReply(server, sent + [q], tail, j));
          assert !Described(DescribeReply(server, sent, tables, j + 1));
        }
      }
    }
  }

  /** What the loop ends with after describing `tables` on a live handle
      whose history is `sent`: the accumulated entries followed by one entry
      per table, in order, each built from that table's `DESCRIBE`, and a
      handle to which every `DESCRIBE` was sent. */
  ghost predicate Shaped(res: (Option<seq<TableInfo>>, Link), target: Target, server: Server, sent: seq<Request>,
                   acc: seq<TableInfo>, tables: seq<Value>)
  {
    && res.0.Some?
    && |res.0.value| == |acc| + |tables| && res.0.value[..|acc|] == acc
    && (forall k :: 0 <= k < |tables| ==>
          && Described(DescribeReply(server, sent, tables, k))
          && res.0.value[|acc| + k] == TableInfo(tables[k], ColumnsOf(DescribeReply(server, sent, tables, k).rows).value))
    && res.1 == Open(target, server, sent + Each(tables, DescribeQuery))
  }

  /** When the loop ends with a list, the list extends the accumulated
      entries by one entry per table, in order, and every `DESCRIBE` was
      sent. */
  lemma {:induction false} DescribeFromShape(target: Target, server: Server, sent: seq<Request>,
                                             acc: seq<TableInfo>, tables: seq<Value>)
    requires DescribeFrom(Open(target, server, sent), acc, tables).0.Some?
    ensures Shaped(DescribeFrom(Open(target, server, sent), acc, tables), target, server, sent, acc, tables)
    decreases |tables|
  {
    if tables == [] {
      assert sent + [] == sent;
    } else {
      var q := DescribeQuery(tables[0]);
      var reply := server(sent, q);
      DescribeFromStep(target, server, sent, acc, tables);
      var info := TableInfo(tables[0], ColumnsOf(reply.rows).value);
      DescribeFromShape(target, server, sent + [q], acc + [info], tables[1..]);
      ShapedCons(DescribeFrom(Open(target, server, sent), acc, tables), target, server, sent, acc, tables);
    }
  }

  /** The induction step of `DescribeFromShape`: the shape after the first
      table, with its entry accumulated, is the shape for the whole list. */
  lemma ShapedCons(res: (Option<seq<TableInfo>>, Link), target: Target, server: Server, sent: seq<Request>,
                   acc: seq<TableInfo>, tables: seq<Value>)
    requires tables != [] && Described(server(sent, DescribeQuery(tables[0])))
    requires var q := DescribeQuery(tables[0]);
      var info := TableInfo(tables[0], ColumnsOf(server(sent, q).rows).value);
      Shaped(res, target, server, sent + [q], acc + [info], tables[1..])
    ensures Shaped(res, target, server, sent, acc, tables)
  {
    var q := DescribeQuery(tables[0]);
    var r := res.0.value;
    assert r[..|acc|] == (r[..|acc| + 1])[..|acc|];
    forall k | 0 <= k < |tables|
      ensures Described(DescribeReply(server, sent, tables, k))
      ensures r[|acc| + k] == TableInfo(tables[k], ColumnsOf(DescribeReply(server, sent, tables, k).rows).value)
    {
      ShapedConsAt(res, target, server, sent, acc, tables, k);
    }
    EachHead(tables, DescribeQuery);
    Regroup(sent, q, Each(tables[1..], DescribeQuery));
  }

  /** One entry of the induction step of `DescribeFromShape`. */
  lemma ShapedConsAt(res: (Option<seq<TableInfo>>, Link), target: Target, server: Server, sent: seq<Request>,
                     acc: seq<TableInfo>, tables: seq<Value>, k: nat)
    requires k < |tables| && Described(server(sent, DescribeQuery(tables[0])))
    requires var q := DescribeQuery(tables[0]);
      var info := TableInfo(tables[0], ColumnsOf(server(sent, q).rows).value);
      Shaped(res, target, server, sent + [q], acc + [info], tables[1..])
    ensures Described(DescribeReply(server, sent, tables, k))
    ensures res.0.value[|acc| + k] == TableInfo(tables[k], ColumnsOf(DescribeReply(server, sent, tables, k).rows).value)
  {
    var q := DescribeQuery(tables[0]);
    var tail := tables[1..];
    if k == 0 {
      assert tables[..0] == [];
      assert sent + Each(tables[..0], DescribeQuery) == sent;
    } else {
      DescribeReplyStep(server, sent, tables, k - 1);
      assert res.0.value[|acc| + 1 + (k - 1)]
          == TableInfo(tail[k - 1], ColumnsOf(DescribeReply(server, sent + [q], tail, k - 1).rows).value);
    }
  }

  /** `list_tables_with_columns` returns one entry per listed table, in
      listing order, each with that table's columns in `DESCRIBE` order, as
      soon as the listing and every `DESCRIBE` succeed; any failure gives
      the empty list. */
  lemma TablesOnePerTable(target: Target, server: Server, sent: seq<Request>)
    ensures var reply := server(sent, Execute(Statements.ShowTables));
      var after := sent + [Execute(Statements.ShowTables)];
      var r := TablesSpec(Open(target, server, sent)).0;
      && (reply.Failed? || FirstColumn(reply.rows).None? ==> r == [])
      && (reply.Ok? && FirstColumn(reply.rows).Some? ==>
            var tables := FirstColumn(reply.rows).value;
            && ((exists k :: 0 <= k < |tables| && !Described(DescribeReply(server, after, tables, k))) ==> r == [])
            && ((forall k :: 0 <= k < |tables| ==> Described(DescribeReply(server, after, tables, k))) ==>
                  && |r| == |tables|
                  && forall k :: 0 <= k < |tables| ==>
                       && r[k].tableName == tables[k]
                       && Some(r[k].columns) == ColumnsOf(DescribeReply(server, after, tables, k).rows)))
  {
    var reply := server(sent, Execute(Statements.ShowTables));
    var after := sent + [Execute(Statements.ShowTables)];
    if reply.Ok? && FirstColumn(reply.rows).Some? {
      var tables := FirstColumn(reply.rows).value;
      TablesListed(target, server, sent);
      DescribeFromSucceeds(target, server, after, [], tables);
      if forall k :: 0 <= k < |tables| ==> Described(DescribeReply(server, after, tables, k)) {
        TablesAllDescribed(target, server, after, tables);
      }
    }
  }

  /** Once the listing succeeds, the result is what the loop over the
      listed tables ends with, or `[]` when it ends without a list. */
  lemma TablesListed(target: Target, server: Server, sent: seq<Request>)
    requires var reply := server(sent, Execute(Statements.ShowTables));
      reply.Ok? && FirstColumn(reply.rows).Some?
    ensures var reply := server(sent, Execute(Statements.ShowTables));
      var d := DescribeFrom(Open(target, server, sent + [Execute(Statements.ShowTables)]), [], FirstColumn(reply.rows).value).0;
      TablesSpec(Open(target, server, sent)).0 == if d.Some? then d.value else []
  {
  }

  /** When every `DESCRIBE` succeeds, the loop's list has one entry per
      table, in order, each with that table's descriptors. */
  lemma TablesAllDescribed(target: Target, server: Server, after: seq<Request>, tables: seq<Value>)
    requires forall k :: 0 <= k < |tables| ==> Described(DescribeReply(server, after, tables, k))
    ensures var d := DescribeFrom(Open(target, server, after), [], tables).0;
      && d.Some? && |d.value| == |tables|
      && forall k :: 0 <= k < |tables| ==>
           && Described(DescribeReply(server, after, tables, k))
           && d.value[k].tableName == tables[k]
           && Some(d.value[k].columns) == ColumnsOf(DescribeReply(server, after, tables, k).rows)
  {
    DescribeFromSucceeds(target, server, after, [], tables);
    DescribeFromShape(target, server, after, [], tables);
    var d := DescribeFrom(Open(target, server, after), [], tables).0.value;
    forall k | 0 <= k < |tables|
      ensures d[k].tableName == tables[k]
      ensures Some(d[k].columns) == ColumnsOf(DescribeReply(server, after, tables, k).rows)
    {
      assert d[0 + k] == d[k];
    }
  }

  /** In what `list_tables_with_columns` returns, every column's `nullable`
      is "YES" or "NO", and it is "YES" exactly when the third cell of that
      column's `DESCRIBE` row is the text YES. */
  lemma TablesNullable(target: Target, server: Server, sent: seq<Request>)
    ensures var reply := server(sent, Execute(Statements.ShowTables));
      var after := sent + [Execute(Statements.ShowTables)];
      var r := TablesSpec(Open(target, server, sent)).0;
      && (forall k, c :: 0 <= k < |r| && 0 <= c < |r[k].columns| ==>
            r[k].columns[c].nullable == "YES" || r[k].columns[c].nullable == "NO")
      && (r != [] ==>
            && reply.Ok? && FirstColumn(reply.rows).Some?
            && var tables := FirstColumn(reply.rows).value;
            && |r| == |tables|
            && forall k, c :: 0 <= k < |r| && 0 <= c < |r[k].columns| ==>
                 && Described(DescribeReply(server, after, tables, k))
                 && var rows := DescribeReply(server, after, tables, k).rows;
                    && c < |rows| && |rows[c]| >= 6
                    && (r[k].columns[c].nullable == "YES" <==> rows[c][2] == Str("YES")))
  {
    var reply := server(sent, Execute(Statements.ShowTables));
    var after := sent + [Execute(Statements.ShowTables)];
    var r := TablesSpec(Open(target, server, sent)).0;
    TablesOnePerTable(target, server, sent);
    if r != [] {
      var tables := FirstColumn(reply.rows).value;
      assert forall k :: 0 <= k < |tables| ==> Described(DescribeReply(server, after, tables, k));
      forall k, c | 0 <= k < |r| && 0 <= c < |r[k].columns|
        ensures Described(DescribeReply(server, after, tables, k))
        ensures var rows := DescribeReply(server, after, tables, k).rows;
          && c < |rows| && |rows[c]| >= 6
          && r[k].columns[c] == ColumnOf(rows[c])
      {
        var rows := DescribeReply(server, after, tables, k).rows;
        assert Some(r[k].columns) == ColumnsOf(rows);
      }
    }
  }
}
