# AWSMySQLLib: a verified model of the storage layer's MySQL session

`storageservice/awsmysqllib.py` defines `AWSMySQLLib`, the object through
which the storage service talks to a MySQL server on AWS RDS. The object
holds one connection field. It connects either to the host or to the
configured database, and it closes the connection. It lists databases and
tables, reads the properties of a database back out of its `SHOW CREATE
DATABASE` text, creates and drops databases and tables, and inserts,
updates, deletes and lists records. Every operation catches every failure
and returns a fixed sentinel instead: `False`, `-1`, `None`, `[]` or `{}`.

The model has seven modules:

- `Py` (py.dfy): the Python built-ins these operations use, with Python's semantics.
  - `str.find` returns -1 when the text is absent.
  - Slices clamp their bounds, and a start past the end gives `""`.
  - `str.strip()` removes the characters `isspace` accepts.
  - `sep.join`, and `str(n)` for an int.
- `Driver` (driver.dfy): pymysql as an oracle.
  - The server's answer (`Server`) is a function of everything sent earlier over the handle.
  - A connection is a class with an `open` flag and the history of the requests it has sent.
  - `Link` is the connection field seen as a value.
- `Statements` (statements.dfy): the SQL text each operation builds. Values are spliced in unescaped, exactly as the source does.
- `DdlParser` (ddl_parser.dfy): the owner and collation parse of `get_database_properties`.
- `Shapes` (shapes.dfy): how results are reshaped.
  - the first column of a listing;
  - the six-field descriptor of a `DESCRIBE` row;
  - the dict `dict(zip(columns, row))`, as an insertion-ordered sequence of pairs.
- `AwsMySqlLib` (awsmysqllib.dfy): the class `AWSMySQLLib` with its `connection` field. Each method is proved equal to a pure specification function of the link before the call, which gives the result and the link after it.
- `SessionProperties` (session_properties.dfy): what those specifications promise.
  - the sentinels;
  - the connection states;
  - what each operation sends and returns on a live handle;
  - one entry per listed database or table, in listing order.

The driver, the server and `pymysql.connect` are parameters (`Server`,
`Dial`). The server may answer any request with any reply, but a failed
request always leaves the handle open: a connection that the driver drops
in the middle of a request is not modelled (see "Left out").

What the code does, in four points that are easy to get wrong:

- **Closed is not terminal.** A closed session connects again like any other (`ReconnectAfterClose`). The field is never reset to `None`.
- **No "not connected" error.** Queries are sent in whichever state the session is in, including while connected only to the host. Without a live handle every operation returns its sentinel (`NoLiveHandleSentinels`).
- **No parameter binding.** Values become raw text inside single quotes, and a quote inside a value breaks the value list apart (`QuoteInValueSplitsList`). Identifiers are not checked against an allow-list.
- **The "owner" field holds the database's own quoted name,** not an owner. On the form MySQL 8 reports, it also keeps the opening of the version comment, and the collation field keeps the comment's closing and, from MySQL 8.0.16 on, the encryption comment that follows it (`ParseVersionedCreateStatement`, `ParseEncryptedCreateStatement`).

## Model

| member | source | states |
|---|---|---|
| Py.Find | storageservice/awsmysqllib.py:129-135 | `find` is -1 exactly when the text does not occur; otherwise it is the first index where it occurs |
| Py.Slice | storageservice/awsmysqllib.py:133 | Python slicing on non-negative bounds: the infix between them, an end past the text clamped to it, and the empty text when the bounds cross or the start is at or past the end |
| Py.SliceFromEnd | storageservice/awsmysqllib.py:133 | a negative bound counts from the end of the text, and one reaching past the front is the front |
| Py.StripCharacterised | storageservice/awsmysqllib.py:133 | `strip()` gives `r` exactly when `r` is the infix left after cutting whitespace from both ends, with no whitespace at either end of `r` |
| Py.StripIdempotent | storageservice/awsmysqllib.py:137-138 | stripping twice gives the same text as stripping once |
| Py.IntTextRoundTrip | storageservice/awsmysqllib.py:353 | the decimal text an f-string gives for an int reads back as that int, negatives included |
| Driver.Connection.Send | storageservice/awsmysqllib.py:104-106 | while open, a request reaches the server and is appended to the handle's history; on a closed handle it fails and changes nothing |
| Driver.Connection.Close | storageservice/awsmysqllib.py:386 | closing clears `open` and keeps the history |
| Statements.ShowCreateDatabaseReadsBack | storageservice/awsmysqllib.py:122 | the database name reads back from between ``SHOW CREATE DATABASE ` `` and the closing backtick |
| Statements.ShowDatabasesLikeReadsBack | storageservice/awsmysqllib.py:149 | the name reads back from between `SHOW DATABASES LIKE '` and the closing quote |
| Statements.CreateDatabaseReadsBack | storageservice/awsmysqllib.py:164 | the name reads back from between ``CREATE DATABASE ` `` and the closing backtick |
| Statements.DropDatabaseReadsBack | storageservice/awsmysqllib.py:177 | the name reads back from between ``DROP DATABASE ` `` and the closing backtick |
| Statements.CreateTableReadsBack | storageservice/awsmysqllib.py:199-201 | the column list, `", "`-joined `name type` items, reads back from between `CREATE TABLE t (` and the closing parenthesis |
| Statements.DescribeReadsBack | storageservice/awsmysqllib.py:228 | the table name reads back from after `DESCRIBE ` |
| Statements.DropTableIfExistsReadsBack | storageservice/awsmysqllib.py:270 | the table name reads back from after `DROP TABLE IF EXISTS ` |
| Statements.SelectAllReadsBack | storageservice/awsmysqllib.py:291 | the table name reads back from after `SELECT * FROM ` |
| Statements.InsertReadsBack | storageservice/awsmysqllib.py:324-326 | the column list reads back from between `INSERT INTO t (` and `) VALUES (`, and the value list from between that and the closing parenthesis |
| Statements.UpdateReadsBack | storageservice/awsmysqllib.py:351-353 | the assignment list reads back from between `UPDATE t SET ` and ` WHERE id = ` followed by the id's text |
| Statements.DeleteReadsBack | storageservice/awsmysqllib.py:375 | the id's decimal text reads back from after `DELETE FROM t WHERE id = ` |
| Statements.CreateTableItems | storageservice/awsmysqllib.py:199-201 | for a non-empty column map whose names and types hold no comma, the column list of `CREATE TABLE` splits back at `", "` into exactly one `name type` item per entry, in map order |
| Statements.InsertListsAlign | storageservice/awsmysqllib.py:324-326 | for a non-empty record without commas, the column list and the value list of `INSERT` have as many items as the record has keys, item k being key k and the quoted value k |
| Statements.UpdateAssignments | storageservice/awsmysqllib.py:351-353 | for a non-empty record without commas, the SET clause splits back into exactly one `key = 'value'` item per key, in key order |
| Statements.WhereClauseNamesId | storageservice/awsmysqllib.py:353-375 | `UPDATE … SET …` and `DELETE FROM t` both end in ` WHERE id = ` followed by text that reads back as the record id |
| Statements.QuoteInValueSplitsList | storageservice/awsmysqllib.py:325 | nothing is escaped: a value `a', 'b` yields two items in the value list |
| DdlParser.OwnerField | storageservice/awsmysqllib.py:129-133 | the owner is the strip of the text from just after the first `CREATE DATABASE` (index 14 when it is missing) to the first `CHARACTER SET` (or the end); it is empty when the bounds cross |
| DdlParser.CollationField | storageservice/awsmysqllib.py:134-138 | the collation is empty without `COLLATE`, and otherwise the strip of the rest of the text after the first `COLLATE` |
| DdlParser.ParseFields | storageservice/awsmysqllib.py:128-140 | for a text of the form CREATE DATABASE o CHARACTER SET c COLLATE t, where neither clause keyword starts before its own place, the fields are strip(o) and strip(t) |
| DdlParser.ParseCreateStatement | storageservice/awsmysqllib.py:128-140 | `CREATE DATABASE `n` CHARACTER SET cs COLLATE co` parses to owner `` `n` `` and collation `co` |
| DdlParser.ClausesInPlaceWithoutC | storageservice/awsmysqllib.py:129-135 | a name and a character set without an upper-case C cannot hide a clause keyword |
| DdlParser.ParseExample | storageservice/awsmysqllib.py:128-140 | `CREATE DATABASE `d` CHARACTER SET utf8 COLLATE utf8_general_ci` parses to owner `` `d` `` and collation `utf8_general_ci` |
| DdlParser.ParseVersionedCreateStatement | storageservice/awsmysqllib.py:128-140 | on the MySQL 8 form with its `/*!40100 DEFAULT … */` comment and any trailer after it, the owner is the quoted name plus ` /*!40100 DEFAULT` and the collation runs on through ` */` and the trailer |
| DdlParser.ParseEncryptedCreateStatement | storageservice/awsmysqllib.py:134-138 | from MySQL 8.0.16 on, the collation field also holds ` /*!80016 DEFAULT ENCRYPTION='N' */` |
| Shapes.DescribeColumns | storageservice/awsmysqllib.py:231-241 | the appending loop over the `DESCRIBE` rows computes `ColumnsOf` |
| Shapes.Put | storageservice/awsmysqllib.py:297 | `d[k] = v` keeps every existing key in place and adds at most one key |
| Shapes.PutLookup | storageservice/awsmysqllib.py:297 | after `d[k] = v`, looking up k gives v and looking up any other key gives what it gave before |
| Shapes.DictOfLookup | storageservice/awsmysqllib.py:297 | `dict(pairs)` maps each key to the value of the last pair holding it, and holds no key that no pair holds |
| Shapes.DictOfDistinctKeys | storageservice/awsmysqllib.py:297 | `dict(pairs)` never holds a key twice |
| Shapes.EntryPairsByPosition | storageservice/awsmysqllib.py:297 | with distinct column names, `dict(zip(names, row))` is exactly the positional pairs, in column order |
| Shapes.ZipRows | storageservice/awsmysqllib.py:295-298 | the appending loop yields one record per row, in row order, record k built from row k |
| AwsMySqlLib.AWSMySQLLib.constructor | storageservice/awsmysqllib.py:11-17 | stores the five settings and starts with no connection |
| AwsMySqlLib.AWSMySQLLib.Connect | storageservice/awsmysqllib.py:60-75 | when the driver connects, the field holds a fresh open handle and the result is true; when it raises, the field is untouched and the result is false; an old handle is dropped without being closed |
| AwsMySqlLib.AWSMySQLLib.ConnectToRdsHost | storageservice/awsmysqllib.py:55-75 | `Connect` with the host, user, password and port, and no database |
| AwsMySqlLib.AWSMySQLLib.ConnectToDatabase | storageservice/awsmysqllib.py:77-98 | `Connect` with the configured database as well |
| AwsMySqlLib.AWSMySQLLib.Run | storageservice/awsmysqllib.py:104-105 | one request over the field: it fails when there is no handle, and otherwise it is the handle's `Send` |
| AwsMySqlLib.AWSMySQLLib.GetDatabaseProperties | storageservice/awsmysqllib.py:117-143 | result and new link are `PropertiesSpec` of the old link |
| AwsMySqlLib.AWSMySQLLib.GetDatabaseInfo | storageservice/awsmysqllib.py:100-115 | result and new link are `InfoSpec` of the old link |
| AwsMySqlLib.AWSMySQLLib.PropertiesOfEach | storageservice/awsmysqllib.py:108-111 | the appending loop computes `PropertiesFrom` from the empty list |
| AwsMySqlLib.AWSMySQLLib.CheckDatabaseExists | storageservice/awsmysqllib.py:145-158 | result and new link are `ExistsSpec` of the old link |
| AwsMySqlLib.AWSMySQLLib.CreateDatabase | storageservice/awsmysqllib.py:160-171 | sends `CREATE DATABASE` with the backticked name and no commit; true exactly when it goes through |
| AwsMySqlLib.AWSMySQLLib.RemoveDatabase | storageservice/awsmysqllib.py:173-184 | sends `DROP DATABASE` with the backticked name and no commit; true exactly when it goes through |
| AwsMySqlLib.AWSMySQLLib.ExecuteAndCommit | storageservice/awsmysqllib.py:197-208 | a statement, then a commit when it went through; true exactly when both do |
| AwsMySqlLib.AWSMySQLLib.CreateTable | storageservice/awsmysqllib.py:186-208 | `ExecuteCommitSpec` of the `CREATE TABLE` text |
| AwsMySqlLib.AWSMySQLLib.ListTablesWithColumns | storageservice/awsmysqllib.py:210-256 | result and new link are `TablesSpec` of the old link |
| AwsMySqlLib.AWSMySQLLib.DescribeEach | storageservice/awsmysqllib.py:224-243 | the loop over the tables computes `DescribeFrom` from the empty list |
| AwsMySqlLib.AWSMySQLLib.DeleteTable | storageservice/awsmysqllib.py:258-277 | `ExecuteCommitSpec` of `DROP TABLE IF EXISTS t` |
| AwsMySqlLib.AWSMySQLLib.ListEntriesInTable | storageservice/awsmysqllib.py:279-309 | result and new link are `EntriesSpec` of the old link |
| AwsMySqlLib.AWSMySQLLib.InsertRecord | storageservice/awsmysqllib.py:311-335 | result and new link are `InsertSpec` of the old link |
| AwsMySqlLib.AWSMySQLLib.UpdateRecord | storageservice/awsmysqllib.py:337-360 | `ExecuteCommitSpec` of the `UPDATE` text |
| AwsMySqlLib.AWSMySQLLib.DeleteRecord | storageservice/awsmysqllib.py:362-382 | `ExecuteCommitSpec` of the `DELETE` text |
| AwsMySqlLib.AWSMySQLLib.CloseConnection | storageservice/awsmysqllib.py:384-390 | closes and returns true exactly when a handle exists and is open, and otherwise returns false and changes nothing |
| SessionProperties.NoLiveHandleSentinels | storageservice/awsmysqllib.py:17 | with no handle or a closed one, every operation returns its sentinel (`{}`, `None`, `False`, `[]`, `-1`) and sends nothing |
| SessionProperties.ConnectTransitions | storageservice/awsmysqllib.py:60-98 | connecting succeeds exactly when the driver connects; failure keeps the link; success gives an open handle with an empty history in the state its target asks for |
| SessionProperties.CloseTransitions | storageservice/awsmysqllib.py:384-390 | closing succeeds exactly on a live handle and leaves it closed with its history; an immediate second close returns false |
| SessionProperties.ReconnectAfterClose | storageservice/awsmysqllib.py:384-390 | after a close the session is in no connected state, and a connect that the driver accepts makes it live again |
| SessionProperties.PropertiesOnLive | storageservice/awsmysqllib.py:117-143 | on a live handle it sends one `SHOW CREATE DATABASE`, and the dict is the parse of the first row's second column exactly when those exist |
| SessionProperties.ExistsOnLive | storageservice/awsmysqllib.py:145-158 | true exactly when the `LIKE` listing succeeds with at least one row |
| SessionProperties.ExecuteCommitOnLive | storageservice/awsmysqllib.py:197-208 | true exactly when both the statement and the commit succeed; the commit is sent only after a successful statement |
| SessionProperties.InsertOnLive | storageservice/awsmysqllib.py:322-335 | -1 exactly when the insert or its commit fails; otherwise the driver's insert id, which is never negative |
| SessionProperties.EntriesOnLive | storageservice/awsmysqllib.py:289-309 | `None` exactly when the query fails or has no result description; otherwise one record per row, in row order, so an empty table gives `[]` and not `None` |
| SessionProperties.EntriesPairByPosition | storageservice/awsmysqllib.py:293-298 | with distinct column names, each record is its row's cells paired with the names by position |
| SessionProperties.PropertiesFromLive | storageservice/awsmysqllib.py:108-111 | on a live handle the loop sends one `SHOW CREATE DATABASE` per name, in order, and entry k answers the k-th query |
| SessionProperties.InfoOnePerName | storageservice/awsmysqllib.py:100-115 | `None` exactly when the listing fails or a listed row is empty; otherwise exactly one entry per listed name, in listing order, each the properties of that name |
| SessionProperties.DescribeFromSucceeds | storageservice/awsmysqllib.py:224-243 | the loop ends with a list exactly when every `DESCRIBE` succeeds with rows of six cells |
| SessionProperties.DescribeFromShape | storageservice/awsmysqllib.py:224-243 | it then extends what was accumulated by one entry per table, in order, each holding that table's descriptors, and every `DESCRIBE` has been sent |
| SessionProperties.TablesAllDescribed | storageservice/awsmysqllib.py:224-243 | when every `DESCRIBE` succeeds, the loop ends with one entry per table, in listing order, each holding that table's name and descriptors |
| SessionProperties.TablesOnePerTable | storageservice/awsmysqllib.py:210-256 | `[]` when the listing or any `DESCRIBE` fails; otherwise one entry per listed table, in listing order, with its columns in `DESCRIBE` order |
| SessionProperties.TablesNullable | storageservice/awsmysqllib.py:231-241 | in what `list_tables_with_columns` returns every `nullable` is "YES" or "NO", and "YES" exactly when the third cell of that column's `DESCRIBE` row is the text YES |

## Left out

- Logging: the process-wide logging configuration and every logger call (storageservice/awsmysqllib.py:7, 18-21 and every line that logs). They have no effect on results.
- `init_from_file` (storageservice/awsmysqllib.py:24-38): it reads a configuration file, which is file I/O.
- `test_can_reach_host` (storageservice/awsmysqllib.py:40-53): it opens a raw socket with a timeout, which is network I/O.
- pymysql internals: authentication, the wire protocol, how `commit` and `lastrowid` are produced, and what the server answers. All of this is the `Server` oracle and the `Dial` parameter.
- Server-side semantics, such as `LIKE` matching or a create followed by an exists. They belong to the database, not to this code.
- The `__main__` block (storageservice/awsmysqllib.py:393-395), and the integration tests, which run against a live server.
- Float, bytes and date values: cells and spliced values are `None`, ints or text. Python's `str` of a float is not modelled.
- Closing cursors at the end of each `with` block: it sends nothing and changes no state the model observes.
- AwsMySqlLib.AWSMySQLLib.Connect: a `get_server_info` failure right after a successful connect is not modelled. In the source that path returns False with the field already replaced. Here the server-info query is taken never to fail, because it is internal to the driver.
- Driver.Connection.Close: requires the handle to be open. pymysql raises on a second close, and the only caller checks `open` first.
- Driver.Connection.Send: a failed request never closes the handle. pymysql marks a connection closed when it drops in the middle of a request, after which `close_connection` returns False and later queries fail without reaching the server; here the handle stays open and later requests still reach the server oracle.
- Py.IntText: renders an int of any size. Python 3.11 and later refuse to turn an int of more than 4300 digits into text, so `insert_record`, `update_record` and `delete_record` would return -1 or False there, without sending anything, once such an int is spliced in.
- AwsMySqlLib.InsertSpec: the insert id is a natural number, as MySQL's unsigned `LAST_INSERT_ID` is. A negative id, which would collide with the -1 sentinel, cannot arise.
