/** The database driver (pymysql) as the storage layer sees it: a handle
    that is open or closed, sends statements and commits, and gets back
    either a result or a failure.  What the server answers is an oracle,
    `Server`, that may depend on everything sent earlier over the handle. */
module Driver {
  import opened Py

  /** A cell of a result row, or a value spliced into a statement. */
  datatype Value = Null | Int(i: int) | Str(s: string)

  /** Python's `str(v)`, which is what an f-string splices in for `{v}`. */
  function Text(v: Value): string {
    match v
    case Null => "None"
    case Int(i) => IntText(i)
    case Str(s) => s
  }

  type Row = seq<Value>

  /** What goes over the wire: `cursor.execute(sql)` or `connection.commit()`. */
  datatype Request = Execute(sql: string) | Commit

  /** The driver's answer.  `Ok` carries the fetched rows, the column names
      of `cursor.description` (absent for statements that return no result
      set) and `cursor.lastrowid` (an unsigned insert id in MySQL).
      `Failed` stands for every exception the driver can raise. */
  datatype Reply =
    | Ok(rows: seq<Row>, description: Option<seq<string>>, lastRowId: nat)
    | Failed

  /** The server's answer to a request, given everything the handle sent before it. */
  type Server = (seq<Request>, Request) -> Reply

  /** The arguments of `pymysql.connect`; `database` is absent when only the host is wanted. */
  datatype Target = Target(host: string, user: string, password: string, database: Option<string>, port: int)

  /** `pymysql.connect`: a live link to a server, or `None` when connecting raises. */
  type Dial = Target -> Option<Server>

  /** The state of a session's connection field as a value: no handle at all
      (`None` in the source), or a handle with the arguments it was opened
      with, its server, its `open` flag and the requests it has delivered. */
  datatype Link = Absent | Handle(target: Target, server: Server, open: bool, sent: seq<Request>)

  /** One request on a link.  Without a handle, or on a closed one, the
      driver raises before anything reaches the server. */
  function Deliver(l: Link, req: Request): (Reply, Link) {
    match l
    case Absent => (Failed, l)
    case Handle(_, server, open, sent) =>
      if open then (server(sent, req), l.(sent := sent + [req])) else (Failed, l)
  }

  /** A pymysql connection object. */
  class Connection {
    const target: Target
    const server: Server
    var open: bool
    var sent: seq<Request>

    constructor (target: Target, server: Server)
      ensures this.target == target && this.server == server
      ensures open && sent == []
    {
      this.target := target;
      this.server := server;
      open := true;
      sent := [];
    }

    function AsLink(): Link
      reads this
    {
      Handle(target, server, open, sent)
    }

    /** `cursor.execute(sql)` or `commit()`: delivered and answered only while open. */
    method Send(req: Request) returns (reply: Reply)
      modifies this
      ensures (reply, AsLink()) == Deliver(old(AsLink()), req)
    {
      if open {
        reply := server(sent, req);
        sent := sent + [req];
      } else {
        reply := Failed;
      }
    }

    /** `close()`.  pymysql raises on a handle that is already closed; the
        only caller checks `open` first. */
    method Close()
      requires open
      modifies this
      ensures !open && sent == old(sent)
    {
      open := false;
    }
  }
}
