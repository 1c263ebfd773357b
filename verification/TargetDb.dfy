/** The target database: tables, statements as the server runs them, and connections. */
module TargetDb {
  import opened Common
  import opened SqlAnalyzer

  type Cells = seq<string>

  /**
   * A table's definition: its columns, which row sets its constraints allow, and
   * what the server stores when rows are inserted under a different column list.
   */
  datatype Structure = Structure(
    columns: seq<string>,
    accepts: multiset<Cells> -> bool,
    coerce: (seq<string>, multiset<Cells>) -> Option<multiset<Cells>>)

  datatype Table = Table(structure: Structure, rows: multiset<Cells>)

  type Db = map<string, Table>

  ghost predicate WellFormed(db: Db) {
    forall t :: t in db ==> db[t].structure.accepts(db[t].rows)
  }

  /** Rows a data statement leaves in its table, and the count it reports. */
  datatype Written = Written(rows: multiset<Cells>, affected: nat)

  /** The same for a statement that writes several tables, such as an UPDATE of a join. */
  datatype WrittenTables = WrittenTables(rows: map<string, multiset<Cells>>, affected: nat)

  datatype TxOp = BeginTx | CommitTx | RollbackTx

  /** What a statement does when run; any `None` is a statement error. */
  datatype Effect =
    | ReadOnly(ok: Db -> bool)
    | WriteRows(table: string, run: Db -> Option<Written>)
    | WriteTables(tables: set<string>, runAll: Db -> Option<WrittenTables>)
    | EmptyTable(table: string)
    | CreateNew(table: string, ifNotExists: bool, created: Table)
    | AnyDdl(ddl: Db -> Option<Db>)
    | TxControl(op: TxOp)

  /** What the analyzer says about a statement it cut out, and what running that text does. */
  datatype Stmt = Stmt(info: AnalyzedStatement, effect: Effect)

  /** Removing rows never violates a table's constraints. */
  predicate MayHold(t: Table, rows: multiset<Cells>) { rows <= t.rows || t.structure.accepts(rows) }

  predicate AllMayHold(db: Db, rows: map<string, multiset<Cells>>)
    requires rows.Keys <= db.Keys
  {
    forall t :: t in rows ==> MayHold(db[t], rows[t])
  }

  function Replaced(db: Db, rows: map<string, multiset<Cells>>): Db {
    map t | t in db :: if t in rows then Table(db[t].structure, rows[t]) else db[t]
  }

  datatype Executed = Executed(db: Db, affected: nat)

  /** One statement against one state. An erroneous statement has no effect. */
  function Exec(e: Effect, db: Db): Option<Executed> {
    match e
    case ReadOnly(ok) => if ok(db) then Some(Executed(db, 0)) else None
    case WriteRows(t, run) =>
      if t !in db then None
      else
        var w := run(db);
        if w.None? || !MayHold(db[t], w.value.rows) then None
        else Some(Executed(db[t := Table(db[t].structure, w.value.rows)], w.value.affected))
    case WriteTables(ts, runAll) =>
      var w := runAll(db);
      if w.None? || !(w.value.rows.Keys <= ts <= db.Keys) || !AllMayHold(db, w.value.rows) then None
      else Some(Executed(Replaced(db, w.value.rows), w.value.affected))
    case EmptyTable(t) =>
      if t !in db then None else Some(Executed(db[t := Table(db[t].structure, multiset{})], 0))
    case CreateNew(t, ifNotExists, created) =>
      if t !in db then Some(Executed(db[t := created], 0))
      else if ifNotExists then Some(Executed(db, 0))
      else None
    case AnyDdl(ddl) =>
      var r := ddl(db);
      if r.None? then None else Some(Executed(r.value, 0))
    case TxControl(_) => Some(Executed(db, 0))
  }

  /** DDL commits whatever transaction is open before it runs. */
  predicate CommitsImplicitly(e: Effect) {
    e.EmptyTable? || e.CreateNew? || e.AnyDdl?
  }

  /** Leaves transactions alone: neither commits one implicitly nor begins or ends one. */
  predicate StaysInTransaction(e: Effect) { !CommitsImplicitly(e) && !e.TxControl? }

  /** What one connection sees: the committed state, and its own open transaction if any. */
  datatype Conn = Conn(committed: Db, working: Option<Db>)

  function View(c: Conn): Db { if c.working.Some? then c.working.value else c.committed }

  function Begin(c: Conn): Conn { Conn(View(c), Some(View(c))) }
  function CommitConn(c: Conn): Conn { Conn(View(c), None) }
  function RollbackConn(c: Conn): Conn { Conn(c.committed, None) }

  /** Writes go to the open transaction, or straight to the committed state. */
  function Store(c: Conn, db: Db): Conn {
    if c.working.Some? then Conn(c.committed, Some(db)) else Conn(db, None)
  }

  datatype Answer = Answer(conn: Conn, affected: Option<nat>)

  function QueryConn(c: Conn, e: Effect): Answer {
    match e
    case TxControl(BeginTx) => Answer(Begin(c), Some(0))
    case TxControl(CommitTx) => Answer(CommitConn(c), Some(0))
    case TxControl(RollbackTx) => Answer(RollbackConn(c), Some(0))
    case _ =>
      var c1 := if CommitsImplicitly(e) then CommitConn(c) else c;
      var x := Exec(e, View(c1));
      if x.None? then Answer(c1, None)
      else Answer(Store(c1, x.value.db), Some(x.value.affected))
  }

  /**
   * What is left of an open transaction if it is rolled back after one more statement: nothing
   * after a statement that only reads or changes rows, all of it after BEGIN, COMMIT and any
   * DDL, which is kept itself if it ran.
   */
  lemma {:induction false} KeptByRollback(c: Conn, e: Effect)
    requires c.working.Some?
    ensures var left := RollbackConn(QueryConn(c, e).conn).committed;
      match e
      case ReadOnly(_) => left == c.committed
      case WriteRows(_, _) => left == c.committed
      case WriteTables(_, _) => left == c.committed
      case TxControl(op) => left == if op == RollbackTx then c.committed else c.working.value
      case EmptyTable(t) =>
        left == if t in c.working.value
                then c.working.value[t := Table(c.working.value[t].structure, multiset{})] else c.working.value
      case CreateNew(t, _, created) =>
        left == if t in c.working.value then c.working.value else c.working.value[t := created]
      case AnyDdl(ddl) => left == if ddl(c.working.value).Some? then ddl(c.working.value).value else c.working.value
  {
  }

  /** What is counted: rows that data statements change, and nothing for any other statement that runs. */
  lemma {:induction false} CountedRows(c: Conn, e: Effect)
    ensures var r, db := QueryConn(c, e).affected, View(c);
      match e
      case WriteRows(t, run) => r.Some? ==> run(db).Some? && r.value == run(db).value.affected
      case WriteTables(_, run) => r.Some? ==> run(db).Some? && r.value == run(db).value.affected
      case CreateNew(t, ifNotExists, _) => r == if t in db && !ifNotExists then None else Some(0)
      case _ => r.Some? ==> r.value == 0
  {
  }

  /** The answer to a statement and the ones after it: the counts add up unless one fails. */
  function Combine(affected: nat, rest: Answer): Answer {
    if rest.affected.None? then rest else Answer(rest.conn, Some(affected + rest.affected.value))
  }

  /** A multi-statement query: stops at the first error, keeps what ran before it. */
  function QueryAll(c: Conn, effects: seq<Effect>): Answer
    decreases |effects|
  {
    if effects == [] then Answer(c, Some(0))
    else
      var a := QueryConn(c, effects[0]);
      if a.affected.None? then a else Combine(a.affected.value, QueryAll(a.conn, effects[1..]))
  }

  class Server {
    var committed: Db
    constructor (db: Db)
      ensures committed == db
    {
      committed := db;
    }
  }

  class Connection {
    const server: Server
    var working: Option<Db>

    function State(): Conn
      reads this, server
    {
      Conn(server.committed, working)
    }

    constructor (server: Server)
      ensures this.server == server && State() == Conn(server.committed, None)
    {
      this.server := server;
      working := None;
    }

    method BeginTransaction()
      modifies this, server
      ensures State() == Begin(old(State()))
    {
      if working.Some? {
        server.committed := working.value;
      }
      working := Some(server.committed);
    }

    method Commit()
      modifies this, server
      ensures State() == CommitConn(old(State()))
    {
      if working.Some? {
        server.committed := working.value;
      }
      working := None;
    }

    method Rollback()
      modifies this
      ensures State() == RollbackConn(old(State()))
    {
      working := None;
    }

    /** Runs one statement; `None` is a statement error. */
    method Query(e: Effect) returns (affected: Option<nat>)
      modifies this, server
      ensures var a := QueryConn(old(State()), e); State() == a.conn && affected == a.affected
    {
      if e == TxControl(BeginTx) {
        BeginTransaction();
        return Some(0);
      }
      if e == TxControl(CommitTx) {
        Commit();
        return Some(0);
      }
      if e == TxControl(RollbackTx) {
        Rollback();
        return Some(0);
      }
      if CommitsImplicitly(e) {
        Commit();
      }
      var x := Exec(e, if working.Some? then working.value else server.committed);
      if x.None? {
        return None;
      }
      if working.Some? {
        working := Some(x.value.db);
      } else {
        server.committed := x.value.db;
      }
      affected := Some(x.value.affected);
    }

    /** The driver's multi-statement query, with the affected counts of all results summed. */
    method RunSqlFile(effects: seq<Effect>) returns (affected: Option<nat>)
      modifies this, server
      ensures var a := QueryAll(old(State()), effects); State() == a.conn && affected == a.affected
    {
      var sum: nat := 0;
      for i := 0 to |effects|
        invariant var a := QueryAll(State(), effects[i..]);
          QueryAll(old(State()), effects)
          == Answer(a.conn, if a.affected.None? then None else Some(sum + a.affected.value))
      {
        var r := Query(effects[i]);
        if r.None? {
          return None;
        }
        assert effects[i..][1..] == effects[i + 1..];
        sum := sum + r.value;
      }
      affected := Some(sum);
    }
  }
}
