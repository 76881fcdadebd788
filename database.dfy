/**
 * The interface abstraction of abstraction.cpp: `DatabaseConnection` with its template method
 * `executeTransaction`, and the two implementations `PostgreSQLConnection` and
 * `MySQLConnection`.
 *
 * The console output of the implementations is modelled as a log of events on the connection.
 * `Transaction` is the template method over any implementation of the interface; the
 * `Connection` class is the two concrete implementations, told apart by their `vendor`.
 */
module Database {

  datatype Vendor = PostgreSQL | MySQL

  /** The statement `beginTransaction` prints. */
  function BeginStatement(v: Vendor): string
  {
    match v
    case PostgreSQL => "BEGIN TRANSACTION"
    case MySQL => "START TRANSACTION"
  }

  /** The error `execute` records on a closed connection. */
  const NOT_CONNECTED: string := "Not connected to database"

  /**
   * What a connection prints, one event per line of output. The vendor's name that starts each
   * line is left out: a log belongs to one connection, whose vendor is known.
   */
  datatype Event =
    | Connecting(connectionString: string)
    | Disconnecting
    | Executing(query: string)
    | Begin(statement: string)
    | Commit
    | Rollback

  /** The events of executing each query in turn. */
  function Executions(queries: seq<string>): (es: seq<Event>)
    ensures |es| == |queries|
    ensures forall i :: 0 <= i < |queries| ==> es[i] == Executing(queries[i])
  {
    seq(|queries|, i requires 0 <= i < |queries| => Executing(queries[i]))
  }

  lemma ExecutionsSnoc(queries: seq<string>, i: nat)
    requires i < |queries|
    ensures Executions(queries[..i + 1]) == Executions(queries[..i]) + [Executing(queries[i])]
  {
  }

  // ----- The template method -----

  /**
   * `DatabaseConnection::executeTransaction` over any implementation: `succeeds[i]` is what
   * `execute(queries[i])` returns and `committed` what `commit()` returns. Gives the calls made
   * on the connection, in order, and the result.
   */
  function Transaction(vendor: Vendor, connected: bool, queries: seq<string>, succeeds: seq<bool>, committed: bool): (r: (seq<Event>, bool))
    requires |succeeds| == |queries|
    ensures !connected ==> r.0 == [] && !r.1
    ensures connected ==> |r.0| >= 2 && r.0[0] == Begin(BeginStatement(vendor))
    ensures r.1 ==> connected && committed
  {
    if !connected then ([], false)
    else
      var r := RunQueries(queries, succeeds, committed);
      ([Begin(BeginStatement(vendor))] + r.0, r.1)
  }

  /** The loop of `executeTransaction` and what follows it. */
  function RunQueries(queries: seq<string>, succeeds: seq<bool>, committed: bool): (r: (seq<Event>, bool))
    requires |succeeds| == |queries|
    ensures 1 <= |r.0| <= |queries| + 1
    ensures r.1 ==> committed
    decreases |queries|
  {
    if queries == [] then ([Commit], committed)
    else if !succeeds[0] then ([Executing(queries[0]), Rollback], false)
    else
      var r := RunQueries(queries[1..], succeeds[1..], committed);
      ([Executing(queries[0])] + r.0, r.1)
  }

  /** On a closed connection the transaction fails at once, without `beginTransaction` or any query. */
  lemma ClosedConnectionDoesNothing(vendor: Vendor, queries: seq<string>, succeeds: seq<bool>, committed: bool)
    requires |succeeds| == |queries|
    ensures Transaction(vendor, false, queries, succeeds, committed).0 == []
    ensures !Transaction(vendor, false, queries, succeeds, committed).1
  {
  }

  /**
   * When query `k` is the first to fail, the transaction runs queries `0..k`, rolls back, skips
   * the rest and fails.
   */
  lemma {:induction false} FirstFailureRollsBack(vendor: Vendor, queries: seq<string>, succeeds: seq<bool>, committed: bool, k: nat)
    requires |succeeds| == |queries| && k < |queries|
    requires !succeeds[k] && forall i :: 0 <= i < k ==> succeeds[i]
    ensures RunQueries(queries, succeeds, committed).0 == Executions(queries[..k + 1]) + [Rollback]
    ensures !RunQueries(queries, succeeds, committed).1
    ensures Transaction(vendor, true, queries, succeeds, committed).0
                        == [Begin(BeginStatement(vendor))] + Executions(queries[..k + 1]) + [Rollback]
    ensures !Transaction(vendor, true, queries, succeeds, committed).1
    decreases k
  {
    if k > 0 {
      var rest := RunQueries(queries[1..], succeeds[1..], committed);
      FirstFailureRollsBack(vendor, queries[1..], succeeds[1..], committed, k - 1);
      assert rest.0 == Executions(queries[1..][..k]) + [Rollback];
      assert Executions(queries[..k + 1]) == [Executing(queries[0])] + Executions(queries[1..][..k]);
      assert RunQueries(queries, succeeds, committed).0 == [Executing(queries[0])] + rest.0;
    } else {
      assert Executions(queries[..1]) == [Executing(queries[0])];
    }
  }

  /** When every query succeeds, the transaction runs them all in order, then commits and returns what `commit` returns. */
  lemma {:induction false} AllSucceedCommits(vendor: Vendor, queries: seq<string>, succeeds: seq<bool>, committed: bool)
    requires |succeeds| == |queries| && forall i :: 0 <= i < |succeeds| ==> succeeds[i]
    ensures RunQueries(queries, succeeds, committed).0 == Executions(queries) + [Commit]
    ensures RunQueries(queries, succeeds, committed).1 == committed
    ensures Transaction(vendor, true, queries, succeeds, committed).0
                        == [Begin(BeginStatement(vendor))] + Executions(queries) + [Commit]
    ensures Transaction(vendor, true, queries, succeeds, committed).1 == committed
    decreases |queries|
  {
    if queries != [] {
      var rest := RunQueries(queries[1..], succeeds[1..], committed);
      AllSucceedCommits(vendor, queries[1..], succeeds[1..], committed);
      assert Executions(queries) == [Executing(queries[0])] + Executions(queries[1..]);
      assert RunQueries(queries, succeeds, committed).0 == [Executing(queries[0])] + rest.0;
    } else {
      assert Executions(queries) == [];
    }
  }

  /** The transaction succeeds exactly when the connection is open, every query succeeds and the commit succeeds. */
  lemma TransactionResult(vendor: Vendor, connected: bool, queries: seq<string>, succeeds: seq<bool>, committed: bool)
    requires |succeeds| == |queries|
    ensures Transaction(vendor, connected, queries, succeeds, committed).1
        <==> connected && committed && forall i :: 0 <= i < |succeeds| ==> succeeds[i]
  {
    if connected {
      if forall i :: 0 <= i < |succeeds| ==> succeeds[i] {
        AllSucceedCommits(vendor, queries, succeeds, committed);
      } else {
        var k := FirstFailure(succeeds);
        FirstFailureRollsBack(vendor, queries, succeeds, committed, k);
      }
    }
  }

  /** The index of the first `false`. */
  function FirstFailure(succeeds: seq<bool>): (k: nat)
    requires exists i :: 0 <= i < |succeeds| && !succeeds[i]
    ensures k < |succeeds| && !succeeds[k]
    ensures forall i :: 0 <= i < k ==> succeeds[i]
  {
    if !succeeds[0] then 0 else 1 + FirstFailure(succeeds[1..])
  }

  /** All `true`: what `execute` returns for each query on an open concrete connection. */
  function AllSucceed(n: nat): (s: seq<bool>)
    ensures |s| == n && forall i :: 0 <= i < n ==> s[i]
  {
    seq(n, _ => true)
  }

  // ----- The concrete connections -----

  /**
   * `PostgreSQLConnection` or `MySQLConnection`. Only the PostgreSQL connection keeps the
   * connection string; the MySQL one has no such field, and here it stays empty.
   */
  class Connection {
    const vendor: Vendor
    var connected: bool
    var lastError: string
    var connectionString: string
    /** What the connection has printed. */
    var log: seq<Event>

    constructor (vendor: Vendor)
      ensures this.vendor == vendor
      ensures !connected && lastError == "" && connectionString == "" && log == []
    {
      this.vendor := vendor;
      connected := false;
      lastError := "";
      connectionString := "";
      log := [];
    }

    method Connect(connectionString: string) returns (ok: bool)
      modifies this
      ensures ok && connected && lastError == ""
      ensures this.connectionString == if vendor == PostgreSQL then connectionString else old(this.connectionString)
      ensures log == old(log) + [Connecting(connectionString)]
    {
      if vendor == PostgreSQL {
        this.connectionString := connectionString;
      }
      log := log + [Connecting(connectionString)];
      connected := true;
      lastError := "";
      ok := true;
    }

    method Disconnect()
      modifies this`connected, this`log
      ensures !connected
      ensures log == old(log) + if old(connected) then [Disconnecting] else []
    {
      if connected {
        log := log + [Disconnecting];
        connected := false;
      }
    }

    /** A query succeeds exactly on an open connection; on a closed one it records the error. */
    method Execute(query: string) returns (ok: bool)
      modifies this`lastError, this`log
      ensures ok == connected
      ensures !connected ==> lastError == NOT_CONNECTED && log == old(log)
      ensures connected ==> lastError == old(lastError) && log == old(log) + [Executing(query)]
    {
      if !connected {
        lastError := NOT_CONNECTED;
        return false;
      }
      log := log + [Executing(query)];
      ok := true;
    }

    method GetLastError() returns (e: string)
      ensures e == lastError
    {
      e := lastError;
    }

    method IsConnected() returns (b: bool)
      ensures b == connected
    {
      b := connected;
    }

    /** Prints the vendor's own statement: `BEGIN TRANSACTION` or `START TRANSACTION`. */
    method BeginTransaction() returns (ok: bool)
      modifies this`log
      ensures ok && log == old(log) + [Begin(BeginStatement(vendor))]
    {
      log := log + [Begin(BeginStatement(vendor))];
      ok := true;
    }

    method CommitTransaction() returns (ok: bool)
      modifies this`log
      ensures ok && log == old(log) + [Commit]
    {
      log := log + [Commit];
      ok := true;
    }

    method RollbackTransaction() returns (ok: bool)
      modifies this`log
      ensures ok && log == old(log) + [Rollback]
    {
      log := log + [Rollback];
      ok := true;
    }

    /**
     * `executeTransaction` on a concrete connection: the template method with every `execute`
     * and the `commit` succeeding, which is what these implementations do on an open connection.
     */
    method ExecuteTransaction(queries: seq<string>) returns (ok: bool)
      modifies this`log, this`lastError
      ensures ok == Transaction(vendor, connected, queries, AllSucceed(|queries|), true).1
      ensures log == old(log) + Transaction(vendor, connected, queries, AllSucceed(|queries|), true).0
      ensures lastError == old(lastError)
    {
      var open := IsConnected();
      if !open {
        return false;
      }
      var _ := BeginTransaction();
      ghost var begun := log;
      var i := 0;
      while i < |queries|
        invariant connected
        invariant i <= |queries| && lastError == old(lastError)
        invariant log == begun + Executions(queries[..i])
      {
        var succeeded := Execute(queries[i]);
        if !succeeded {
          // `execute` fails only on a closed connection, and this one is open.
          assert false;
        }
        ExecutionsSnoc(queries, i);
        i := i + 1;
      }
      assert queries[..i] == queries;
      ok := CommitTransaction();
      assert log == old(log) + ([Begin(BeginStatement(vendor))] + Executions(queries) + [Commit]);
      AllSucceedCommits(vendor, queries, AllSucceed(|queries|), true);
    }
  }

  /**
   * The database test of the demonstration, on either implementation: connect, run one query,
   * run a transaction of three queries, which completes, then disconnect.
   */
  method TestDatabase(vendor: Vendor) returns (committed: bool, printed: seq<Event>)
    ensures committed
    ensures printed == [
      Connecting("localhost:5432/testdb"),
      Executing("SELECT * FROM users"),
      Begin(BeginStatement(vendor)),
      Executing("INSERT INTO users (name) VALUES ('Alice')"),
      Executing("INSERT INTO users (name) VALUES ('Bob')"),
      Executing("UPDATE users SET active = true"),
      Commit,
      Disconnecting]
  {
    var db := new Connection(vendor);
    var _ := db.Connect("localhost:5432/testdb");
    var _ := db.Execute("SELECT * FROM users");
    var queries := [
      "INSERT INTO users (name) VALUES ('Alice')",
      "INSERT INTO users (name) VALUES ('Bob')",
      "UPDATE users SET active = true"];
    committed := db.ExecuteTransaction(queries);
    db.Disconnect();
    printed := db.log;
  }
}
