/** The server side of one connection, and what all connections share. */
module Session {
  import opened Text
  import opened Placeholders
  import opened Decimal
  import opened SessionText

  /** A prepared statement; `canned` marks one whose rows were captured when it was prepared. */
  datatype Statement = Statement(original: string, postgres: string, params: seq<string>, columns: seq<string>,
                                 canned: bool)

  /** The state of a connection. */
  datatype State = State(id: nat, nextStatement: nat, prepared: map<nat, Statement>, currentDb: Option<string>,
                         lastInsertId: nat, charset: string, collation: string, sqlMode: string, isolation: string)

  /** The statics: the next connection id, the connections to be killed and the default database. */
  datatype Globals = Globals(nextConnection: nat, killed: set<nat>, defaultDb: Option<string>)

  /** What comes of executing SQL: an error, with whether it names the missing option table and how many columns the
      original text would then have; or a result with its last insert id, how many columns it has, and how many values
      there are in each row. */
  datatype Execution = Error(missingOption: bool, inferred: nat) | Result(insertId: nat, columns: nat, rows: seq<nat>)

  /** What the code asks others for: whether the query has a dynamic canned response, its translation, the result
      columns, whether a schema was created or dropped, and what comes of executing it. */
  datatype Answers = Answers(dynamic: bool, translation: Option<string>, columns: seq<string>, schemaOk: bool,
                             executed: Execution)

  datatype Failure = UnknownStatement | Rejected | NotTranslated | NotDecoded | Mismatch(expected: nat, got: nat)
                   | NotExecuted | NotAllowed

  /** What a command comes to: an OK packet, rows, a prepared statement or an error packet. `Aborted` and `Broken` end
      the connection. */
  datatype Reply = Done | Rows | Prepared(id: nat, params: seq<string>, columns: seq<string>) | Failed(why: Failure)
                 | Aborted | Broken

  // ---------------------------------------------------------------------------------------------------------------
  // Specification: one step

  /** `make_param_column` for each parameter. */
  function ParamNames(n: nat): (r: seq<string>)
    ensures |r| == n
    ensures forall k :: 0 <= k < n ==> r[k] == "p" + Numeral(k + 1)
  {
    if n == 0 then [] else ParamNames(n - 1) + ["p" + Numeral(n)]
  }

  function Increment(n: nat): nat {
    (n + 1) % TwoTo32
  }

  /** `connection_backend`: a new connection starts in the default database. */
  function NewState(g: Globals): State {
    State(g.nextConnection, 1, map[], g.defaultDb, 0, "utf8mb4", "utf8mb4_general_ci", "NO_AUTO_VALUE_ON_ZERO",
          "REPEATABLE-READ")
  }

  function Opened(g: Globals): Globals {
    g.(nextConnection := Increment(g.nextConnection))
  }

  function Nonblank(name: string): Option<string> {
    if Trim(name) == "" then None else Some(Trim(name))
  }

  /** `set_default_database_name`. */
  function Cleaned(db: Option<string>): Option<string> {
    match db
    case None => None
    case Some(name) => Nonblank(name)
  }

  function Stored(s: State, statement: Statement): (State, Reply) {
    (s.(prepared := s.prepared[s.nextStatement := statement], nextStatement := Increment(s.nextStatement)),
     Prepared(s.nextStatement, statement.params, statement.columns))
  }

  function PrepareStep(s: State, query: string, a: Answers): (State, Reply) {
    if a.dynamic then Stored(s, Statement(query, "", [], a.columns, true))
    else if IsCompatNoop(query) then
      Stored(s, Statement(query, "", ParamNames(CountPlaceholders(query)), [], false))
    else
      match a.translation
      case None => (s, Failed(NotTranslated))
      case Some(text) =>
        Stored(s, Statement(query, Numbered(text), ParamNames(CountPlaceholders(query)), a.columns, IsCanned(query)))
  }

  datatype Change = Untouched | Changed(state: State) | Refused

  function SetNames(s: State, payload: string): (r: Change)
    ensures r != Untouched
  {
    var charset := NamesCharset(payload);
    match DefaultCollation(charset)
    case None => Refused
    case Some(default) =>
      match NamesCollation(payload)
      case None => Changed(s.(charset := charset, collation := default))
      case Some(given) =>
        match CollationName(charset, given)
        case None => Refused
        case Some(collation) =>
          if CollationMatches(charset, collation) then Changed(s.(charset := charset, collation := collation))
          else Refused
  }

  /** `handle_mysql_session_query`. */
  function SessionStep(s: State, query: string): Change {
    var text := Bare(query);
    var upper := ToUpper(text);
    if "SET NAMES " <= upper then SetNames(s, Trim(text[10..]))
    else if IsSetSqlMode(upper) then Changed(s.(sqlMode := SqlModeValue(text)))
    else if "SET SESSION TRANSACTION ISOLATION LEVEL " <= upper then
      Changed(s.(isolation := IsolationValue(Trim(text[40..]))))
    else if "SET TRANSACTION ISOLATION LEVEL " <= upper then
      Changed(s.(isolation := IsolationValue(Trim(text[32..]))))
    else Untouched
  }

  /** `write_query_result`: the writer fails at a row that does not fit the columns. */
  function Written(columns: nat, rows: seq<nat>): Reply {
    if columns == 0 then Done
    else if forall k :: 0 <= k < |rows| ==> rows[k] == columns then Rows
    else Broken
  }

  /** The columns that are announced: those stored at prepare time, if there are any and the result has some. */
  function Shown(stored: nat, columns: nat): nat {
    if stored > 0 && columns > 0 then stored else columns
  }

  function Finished(s: State, stored: nat, executed: Execution): (State, Reply) {
    match executed
    case Error(_, _) => (s, Failed(NotExecuted))
    case Result(id, columns, rows) =>
      (if id > 0 then s.(lastInsertId := id) else s, Written(Shown(stored, columns), rows))
  }

  /** `compat_empty_result_for_missing_matomo_option`, for an error that names the missing table. */
  function EmptyResult(sql: string, inferred: nat): Option<Reply> {
    var upper := ToUpper(TrimStart(sql));
    if !Contains(sql, "\"matomo_option\"") && !Contains(sql, "\"option\"") then None
    else if "SELECT" <= upper then Some(Written(inferred, []))
    else if "DELETE" <= upper || "UPDATE" <= upper then Some(Done)
    else None
  }

  /** Several statements that are executed one after the other have no rows and no last insert id. */
  function Ran(sql: string, parameters: nat, executed: Execution): Execution {
    if parameters == 0 && ';' in sql && executed.Result? then Result(0, 0, []) else executed
  }

  /** Binding: `bound` is the number of parameters, if they can be decoded. */
  function BindStep(s: State, statement: Statement, bound: Option<nat>, a: Answers): (State, Reply) {
    match bound
    case None => (s, Failed(NotDecoded))
    case Some(n) =>
      if |statement.params| != n then (s, Failed(Mismatch(|statement.params|, n)))
      else if a.executed.Error? && a.executed.missingOption
              && EmptyResult(statement.postgres, a.executed.inferred).Some? then
        (s, EmptyResult(statement.postgres, a.executed.inferred).value)
      else Finished(s, |statement.columns|, Ran(statement.postgres, n, a.executed))
  }

  function ExecuteStep(s: State, id: nat, bound: Option<nat>, a: Answers): (State, Reply) {
    if id !in s.prepared then (s, Failed(UnknownStatement))
    else
      var statement := s.prepared[id];
      if statement.canned then (s, Rows)
      else if statement.postgres != "" then BindStep(s, statement, bound, a)
      else
        match SessionStep(s, statement.original)
        case Changed(s') => (s', Done)
        case Refused => (s, Failed(Rejected))
        case Untouched =>
          if IsCompatNoop(statement.original) then (s, Done) else BindStep(s, statement, bound, a)
  }

  /** CREATE DATABASE and DROP DATABASE, the compatibility statements with an effect. */
  function NoopStep(s: State, g: Globals, text: string, a: Answers): (State, Globals, Reply) {
    match CreateDatabaseName(text)
    case Some(name) =>
      if !a.schemaOk then (s, g, Broken)
      else (s.(currentDb := Some(name)), g.(defaultDb := Cleaned(Some(name))), Done)
    case None =>
      match DropDatabaseName(text)
      case None => (s, g, Done)
      case Some(name) =>
        if !a.schemaOk then (s, g, Broken)
        else (if s.currentDb == Some(name) then s.(currentDb := None) else s,
              if g.defaultDb == Some(name) then g.(defaultDb := None) else g,
              Done)
  }

  /** A query that is no KILL. */
  function QueryStep(s: State, g: Globals, text: string, a: Answers): (State, Globals, Reply) {
    hide IsCompatNoop, IsCanned, IsLoadData, SessionStep;
    if a.dynamic then (s, g, Rows)
    else
      match SessionStep(s, text)
      case Changed(s') => (s', g, Done)
      case Refused => (s, g, Failed(Rejected))
      case Untouched =>
        if IsCompatNoop(text) then NoopStep(s, g, text, a)
        else if IsCanned(text) then (s, g, Rows)
        else if IsLoadData(text) then (s, g, Failed(NotAllowed))
        else if a.translation.None? then (s, g, Failed(NotTranslated))
        else (Finished(s, 0, a.executed).0, g, Finished(s, 0, a.executed).1)
  }

  datatype Command = Init(schema: string) | Prepare(query: string) | Execute(statement: nat, bound: Option<nat>)
                   | Close(closed: nat) | Reset(reset: nat) | Query(text: string)

  /** Commands that look whether their connection was killed. */
  predicate Guarded(c: Command) {
    c.Execute? || c.Query?
  }

  function Step(s: State, g: Globals, c: Command, a: Answers): (State, Globals, Reply) {
    if Guarded(c) && s.id in g.killed then (s, g.(killed := g.killed - {s.id}), Aborted)
    else
      match c
      case Init(schema) => (s.(currentDb := Nonblank(schema)), g.(defaultDb := Cleaned(Nonblank(schema))), Done)
      case Prepare(query) => (PrepareStep(s, query, a).0, g, PrepareStep(s, query, a).1)
      case Execute(id, bound) => (ExecuteStep(s, id, bound, a).0, g, ExecuteStep(s, id, bound, a).1)
      case Close(id) => (s.(prepared := s.prepared - {id}), g, Done)
      case Reset(_) => (s, g, Done)
      case Query(text) =>
        match ParseKill(Trim(text))
        case Some(id) => (s, g.(killed := g.killed + {id}), Done)
        case None => QueryStep(s, g, Trim(text), a)
  }

  // ---------------------------------------------------------------------------------------------------------------
  // The classes

  /** The statics. */
  class Shared {
    var nextConnection: nat
    var killed: set<nat>
    var defaultDb: Option<string>

    constructor ()
      ensures View() == Globals(9, {}, None)
    {
      nextConnection, killed, defaultDb := 9, {}, None;
    }

    ghost function View(): Globals
      reads this
    {
      Globals(nextConnection, killed, defaultDb)
    }

    method KillConnection(id: nat)
      modifies this
      ensures View() == old(View()).(killed := old(killed) + {id})
    {
      killed := killed + {id};
    }

    /** `abort_if_connection_killed`: one abort uses the request up. */
    method AbortIfKilled(id: nat) returns (aborted: bool)
      modifies this
      ensures aborted <==> id in old(killed)
      ensures View() == old(View()).(killed := old(killed) - {id})
    {
      aborted := id in killed;
      killed := killed - {id};
    }

    method SetDefaultDatabase(name: Option<string>)
      modifies this
      ensures View() == old(View()).(defaultDb := Cleaned(name))
    {
      defaultDb := Cleaned(name);
    }

    method ClearDefaultDatabaseIfMatches(name: string)
      modifies this
      ensures View() == if old(defaultDb) == Some(name) then old(View()).(defaultDb := None) else old(View())
    {
      if defaultDb == Some(name) {
        defaultDb := None;
      }
    }
  }

  class Backend {
    const shared: Shared
    const id: nat
    var nextStatement: nat
    var prepared: map<nat, Statement>
    var currentDb: Option<string>
    var lastInsertId: nat
    var charset: string
    var collation: string
    var sqlMode: string
    var isolation: string

    constructor (shared: Shared)
      modifies shared
      ensures this.shared == shared
      ensures View() == NewState(old(shared.View())) && shared.View() == Opened(old(shared.View()))
    {
      this.shared := shared;
      id := shared.nextConnection;
      nextStatement, prepared, lastInsertId := 1, map[], 0;
      currentDb := shared.defaultDb;
      charset, collation := "utf8mb4", "utf8mb4_general_ci";
      sqlMode, isolation := "NO_AUTO_VALUE_ON_ZERO", "REPEATABLE-READ";
      new;
      shared.nextConnection := Increment(shared.nextConnection);
    }

    ghost function View(): State
      reads this
    {
      State(id, nextStatement, prepared, currentDb, lastInsertId, charset, collation, sqlMode, isolation)
    }

    method OnInit(schema: string, a: Answers)
      modifies this, shared
      ensures (View(), shared.View(), Done) == Step(old(View()), old(shared.View()), Init(schema), a)
    {
      currentDb := if Trim(schema) == "" then None else Some(Trim(schema));
      shared.SetDefaultDatabase(currentDb);
    }

    method Store(statement: Statement) returns (reply: Reply)
      modifies this
      ensures (View(), reply) == Stored(old(View()), statement)
    {
      var statementId := nextStatement;
      nextStatement := Increment(nextStatement);
      prepared := prepared[statementId := statement];
      reply := Prepared(statementId, prepared[statementId].params, prepared[statementId].columns);
    }

    method OnPrepare(query: string, a: Answers) returns (reply: Reply)
      modifies this, shared
      ensures (View(), shared.View(), reply) == Step(old(View()), old(shared.View()), Prepare(query), a)
    {
      hide CountFrom, Substituted, IsCompatNoop, IsCanned, ParamNames;
      var _, count := ScanPlaceholders(query, QuestionMark);
      if a.dynamic {
        reply := Store(Statement(query, "", [], a.columns, true));
      } else if IsCompatNoop(query) {
        reply := Store(Statement(query, "", ParamNames(count), [], false));
      } else {
        match a.translation {
          case None =>
            reply := Failed(NotTranslated);
          case Some(text) =>
            var postgres := RewritePlaceholders(text);
            reply := Store(Statement(query, postgres.value, ParamNames(count), a.columns, IsCanned(query)));
        }
      }
    }

    /** `apply_set_names`. */
    method ApplySetNames(payload: string) returns (ok: bool)
      modifies this
      ensures match SetNames(old(View()), payload)
              case Changed(s) => ok && View() == s
              case _ => !ok && View() == old(View())
    {
      hide NamesCharset, NamesCollation, ToLower;
      var newCharset := NamesCharset(payload);
      if DefaultCollation(newCharset).None? {
        return false;
      }
      var given := NamesCollation(payload);
      if given.Some? {
        var name := CollationName(newCharset, given.value);
        if name.None? || !CollationMatches(newCharset, name.value) {
          return false;
        }
        collation := name.value;
      } else {
        collation := DefaultCollation(newCharset).value;
      }
      charset := newCharset;
      ok := true;
    }

    /** `handle_mysql_session_query`: nothing if the query is not for it, otherwise whether it was obeyed. */
    method HandleSessionQuery(query: string) returns (handled: Option<bool>)
      modifies this
      ensures match SessionStep(old(View()), query)
              case Changed(s) => handled == Some(true) && View() == s
              case Refused => handled == Some(false) && View() == old(View())
              case Untouched => handled == None && View() == old(View())
    {
      hide Bare, SetNames, IsSetSqlMode, SqlModeValue, IsolationValue, Trim;
      var text := Bare(query);
      var upper := ToUpper(text);
      handled := Some(true);
      if "SET NAMES " <= upper {
        var ok := ApplySetNames(Trim(text[10..]));
        handled := Some(ok);
      } else if IsSetSqlMode(upper) {
        sqlMode := SqlModeValue(text);
      } else if "SET SESSION TRANSACTION ISOLATION LEVEL " <= upper {
        isolation := IsolationValue(Trim(text[40..]));
      } else if "SET TRANSACTION ISOLATION LEVEL " <= upper {
        isolation := IsolationValue(Trim(text[32..]));
      } else {
        handled := None;
      }
    }

    /** `write_query_result`: row by row. */
    method WriteQueryResult(columns: nat, rows: seq<nat>) returns (reply: Reply)
      ensures reply == Written(columns, rows)
    {
      if columns == 0 {
        return Done;
      }
      for k := 0 to |rows|
        invariant forall j :: 0 <= j < k ==> rows[j] == columns
      {
        if rows[k] != columns {
          return Broken;
        }
      }
      reply := Rows;
    }

    /** What `on_execute` and `on_query` do with the outcome of the executor. */
    method Finish(stored: nat, executed: Execution) returns (reply: Reply)
      modifies this
      ensures (View(), reply) == Finished(old(View()), stored, executed)
    {
      match executed {
        case Error(_, _) => reply := Failed(NotExecuted);
        case Result(insertId, columns, rows) =>
          if insertId > 0 {
            lastInsertId := insertId;
          }
          reply := WriteQueryResult(if stored > 0 && columns > 0 then stored else columns, rows);
      }
    }

    method OnExecute(statementId: nat, bound: Option<nat>, a: Answers) returns (reply: Reply)
      modifies this, shared
      ensures (View(), shared.View(), reply) ==
              Step(old(View()), old(shared.View()), Execute(statementId, bound), a)
    {
      hide SessionStep, IsCompatNoop;
      var aborted := shared.AbortIfKilled(id);
      if aborted {
        return Aborted;
      }
      assert shared.View() == old(shared.View());
      if statementId !in prepared {
        return Failed(UnknownStatement);
      }
      var statement := prepared[statementId];
      if statement.canned {
        return Rows;
      }
      if statement.postgres == "" {
        var handled := HandleSessionQuery(statement.original);
        if handled.Some? {
          return if handled.value then Done else Failed(Rejected);
        }
        if IsCompatNoop(statement.original) {
          return Done;
        }
      }
      if bound.None? {
        return Failed(NotDecoded);
      }
      if |statement.params| != bound.value {
        return Failed(Mismatch(|statement.params|, bound.value));
      }
      var execution := a.executed;
      if bound.value == 0 && ';' in statement.postgres && execution.Result? {
        execution := Result(0, 0, []);
      }
      if execution.Error? && execution.missingOption {
        var empty := EmptyResult(statement.postgres, execution.inferred);
        if empty.Some? {
          return empty.value;
        }
      }
      reply := Finish(|statement.columns|, execution);
    }

    /** `on_reset`: the library forgets the long data, the session keeps everything. */
    method OnReset(statementId: nat, a: Answers)
      ensures (View(), shared.View(), Done) == Step(View(), shared.View(), Reset(statementId), a)
    {
    }

    method OnClose(statementId: nat, a: Answers)
      modifies this, shared
      ensures (View(), shared.View(), Done) == Step(old(View()), old(shared.View()), Close(statementId), a)
    {
      prepared := prepared - {statementId};
    }

    /** CREATE DATABASE and DROP DATABASE within `on_query`. */
    method CompatNoop(text: string, a: Answers) returns (reply: Reply)
      modifies this, shared
      ensures (View(), shared.View(), reply) == NoopStep(old(View()), old(shared.View()), text, a)
    {
      hide CreateDatabaseName, DropDatabaseName, Trim;
      var created := CreateDatabaseName(text);
      if created.Some? {
        if !a.schemaOk {
          return Broken;
        }
        currentDb := created;
        shared.SetDefaultDatabase(created);
        return Done;
      }
      var dropped := DropDatabaseName(text);
      if dropped.Some? {
        if !a.schemaOk {
          return Broken;
        }
        if currentDb == dropped {
          currentDb := None;
        }
        shared.ClearDefaultDatabaseIfMatches(dropped.value);
      }
      return Done;
    }

    method OnQuery(query: string, a: Answers) returns (reply: Reply)
      modifies this, shared
      ensures (View(), shared.View(), reply) == Step(old(View()), old(shared.View()), Query(query), a)
    {
      hide SessionStep, IsCompatNoop, IsCanned, IsLoadData, ParseKill, NoopStep, Trim;
      var aborted := shared.AbortIfKilled(id);
      if aborted {
        return Aborted;
      }
      assert shared.View() == old(shared.View());
      var text := Trim(query);
      var target := ParseKill(text);
      if target.Some? {
        shared.KillConnection(target.value);
        return Done;
      }
      if a.dynamic {
        return Rows;
      }
      var handled := HandleSessionQuery(text);
      if handled.Some? {
        return if handled.value then Done else Failed(Rejected);
      }
      if IsCompatNoop(text) {
        reply := CompatNoop(text, a);
        return;
      }
      if IsCanned(text) {
        return Rows;
      }
      if IsLoadData(text) {
        return Failed(NotAllowed);
      }
      if a.translation.None? {
        return Failed(NotTranslated);
      }
      reply := Finish(0, a.executed);
    }
  }
}
