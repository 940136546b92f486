/** What a session answers to each command and what it stores, case by case, and when a prepared statement acts as the
    same query does. */
module SessionAnswers {
  import opened Text
  import opened Decimal
  import opened Placeholders
  import opened SessionText
  import opened Session
  import opened SessionRuns
  import opened SessionEffects

  // ---------------------------------------------------------------------------------------------------------------
  // Queries

  /** A query that is neither a KILL nor for the session, nor a statement that is only acknowledged. */
  predicate QueryPasses(s: State, g: Globals, c: Command, a: Answers) {
    PassesSession(s, g, c, a) && !IsCompatNoop(Trim(c.text))
  }

  /** The result has columns, and every row fits `columns`. */
  predicate HasRows(executed: Execution, columns: nat) {
    executed.Result? && executed.columns > 0 && !Misfit(columns, executed.rows)
  }

  /** The rows a query is answered with: the system variables, the canned ones, and the result of PostgreSQL. */
  lemma {:induction false} QueryHasRows(s: State, g: Globals, c: Command, a: Answers, reply: Reply)
    requires c.Query? && s.id !in g.killed && reply == Step(s, g, c, a).2
    ensures reply == Rows <==>
            || (ParseKill(Trim(c.text)).None? && a.dynamic)
            || (QueryPasses(s, g, c, a) && IsCanned(Trim(c.text)))
            || (QueryReaches(s, g, c, a) && a.executed.Result? && HasRows(a.executed, a.executed.columns))
  {
    hide ParseKill, Trim, SessionStep, IsCompatNoop, IsCanned, IsLoadData, NoopStep, Written, Misfit;
    NoopFrame(s, g, Trim(c.text), a);
    if a.executed.Result? {
      WrittenExactly(a.executed.columns, a.executed.rows);
    }
  }

  /** The errors before it is translated: a SET with an unknown value, and LOAD DATA. */
  lemma {:induction false} QueryIsRefused(s: State, g: Globals, c: Command, a: Answers, reply: Reply)
    requires c.Query? && s.id !in g.killed && reply == Step(s, g, c, a).2
    ensures reply == Failed(Rejected) <==>
            ParseKill(Trim(c.text)).None? && !a.dynamic && SessionStep(s, Trim(c.text)) == Refused
    ensures reply == Failed(NotAllowed) <==>
            QueryPasses(s, g, c, a) && !IsCanned(Trim(c.text)) && IsLoadData(Trim(c.text))
  {
    hide ParseKill, Trim, SessionStep, IsCompatNoop, IsCanned, IsLoadData, NoopStep, Written, Misfit;
    NoopFrame(s, g, Trim(c.text), a);
    if a.executed.Result? {
      WrittenExactly(a.executed.columns, a.executed.rows);
    }
  }

  /** The errors of translating and executing it. There are no others. */
  lemma {:induction false} QueryFails(s: State, g: Globals, c: Command, a: Answers, reply: Reply)
    requires c.Query? && s.id !in g.killed && reply == Step(s, g, c, a).2
    ensures reply == Failed(NotTranslated) <==>
            QueryPasses(s, g, c, a) && !IsCanned(Trim(c.text)) && !IsLoadData(Trim(c.text)) && a.translation.None?
    ensures reply == Failed(NotExecuted) <==> QueryReaches(s, g, c, a) && a.executed.Error?
    ensures reply.Failed? ==> reply.why in {Rejected, NotAllowed, NotTranslated, NotExecuted}
  {
    hide ParseKill, Trim, SessionStep, IsCompatNoop, IsCanned, IsLoadData, NoopStep, Written, Misfit;
    NoopFrame(s, g, Trim(c.text), a);
    if a.executed.Result? {
      WrittenExactly(a.executed.columns, a.executed.rows);
    }
  }

  // ---------------------------------------------------------------------------------------------------------------
  // Executes

  /** An execute whose parameters matter. */
  predicate Binds(s: State, c: Command)
    requires c.Execute?
  {
    && c.statement in s.prepared
    && var st := s.prepared[c.statement];
    && !st.canned && (st.postgres != "" || (SessionStep(s, st.original) == Untouched && !IsCompatNoop(st.original)))
  }

  /** The text names one of the two tables whose absence is made up for. */
  predicate NamesOptions(sql: string) {
    Contains(sql, "\"option\"") || Contains(sql, "\"matomo_option\"")
  }

  /** It begins with the keyword, in any case and behind any blanks. */
  predicate BeginsWith(sql: string, keyword: string) {
    exists k :: 0 <= k <= |sql| - |keyword| && AllSpace(sql[..k]) && ToUpper(sql[k..k + |keyword|]) == keyword
  }

  lemma BeginsExactly(sql: string, keyword: string)
    requires keyword != "" && 'A' <= keyword[0] <= 'Z'
    ensures BeginsWith(sql, keyword) <==> keyword <= ToUpper(TrimStart(sql))
  {
    hide ToUpper, TrimStart, BeginsWith;
    if keyword <= ToUpper(TrimStart(sql)) {
      var lead := TrimStartSplits(sql);
      BeginsBehind(lead, TrimStart(sql), keyword);
    }
    if BeginsWith(sql, keyword) {
      KeywordIsFirst(sql, keyword);
    }
  }

  lemma BeginsBehind(lead: string, t: string, keyword: string)
    requires AllSpace(lead) && keyword <= ToUpper(t)
    ensures BeginsWith(lead + t, keyword)
  {
    hide ToUpper, IsSpace;
    var (s, k) := (lead + t, |lead|);
    UpperIs(t[..|keyword|], keyword);
    assert s[..k] == lead && s[k..k + |keyword|] == t[..|keyword|];
  }

  lemma KeywordIsFirst(sql: string, keyword: string)
    requires keyword != "" && 'A' <= keyword[0] <= 'Z' && BeginsWith(sql, keyword)
    ensures keyword <= ToUpper(TrimStart(sql))
  {
    hide ToUpper, TrimStart, AllSpace;
    var k :| 0 <= k <= |sql| - |keyword| && AllSpace(sql[..k]) && ToUpper(sql[k..k + |keyword|]) == keyword;
    var (word, rest) := (sql[k..k + |keyword|], sql[k + |keyword|..]);
    assert sql[k..] == word + rest && sql == sql[..k] + (word + rest);
    assert Upper(word[0]) == keyword[0];
    TrimStartBlank(sql[..k], word + rest);
    UpperConcat(word, rest);
  }

  /** A statement on a missing table is answered as on an empty one: a SELECT, and a DELETE or an UPDATE. */
  lemma MissingOptionAnswer(sql: string, n: nat)
    ensures EmptyResult(sql, n) ==
            if !NamesOptions(sql) then None
            else if BeginsWith(sql, "SELECT") then Some(if n == 0 then Done else Rows)
            else if BeginsWith(sql, "DELETE") || BeginsWith(sql, "UPDATE") then Some(Done)
            else None
  {
    hide Contains, ToUpper, TrimStart, BeginsWith;
    BeginsExactly(sql, "SELECT");
    BeginsExactly(sql, "DELETE");
    BeginsExactly(sql, "UPDATE");
  }

  /** A statement for which the error of a missing option table is made up for. */
  predicate MadeUp(sql: string) {
    NamesOptions(sql) && (BeginsWith(sql, "SELECT") || BeginsWith(sql, "DELETE") || BeginsWith(sql, "UPDATE"))
  }

  /** Several statements without parameters: their result is dropped. */
  predicate IsDropped(st: Statement) {
    st.params == [] && ';' in st.postgres
  }

  /** What an execute is answered that is not aborted; otherwise, and if the connection does not break, it is an OK
      packet. */
  lemma {:induction false} ExecuteAnswers(s: State, g: Globals, id: nat, bound: Option<nat>, a: Answers)
    requires s.id !in g.killed && id in s.prepared
    ensures var (c, st, reply) := (Execute(id, bound), s.prepared[id], Step(s, g, Execute(id, bound), a).2);
            && (reply == Rows <==>
                  || st.canned
                  || (ExecuteReaches(s, g, c) && !IsDropped(st)
                      && HasRows(a.executed, Shown(|st.columns|, if a.executed.Result? then a.executed.columns else 0)))
                  || (ExecuteReaches(s, g, c) && a.executed.Error? && a.executed.missingOption
                      && NamesOptions(st.postgres) && BeginsWith(st.postgres, "SELECT") && a.executed.inferred > 0))
            && (reply == Failed(Rejected) <==>
                  !st.canned && st.postgres == "" && SessionStep(s, st.original) == Refused)
            && (reply == Failed(NotDecoded) <==> Binds(s, c) && bound.None?)
            && (reply == Failed(NotExecuted) <==>
                  ExecuteReaches(s, g, c) && a.executed.Error? && !(a.executed.missingOption && MadeUp(st.postgres)))
            && (forall n: nat, m: nat :: reply == Failed(Mismatch(n, m)) <==>
                  Binds(s, c) && bound == Some(m) && n == |st.params| && m != n)
            && (reply.Failed? ==> reply.why in {Rejected, NotDecoded, NotExecuted} || reply.why.Mismatch?)
            && reply != Aborted && !reply.Prepared?
  {
    hide SessionStep, IsCompatNoop, EmptyResult, NamesOptions, BeginsWith, Misfit;
    MissingOptionAnswer(s.prepared[id].postgres, if a.executed.Error? then a.executed.inferred else 0);
    if a.executed.Result? {
      WrittenExactly(Shown(|s.prepared[id].columns|, a.executed.columns), a.executed.rows);
    }
  }

  lemma WrittenExactly(columns: nat, rows: seq<nat>)
    ensures Written(columns, rows) == if Misfit(columns, rows) then Broken else if columns > 0 then Rows else Done
  {
  }

  /** A statement that was never prepared, or was closed, is refused. */
  lemma {:induction false} UnknownExactly(s: State, g: Globals, c: Command, a: Answers)
    ensures Step(s, g, c, a).2 == Failed(UnknownStatement) <==>
            c.Execute? && s.id !in g.killed && c.statement !in s.prepared
  {
    hide ParseKill, Trim, SessionStep, IsCompatNoop, PrepareStep, ExecuteStep, QueryStep, Nonblank, Cleaned;
    match c {
      case Prepare(query) => PrepareNeverUnknown(s, query, a);
      case Execute(id, bound) => ExecuteRepliesPlainly(s, id, bound, a); UnknownIsRefused(s, id, bound, a);
      case Query(text) => QueryRepliesPlainly(s, g, Trim(text), a);
      case _ =>
    }
  }

  lemma UnknownIsRefused(s: State, id: nat, bound: Option<nat>, a: Answers)
    ensures id !in s.prepared ==> ExecuteStep(s, id, bound, a) == (s, Failed(UnknownStatement))
  {
    hide SessionStep, IsCompatNoop, BindStep;
  }

  lemma PrepareNeverUnknown(s: State, query: string, a: Answers)
    ensures PrepareStep(s, query, a).1 != Failed(UnknownStatement)
  {
    hide IsCompatNoop, IsCanned, CountFrom, Substituted, ParamNames;
  }

  // ---------------------------------------------------------------------------------------------------------------
  // Prepares

  /** What is stored, and what the client is told of it: a parameter for each placeholder of its own text, named by its
      place, and the columns. */
  lemma {:induction false} PrepareAnswers(s: State, g: Globals, query: string, a: Answers)
    ensures var (s', _, reply) := Step(s, g, Prepare(query), a);
            var idle := !a.dynamic && IsCompatNoop(query);
            if !a.dynamic && !idle && a.translation.None? then s' == s && reply == Failed(NotTranslated)
            else
              && reply.Prepared? && reply.id == s.nextStatement && reply.id in s'.prepared
              && var st := s'.prepared[reply.id];
              && s' == s.(prepared := s.prepared[reply.id := st], nextStatement := s'.nextStatement)
              && st.original == query && reply.params == st.params && reply.columns == st.columns
              && |st.params| == (if a.dynamic then 0 else CountPlaceholders(query))
              && (forall k :: 0 <= k < |st.params| ==> st.params[k] == "p" + Numeral(k + 1))
              && st.columns == (if idle then [] else a.columns)
              && (st.canned <==> a.dynamic || (!idle && IsCanned(query)))
              && st.postgres == if a.dynamic || idle then "" else Numbered(a.translation.value)
  {
    hide IsCompatNoop, IsCanned, CountFrom, Substituted;
  }

  // ---------------------------------------------------------------------------------------------------------------
  // What is stored

  /** The result of PostgreSQL carries a last insert id. */
  predicate Inserts(s: State, g: Globals, c: Command, a: Answers) {
    && a.executed.Result? && a.executed.insertId > 0
    && (QueryReaches(s, g, c, a) || (ExecuteReaches(s, g, c) && !IsDropped(s.prepared[c.statement])))
  }

  lemma {:induction false} LastInsertIdExactly(s: State, g: Globals, c: Command, a: Answers)
    ensures Step(s, g, c, a).0.lastInsertId == if Inserts(s, g, c, a) then a.executed.insertId else s.lastInsertId
  {
    hide ParseKill, Trim, SessionStep, IsCompatNoop, IsCanned, IsLoadData, CreateDatabaseName, DropDatabaseName,
         PrepareStep, ExecuteStep, QueryStep, Cleaned, Nonblank;
    match c {
      case Prepare(query) => PrepareFrame(s, query, a);
      case Execute(id, bound) => if s.id !in g.killed { ExecuteInserts(s, g, id, bound, a); }
      case Query(text) => if s.id !in g.killed && ParseKill(Trim(text)).None? { QueryInserts(s, g, text, a); }
      case _ =>
    }
  }

  lemma {:induction false} ExecuteInserts(s: State, g: Globals, id: nat, bound: Option<nat>, a: Answers)
    requires s.id !in g.killed
    ensures ExecuteStep(s, id, bound, a).0.lastInsertId ==
            if Inserts(s, g, Execute(id, bound), a) then a.executed.insertId else s.lastInsertId
  {
    hide SessionStep, IsCompatNoop, EmptyResult;
    if id in s.prepared {
      SessionFrame(s, s.prepared[id].original);
    }
  }

  lemma {:induction false} QueryInserts(s: State, g: Globals, text: string, a: Answers)
    requires s.id !in g.killed && ParseKill(Trim(text)).None?
    ensures QueryStep(s, g, Trim(text), a).0.lastInsertId ==
            if Inserts(s, g, Query(text), a) then a.executed.insertId else s.lastInsertId
  {
    hide ParseKill, Trim, SessionStep, IsCompatNoop, IsCanned, IsLoadData, NoopStep;
    SessionFrame(s, Trim(text));
    NoopFrame(s, g, Trim(text), a);
  }

  /** The database that new connections start in: that of the latest COM_INIT_DB or CREATE DATABASE of any connection,
      until a DROP DATABASE of that name. */
  lemma {:induction false} DefaultDatabaseExactly(s: State, g: Globals, c: Command, a: Answers)
    ensures Step(s, g, c, a).1.defaultDb ==
            if c.Init? then Nonblank(c.schema)
            else if !ReachesSchema(s, g, c, a) || !a.schemaOk then g.defaultDb
            else if CreateDatabaseName(Trim(c.text)).Some? then CreateDatabaseName(Trim(c.text))
            else if g.defaultDb == DropDatabaseName(Trim(c.text)) then None
            else g.defaultDb
  {
    hide ParseKill, Trim, SessionStep, IsCompatNoop, IsCanned, IsLoadData, PrepareStep, ExecuteStep, DatabaseName;
    match c {
      case Init(schema) => TrimTwice(schema);
      case Query(text) => CreatedIsTrimmed(Trim(text));
      case _ =>
    }
  }

  lemma CreatedIsTrimmed(text: string)
    ensures CreateDatabaseName(text).Some? ==> Cleaned(CreateDatabaseName(text)) == CreateDatabaseName(text)
  {
    hide Trim, DatabaseName;
    if DatabaseName(text, "CREATE DATABASE").Some? {
      DatabaseNameIsAWord(text, "CREATE DATABASE");
    } else if DatabaseName(text, "create database").Some? {
      DatabaseNameIsAWord(text, "create database");
    }
  }

  /** The text, if any, that a command has the session settings look at. */
  function SettingText(s: State, g: Globals, c: Command, a: Answers): Option<string> {
    if s.id in g.killed then None
    else if c.Query? && ParseKill(Trim(c.text)).None? && !a.dynamic then Some(Trim(c.text))
    else if c.Execute? && c.statement in s.prepared
            && !s.prepared[c.statement].canned && s.prepared[c.statement].postgres == "" then
      Some(s.prepared[c.statement].original)
    else None
  }

  /** The settings of a session are changed by its SET statements and by nothing else, sent as queries or executed. */
  lemma {:induction false} SettingsExactly(s: State, g: Globals, c: Command, a: Answers)
    ensures var (s', g', reply) := Step(s, g, c, a);
            var text := SettingText(s, g, c, a);
            if text.Some? && SessionStep(s, text.value).Changed? then
              s' == SessionStep(s, text.value).state && g' == g && reply == Done
            else
              && s'.charset == s.charset && s'.collation == s.collation && s'.sqlMode == s.sqlMode
              && s'.isolation == s.isolation
              && (text.Some? && SessionStep(s, text.value).Refused? ==> reply == Failed(Rejected))
  {
    hide ParseKill, Trim, SessionStep, IsCompatNoop, IsCanned, IsLoadData, NoopStep, PrepareStep, BindStep, Cleaned,
         Nonblank;
    match c {
      case Prepare(query) => PrepareFrame(s, query, a);
      case Execute(id, bound) => if id in s.prepared { BindKeepsSettings(s, s.prepared[id], bound, a); }
      case Query(text) => NoopFrame(s, g, Trim(text), a);
      case _ =>
    }
  }

  lemma BindKeepsSettings(s: State, st: Statement, bound: Option<nat>, a: Answers)
    ensures var s' := BindStep(s, st, bound, a).0; s' == s.(lastInsertId := s'.lastInsertId)
  {
    hide EmptyResult;
  }

  /** A new connection starts with these settings, in the default database, and with nothing prepared. */
  lemma {:induction false} NewConnection(events: seq<Event>)
    ensures var w := Run(events);
            var w' := Apply(w, Open);
            && w.openings in w'.live
            && var s := w'.live[w.openings];
            && s.prepared == map[] && s.nextStatement == 1 && s.lastInsertId == 0
            && s.currentDb == w.globals.defaultDb && s.id == (9 + w.openings) % TwoTo32
            && s.charset == "utf8mb4" && s.collation == "utf8mb4_general_ci"
            && s.sqlMode == "NO_AUTO_VALUE_ON_ZERO" && s.isolation == "REPEATABLE-READ"
  {
    hide Run;
    IdsByOrder(events);
  }
}
