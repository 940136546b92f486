/** Runs of the server: any number of connections, their commands interleaved in any order. */
module SessionRuns {
  import opened Text
  import opened Placeholders
  import opened SessionText
  import opened Session
  import opened Wire
  import Masking
  import NeutralMarks
  import ParameterCount
  import Passes
  import PostgresQuoting
  import Printing
  import SqlFunctions

  /** Connections are told apart by the order in which they were opened. `LongData` is a piece of a parameter, which the
      library keeps to itself, and `Garbled` a command whose text is no UTF-8. */
  datatype Event = Open | Command(connection: nat, command: Command, answers: Answers) | Disconnect(connection: nat)
                 | LongData(connection: nat, statement: nat) | Garbled(connection: nat)

  datatype World = World(globals: Globals, openings: nat, live: map<nat, State>, tables: map<nat, Table>)

  const Start := World(Globals(9, {}, None), 0, map[], map[])

  /** The statements that the library knows for a connection. */
  function TableOf(w: World, h: nat): Table {
    if h in w.tables then w.tables[h] else map[]
  }

  /** What a command on a live connection does. */
  function Outcome(w: World, e: Event): (State, Globals, Reply)
    requires e.Command? && e.connection in w.live
  {
    Serve(w.live[e.connection], TableOf(w, e.connection), w.globals, e.command, e.answers)
  }

  function Apply(w: World, e: Event): World {
    match e
    case Open =>
      World(Opened(w.globals), w.openings + 1, w.live[w.openings := NewState(w.globals)],
            w.tables[w.openings := map[]])
    case Disconnect(h) => w.(live := w.live - {h})
    case Garbled(h) => w.(live := w.live - {h})
    case LongData(h, id) => if id in TableOf(w, h) then w else w.(live := w.live - {h})
    case Command(h, c, _) =>
      if h !in w.live then w
      else
        var (s, g, reply) := Outcome(w, e);
        w.(globals := g, live := if reply.Aborted? || reply.Broken? then w.live - {h} else w.live[h := s],
           tables := w.tables[h := Tabled(TableOf(w, h), c, reply)])
  }

  function Run(events: seq<Event>): World {
    if events == [] then Start else Apply(Run(events[..|events| - 1]), events[|events| - 1])
  }

  // ---------------------------------------------------------------------------------------------------------------
  // What one step leaves alone

  /** The two states differ at most in the settings of the session. */
  predicate SameButSettings(s: State, s': State) {
    s' == s.(charset := s'.charset, collation := s'.collation, sqlMode := s'.sqlMode, isolation := s'.isolation)
  }

  /** The character set is one of two, and the collation one of its own. */
  predicate CharsetIsSound(s: State) {
    s.charset in {"utf8", "utf8mb4"} && s.charset + "_" <= s.collation
  }

  lemma SetNamesFrame(s: State, payload: string)
    ensures match SetNames(s, payload)
            case Changed(s') => SameButSettings(s, s') && CharsetIsSound(s')
            case _ => true
  {
    hide NamesCharset, NamesCollation, CollationName;
    assert "utf8" + "_" <= "utf8_general_ci" && "utf8mb4" + "_" <= "utf8mb4_general_ci";
  }

  lemma {:induction false} SessionFrame(s: State, query: string)
    ensures match SessionStep(s, query)
            case Changed(s') => SameButSettings(s, s') && (CharsetIsSound(s) ==> CharsetIsSound(s'))
            case _ => true
  {
    hide Bare, Trim, ToUpper, IsSetSqlMode, SqlModeValue, IsolationValue, SetNames;
    if "SET NAMES " <= ToUpper(Bare(query)) {
      SetNamesFrame(s, Trim(Bare(query)[10..]));
    }
  }

  lemma NoopFrame(s: State, g: Globals, text: string, a: Answers)
    ensures var (s', g', reply) := NoopStep(s, g, text, a);
            && s' == s.(currentDb := s'.currentDb) && g' == g.(defaultDb := g'.defaultDb)
            && reply in {Done, Broken} && (reply == Broken ==> s' == s && g' == g)
  {
    hide CreateDatabaseName, DropDatabaseName, Cleaned;
  }

  lemma {:induction false} QueryFrame(s: State, g: Globals, text: string, a: Answers)
    ensures var (s', g', reply) := QueryStep(s, g, text, a);
            && s'.id == s.id && s'.prepared == s.prepared && s'.nextStatement == s.nextStatement
            && g' == g.(defaultDb := g'.defaultDb)
            && reply != Aborted && (reply.Failed? ==> s' == s && g' == g)
            && (reply == Broken ==> s' == s.(lastInsertId := s'.lastInsertId) && g' == g)
  {
    hide SessionStep, IsCompatNoop, IsCanned, IsLoadData, NoopStep;
    SessionFrame(s, text);
    NoopFrame(s, g, text, a);
  }

  lemma {:induction false} ExecuteFrame(s: State, id: nat, bound: Option<nat>, a: Answers)
    ensures var (s', reply) := ExecuteStep(s, id, bound, a);
            && SameButSettings(s.(lastInsertId := s'.lastInsertId), s') && (CharsetIsSound(s) ==> CharsetIsSound(s'))
            && reply != Aborted && (reply.Failed? ==> s' == s)
            && (reply == Broken ==> s' == s.(lastInsertId := s'.lastInsertId))
  {
    hide SessionStep, IsCompatNoop, CharsetIsSound;
    if id in s.prepared {
      SessionFrame(s, s.prepared[id].original);
    }
    assert forall n :: CharsetIsSound(s.(lastInsertId := n)) == CharsetIsSound(s) by {
      forall n ensures CharsetIsSound(s.(lastInsertId := n)) == CharsetIsSound(s) {
        SameCharset(s, n);
      }
    }
  }

  lemma SameCharset(s: State, n: nat)
    ensures CharsetIsSound(s.(lastInsertId := n)) == CharsetIsSound(s)
  {
  }

  lemma PrepareFrame(s: State, query: string, a: Answers)
    ensures var (s', reply) := PrepareStep(s, query, a);
            && s' == s.(prepared := s'.prepared, nextStatement := s'.nextStatement)
            && if reply.Failed? then s' == s else reply.Prepared?
  {
    hide IsCompatNoop, IsCanned, CountFrom, Substituted, ParamNames;
  }

  /** The shared state that a step leaves. */
  lemma {:induction false} StepFrame(s: State, g: Globals, c: Command, a: Answers)
    ensures var (s', g', reply) := Step(s, g, c, a);
            && s'.id == s.id && g'.nextConnection == g.nextConnection
            && (reply == Aborted <==> Guarded(c) && s.id in g.killed)
            && g'.killed == if reply == Aborted then g.killed - {s.id}
                            else if c.Query? && ParseKill(Trim(c.text)).Some? then
                              g.killed + {ParseKill(Trim(c.text)).value}
                            else g.killed
  {
    hide PrepareStep, ExecuteStep, QueryStep, ParseKill, Trim, Nonblank, Cleaned;
    match c {
      case Prepare(query) => PrepareFrame(s, query, a);
      case Execute(id, bound) => ExecuteFrame(s, id, bound, a);
      case Query(text) => QueryFrame(s, g, Trim(text), a);
      case _ =>
    }
  }

  /** A command that fails, for whatever reason, leaves the session and the shared state as they were: so does a
      prepare whose translation fails, a rejected SET NAMES, a parameter count mismatch and a failed execution. A
      command that breaks the connection leaves all but the last insert id. */
  lemma {:induction false} FailureChangesNothing(s: State, g: Globals, c: Command, a: Answers)
    ensures var (s', g', reply) := Step(s, g, c, a);
            && (reply.Failed? ==> s' == s && g' == g)
            && (reply == Broken ==> s' == s.(lastInsertId := s'.lastInsertId) && g' == g)
  {
    hide PrepareStep, ExecuteStep, QueryStep, ParseKill, Trim, Nonblank, Cleaned;
    match c {
      case Prepare(query) => PrepareFrame(s, query, a);
      case Execute(id, bound) => ExecuteFrame(s, id, bound, a);
      case Query(text) => QueryFrame(s, g, Trim(text), a);
      case _ =>
    }
  }

  /** A command that the session gets to see, as it sees it, and what the library does with the others. */
  lemma ServeIsStep(s: State, t: Table, g: Globals, c: Command, a: Answers)
    ensures Reaches(t, c) ==> Serve(s, t, g, c, a) == Step(s, g, Handed(t, c), a)
    ensures !Reaches(t, c) ==> Serve(s, t, g, c, a) == (s, g, if AnswersItself(c) then Rows else Broken)
  {
    hide Step;
  }

  /** A KILL that the session gets to see. */
  predicate Kills(c: Command) {
    c.Query? && !AnswersItself(c) && ParseKill(Trim(c.text)).Some?
  }

  /** The shared state that a command leaves. */
  lemma {:induction false} ServeFrame(s: State, t: Table, g: Globals, c: Command, a: Answers)
    ensures var (s', g', reply) := Serve(s, t, g, c, a);
            && s'.id == s.id && g'.nextConnection == g.nextConnection
            && (reply == Aborted <==> Guarded(c) && Reaches(t, c) && s.id in g.killed)
            && g'.killed == if reply == Aborted then g.killed - {s.id}
                            else if Kills(c) then g.killed + {ParseKill(Trim(c.text)).value}
                            else g.killed
  {
    hide Serve, Step, ParseKill, Trim;
    ServeIsStep(s, t, g, c, a);
    if Reaches(t, c) {
      StepFrame(s, g, Handed(t, c), a);
    }
  }

  // ---------------------------------------------------------------------------------------------------------------
  // KILL

  /** What an onlooker sees: a KILL that was obeyed, or a command that was aborted. */
  datatype Sight = Kill(id: nat) | Abort(id: nat) | Other

  function Seen(w: World, e: Event): Sight {
    if !e.Command? || e.connection !in w.live then Other
    else if Outcome(w, e).2 == Aborted then Abort(w.live[e.connection].id)
    else if Kills(e.command) then Kill(ParseKill(Trim(e.command.text)).value)
    else Other
  }

  function Sights(events: seq<Event>): (r: seq<Sight>)
    ensures |r| == |events|
  {
    if events == [] then []
    else
      var before := events[..|events| - 1];
      Sights(before) + [Seen(Run(before), events[|events| - 1])]
  }

  /** Some KILL of `id` has not been followed by an abort. */
  predicate Pending(sights: seq<Sight>, id: nat) {
    exists i :: 0 <= i < |sights| && sights[i] == Kill(id) && forall j :: i < j < |sights| ==> sights[j] != Abort(id)
  }

  lemma {:induction false} PendingStep(sights: seq<Sight>, last: Sight, id: nat)
    ensures Pending(sights + [last], id) <==> last == Kill(id) || (Pending(sights, id) && last != Abort(id))
  {
    var all := sights + [last];
    if Pending(all, id) && last != Kill(id) {
      var i :| 0 <= i < |all| && all[i] == Kill(id) && forall j :: i < j < |all| ==> all[j] != Abort(id);
      assert all[|sights|] == last && sights[i] == Kill(id);
      forall j | i < j < |sights| ensures sights[j] != Abort(id) {
        assert all[j] == sights[j];
      }
    }
    if last == Kill(id) {
      assert all[|sights|] == Kill(id);
    } else if Pending(sights, id) && last != Abort(id) {
      var i :| 0 <= i < |sights| && sights[i] == Kill(id) && forall j :: i < j < |sights| ==> sights[j] != Abort(id);
      assert all[i] == Kill(id);
    }
  }

  /** Only an aborted command takes a connection out of the killed set, and only a KILL puts one in. */
  lemma {:induction false} KilledStep(w: World, e: Event, id: nat)
    ensures id in Apply(w, e).globals.killed <==>
            Seen(w, e) == Kill(id) || (id in w.globals.killed && Seen(w, e) != Abort(id))
  {
    hide Serve, ParseKill, Trim;
    if e.Command? && e.connection in w.live {
      ServeFrame(w.live[e.connection], TableOf(w, e.connection), w.globals, e.command, e.answers);
    }
  }

  /** A connection is in the killed set exactly if some KILL of it has not been followed by an abort of it. */
  lemma {:induction false} KilledExactly(events: seq<Event>, id: nat)
    ensures id in Run(events).globals.killed <==> Pending(Sights(events), id)
  {
    hide Apply, Seen;
    if events != [] {
      var before := events[..|events| - 1];
      KilledExactly(before, id);
      KilledStep(Run(before), events[|events| - 1], id);
      PendingStep(Sights(before), Seen(Run(before), events[|events| - 1]), id);
    }
  }

  /** The next query or execute of a killed connection that the session gets to see aborts and ends it; nothing else
      aborts. */
  lemma {:induction false} KilledConnectionAborts(events: seq<Event>, e: Event)
    requires e.Command? && e.connection in Run(events).live
    ensures var w := Run(events);
            Outcome(w, e).2 == Aborted <==>
            Guarded(e.command) && Reaches(TableOf(w, e.connection), e.command)
            && Pending(Sights(events), w.live[e.connection].id)
    ensures Outcome(Run(events), e).2 == Aborted ==> e.connection !in Apply(Run(events), e).live
  {
    hide Run, Sights, Pending, Serve;
    var w := Run(events);
    KilledExactly(events, w.live[e.connection].id);
    ServeFrame(w.live[e.connection], TableOf(w, e.connection), w.globals, e.command, e.answers);
  }

  function Count(sights: seq<Sight>, sight: Sight): nat {
    multiset(sights)[sight]
  }

  /** No connection is aborted more often than it is killed. */
  lemma {:induction false} AbortsAtMostKills(events: seq<Event>, id: nat)
    ensures Count(Sights(events), Abort(id)) + (if id in Run(events).globals.killed then 1 else 0) <=
            Count(Sights(events), Kill(id))
  {
    hide Apply, Seen;
    if events != [] {
      var before := events[..|events| - 1];
      var last := Seen(Run(before), events[|events| - 1]);
      AbortsAtMostKills(before, id);
      KilledStep(Run(before), events[|events| - 1], id);
      assert multiset(Sights(before) + [last]) == multiset(Sights(before)) + multiset{last};
      if last == Abort(id) {
        AbortMeansKilled(Run(before), events[|events| - 1], id);
      }
    }
  }

  lemma {:induction false} AbortMeansKilled(w: World, e: Event, id: nat)
    requires Seen(w, e) == Abort(id)
    ensures id in w.globals.killed
  {
    hide Serve, ParseKill, Trim;
    ServeFrame(w.live[e.connection], TableOf(w, e.connection), w.globals, e.command, e.answers);
  }

  // ---------------------------------------------------------------------------------------------------------------
  // Connection ids

  predicate IdsFit(w: World) {
    && w.globals.nextConnection == (9 + w.openings) % TwoTo32
    && forall h :: h in w.live ==> h < w.openings && w.live[h].id == (9 + h) % TwoTo32
  }

  lemma {:induction false} IdsStep(w: World, e: Event)
    requires IdsFit(w)
    ensures IdsFit(Apply(w, e))
  {
    hide Serve, TableOf, Tabled;
    if e.Command? && e.connection in w.live {
      ServeFrame(w.live[e.connection], TableOf(w, e.connection), w.globals, e.command, e.answers);
    }
  }

  /** The id of a connection is given by how many were opened before it. */
  lemma {:induction false} IdsByOrder(events: seq<Event>)
    ensures var w := Run(events);
            && w.globals.nextConnection == (9 + w.openings) % TwoTo32
            && forall h :: h in w.live ==> h < w.openings && w.live[h].id == (9 + h) % TwoTo32
  {
    hide Apply;
    if events != [] {
      IdsByOrder(events[..|events| - 1]);
      IdsStep(Run(events[..|events| - 1]), events[|events| - 1]);
    }
  }

  /** Two live connections share an id exactly if their places in the order are equal modulo 2^32; so never while
      fewer than 2^32 were opened. */
  lemma {:induction false} IdsAreDistinct(events: seq<Event>, h: nat, k: nat)
    requires h in Run(events).live && k in Run(events).live
    ensures Run(events).live[h].id == Run(events).live[k].id <==> (h - k) % TwoTo32 == 0
    ensures Run(events).openings <= TwoTo32 && h != k ==> Run(events).live[h].id != Run(events).live[k].id
  {
    hide Run;
    IdsByOrder(events);
    SameRemainder(9 + h, 9 + k);
  }

  lemma SameRemainder(a: nat, b: nat)
    ensures a % TwoTo32 == b % TwoTo32 <==> (a - b) % TwoTo32 == 0
    ensures a != b && a < b + TwoTo32 && b < a + TwoTo32 ==> (a - b) % TwoTo32 != 0
  {
  }

  // ---------------------------------------------------------------------------------------------------------------
  // What every session keeps

  predicate NotBlank(db: Option<string>) {
    db.Some? ==> !Blank(db.value)
  }

  predicate StatementIsSound(st: Statement) {
    st.params == ParamNames(CountPlaceholders(st.original))
  }

  predicate IsSound(s: State) {
    && CharsetIsSound(s)
    && NotBlank(s.currentDb)
    && forall id :: id in s.prepared ==> StatementIsSound(s.prepared[id])
  }

  predicate IsAdmissible(e: Event) {
    e.Command? && e.command.Prepare? && e.answers.dynamic ==> MayBeDynamic(e.command.query)
  }

  /** Text without a question mark holds no placeholder. */
  lemma {:induction false} NoQuestionMark(st: Lexer.State, s: string)
    requires '?' !in s
    ensures CountFrom(st, s) == 0
    decreases s
  {
    if s != "" {
      NoQuestionMark(Placeholders.Next(st, s[0]), s[1..]);
    }
  }

  lemma UpperHasNone(s: string, t: string)
    requires EqIgnoreCase(s, t) && '?' !in t
    ensures '?' !in s
  {
    hide ToUpper;
    forall k | 0 <= k < |s| ensures s[k] != '?' {
      assert ToUpper(s)[k] == ToUpper(t)[k];
      assert t[k] != '?';
    }
  }

  lemma VariableHasNone(text: string)
    requires MayNameVariable(text)
    ensures '?' !in text
  {
  }

  lemma ShowHasNone(text: string)
    ensures EqIgnoreCase(text, "SHOW GLOBAL VARIABLES LIKE 'T%_ISOLATION'") ==> '?' !in text
  {
    hide EqIgnoreCase;
    if EqIgnoreCase(text, "SHOW GLOBAL VARIABLES LIKE 'T%_ISOLATION'") {
      UpperHasNone(text, "SHOW GLOBAL VARIABLES LIKE 'T%_ISOLATION'");
    }
  }

  lemma DynamicHasNone(query: string)
    ensures MayBeDynamic(query) ==> '?' !in Trim(query)
  {
    hide Trim, EqIgnoreCase, MayNameVariable;
    var text := Trim(query);
    ShowHasNone(text);
    if MayNameVariable(text) {
      VariableHasNone(text);
    } else if EqIgnoreCase(text, "SELECT CONNECTION_ID()") {
      UpperHasNone(text, "SELECT CONNECTION_ID()");
    } else if EqIgnoreCase(text, "SELECT DATABASE()") {
      UpperHasNone(text, "SELECT DATABASE()");
    } else if EqIgnoreCase(text, "SELECT @@COLLATION_CONNECTION") {
      UpperHasNone(text, "SELECT @@COLLATION_CONNECTION");
    }
  }

  /** A query with a dynamic canned response holds no placeholder, so that storing no parameters for it is right. */
  lemma {:induction false} DynamicHasNoPlaceholder(query: string)
    ensures MayBeDynamic(query) ==> CountPlaceholders(query) == 0
  {
    hide Trim, MayBeDynamic, CountFrom;
    if MayBeDynamic(query) {
      DynamicHasNone(query);
      var lead, trail := TrimSplits(query);
      assert '?' !in query;
      NoQuestionMark(Lexer.Code, query);
    }
  }

  lemma NonblankIsNotBlank(name: string)
    ensures NotBlank(Nonblank(name)) && NotBlank(Cleaned(Nonblank(name)))
  {
    hide Trim;
    TrimTwice(name);
  }

  lemma NoopKeepsNames(s: State, g: Globals, text: string, a: Answers)
    requires NotBlank(s.currentDb) && NotBlank(g.defaultDb)
    ensures var (s', g', _) := NoopStep(s, g, text, a); NotBlank(s'.currentDb) && NotBlank(g'.defaultDb)
  {
    hide Trim, DatabaseName;
    var created := CreateDatabaseName(text);
    if created.Some? {
      DatabaseNameIsAWord(text, if DatabaseName(text, "CREATE DATABASE").Some? then "CREATE DATABASE"
                                else "create database");
      NonblankIsNotBlank(created.value);
    }
  }

  lemma {:induction false} QueryKeepsNames(s: State, g: Globals, text: string, a: Answers)
    requires NotBlank(s.currentDb) && NotBlank(g.defaultDb) && CharsetIsSound(s)
    ensures var (s', g', _) := QueryStep(s, g, text, a);
            NotBlank(s'.currentDb) && NotBlank(g'.defaultDb) && CharsetIsSound(s')
  {
    hide SessionStep, IsCompatNoop, IsCanned, IsLoadData, NoopStep, CharsetIsSound, NotBlank;
    SessionFrame(s, text);
    NoopKeepsNames(s, g, text, a);
    NoopFrame(s, g, text, a);
    var (s', _, _) := NoopStep(s, g, text, a);
    assert CharsetIsSound(s') == CharsetIsSound(s) by {
      OtherDatabase(s, s'.currentDb);
    }
    if a.executed.Result? {
      SameCharset(s, a.executed.insertId);
    }
  }

  lemma OtherDatabase(s: State, db: Option<string>)
    ensures CharsetIsSound(s.(currentDb := db)) == CharsetIsSound(s)
  {
  }

  lemma {:induction false} PrepareIsSound(s: State, query: string, a: Answers)
    requires IsSound(s) && (a.dynamic ==> MayBeDynamic(query))
    ensures IsSound(PrepareStep(s, query, a).0)
  {
    hide IsCompatNoop, IsCanned, MayBeDynamic, CountFrom, Substituted, ParamNames, NotBlank;
    PrepareFrame(s, query, a);
    var s' := PrepareStep(s, query, a).0;
    if a.dynamic {
      DynamicHasNoPlaceholder(query);
      assert ParamNames(0) == [];
    }
    if s' != s {
      assert s'.prepared == s.prepared[s.nextStatement := s'.prepared[s.nextStatement]];
      assert StatementIsSound(s'.prepared[s.nextStatement]);
    }
  }

  lemma {:induction false} StepIsSound(s: State, g: Globals, c: Command, a: Answers)
    requires IsSound(s) && NotBlank(g.defaultDb) && (c.Prepare? && a.dynamic ==> MayBeDynamic(c.query))
    ensures IsSound(Step(s, g, c, a).0) && NotBlank(Step(s, g, c, a).1.defaultDb)
  {
    hide PrepareStep, ExecuteStep, QueryStep, ParseKill, Trim, Nonblank, Cleaned, MayBeDynamic, NotBlank,
         StatementIsSound;
    match c {
      case Init(schema) => NonblankIsNotBlank(schema);
      case Prepare(query) => PrepareIsSound(s, query, a);
      case Execute(id, bound) => ExecuteFrame(s, id, bound, a);
      case Query(text) =>
        QueryFrame(s, g, Trim(text), a);
        QueryKeepsNames(s, g, Trim(text), a);
      case _ =>
    }
  }

  /** In every reachable world every session has a known character set with a collation of that set, a database that
      is not blank, and for each prepared statement as many parameters as its text has placeholders; and the shared
      default database is not blank. */
  lemma {:induction false} SessionsAreSound(events: seq<Event>)
    requires forall k :: 0 <= k < |events| ==> IsAdmissible(events[k])
    ensures NotBlank(Run(events).globals.defaultDb)
    ensures forall h :: h in Run(events).live ==> IsSound(Run(events).live[h])
  {
    hide Serve, IsSound, NotBlank, MayBeDynamic;
    if events == [] {
      StartIsSound();
    } else {
      var (before, e) := (events[..|events| - 1], events[|events| - 1]);
      assert IsAdmissible(e);
      SessionsAreSound(before);
      var w := Run(before);
      if e.Open? {
        NewIsSound(w.globals);
      } else if e.Command? && e.connection in w.live {
        var (s, t) := (w.live[e.connection], TableOf(w, e.connection));
        ServeIsStep(s, t, w.globals, e.command, e.answers);
        if Reaches(t, e.command) {
          StepIsSound(s, w.globals, Handed(t, e.command), e.answers);
        }
      }
    }
  }

  lemma StartIsSound()
    ensures NotBlank(Start.globals.defaultDb)
  {
  }

  lemma NewIsSound(g: Globals)
    requires NotBlank(g.defaultDb)
    ensures IsSound(NewState(g)) && NotBlank(Opened(g).defaultDb)
  {
    assert "utf8mb4" + "_" <= "utf8mb4_general_ci";
  }

  // ---------------------------------------------------------------------------------------------------------------
  // Prepared statements

  /** A prepare that succeeded on connection `h`. */
  predicate Prepares(w: World, e: Event, h: nat) {
    e.Command? && e.connection == h && h in w.live && e.command.Prepare? && Outcome(w, e).2.Prepared?
  }

  function PreparesOf(events: seq<Event>, h: nat): (n: nat)
    ensures n <= |events|
  {
    if events == [] then 0
    else
      var before := events[..|events| - 1];
      PreparesOf(before, h) + if Prepares(Run(before), events[|events| - 1], h) then 1 else 0
  }

  /** How a step changes what is prepared: a prepare that succeeds adds the next id, a close removes one. */
  lemma {:induction false} StatementFrame(s: State, g: Globals, c: Command, a: Answers)
    ensures var (s', _, reply) := Step(s, g, c, a);
            && (reply.Prepared? ==> c.Prepare?)
            && if reply.Prepared? then
                 && reply.id == s.nextStatement && s'.nextStatement == Increment(s.nextStatement)
                 && s.nextStatement in s'.prepared
                 && s'.prepared == s.prepared[s.nextStatement := s'.prepared[s.nextStatement]]
                 && reply.params == s'.prepared[s.nextStatement].params
               else
                 && s'.nextStatement == s.nextStatement
                 && s'.prepared == if c.Close? then s.prepared - {c.closed} else s.prepared
  {
    hide ExecuteStep, QueryStep, ParseKill, Trim, Nonblank, Cleaned, IsCompatNoop, IsCanned, CountFrom, Substituted,
         ParamNames;
    match c {
      case Prepare(query) => PrepareFrame(s, query, a);
      case Execute(id, bound) =>
        ExecuteFrame(s, id, bound, a);
        ExecuteRepliesPlainly(s, id, bound, a);
      case Query(text) =>
        QueryFrame(s, g, Trim(text), a);
        QueryRepliesPlainly(s, g, Trim(text), a);
      case _ =>
    }
  }

  lemma {:induction false} ServedStatements(s: State, t: Table, g: Globals, c: Command, a: Answers)
    ensures var (s', _, reply) := Serve(s, t, g, c, a);
            && (reply.Prepared? ==> c.Prepare?)
            && if reply.Prepared? then
                 && reply.id == s.nextStatement && s'.nextStatement == Increment(s.nextStatement)
                 && s.nextStatement in s'.prepared
                 && s'.prepared == s.prepared[s.nextStatement := s'.prepared[s.nextStatement]]
                 && reply.params == s'.prepared[s.nextStatement].params
               else
                 && s'.nextStatement == s.nextStatement
                 && s'.prepared == if c.Close? then s.prepared - {c.closed} else s.prepared
  {
    hide Serve, Step;
    ServeIsStep(s, t, g, c, a);
    if Reaches(t, c) {
      StatementFrame(s, g, Handed(t, c), a);
    }
  }

  lemma ExecuteRepliesPlainly(s: State, id: nat, bound: Option<nat>, a: Answers)
    ensures !ExecuteStep(s, id, bound, a).1.Prepared?
    ensures id in s.prepared ==> ExecuteStep(s, id, bound, a).1 != Failed(UnknownStatement)
  {
    hide SessionStep, IsCompatNoop, Contains;
  }

  lemma {:induction false} QueryRepliesPlainly(s: State, g: Globals, text: string, a: Answers)
    ensures !QueryStep(s, g, text, a).2.Prepared? && QueryStep(s, g, text, a).2 != Failed(UnknownStatement)
  {
    hide SessionStep, IsCompatNoop, IsCanned, IsLoadData, NoopStep;
    NoopFrame(s, g, text, a);
  }

  /** A connection that is live now was live, or not yet open, at any earlier time. */
  lemma LiveStep(w: World, e: Event, h: nat)
    requires h in Apply(w, e).live && (forall k :: k in w.live ==> k < w.openings)
    ensures h in w.live || (e.Open? && h == w.openings)
    ensures h < Apply(w, e).openings
  {
    hide Serve;
  }

  /** What one event does to the statements of a connection that stays live. */
  lemma {:induction false} EventFrame(w: World, e: Event, h: nat)
    requires h in w.live && h in Apply(w, e).live && (forall k :: k in w.live ==> k < w.openings)
    ensures var (s, s') := (w.live[h], Apply(w, e).live[h]);
            if Prepares(w, e, h) then
              && s'.nextStatement == Increment(s.nextStatement) && Outcome(w, e).2.id == s.nextStatement
              && s.nextStatement in s'.prepared
              && s'.prepared == s.prepared[s.nextStatement := s'.prepared[s.nextStatement]]
            else
              && s'.nextStatement == s.nextStatement
              && forall id :: id in s'.prepared ==> id in s.prepared && s'.prepared[id] == s.prepared[id]
  {
    hide Serve;
    if e.Command? && e.connection == h {
      ServedStatements(w.live[h], TableOf(w, h), w.globals, e.command, e.answers);
    }
  }

  /** The statement counter of a live connection tells how many prepares have succeeded on it, modulo 2^32. */
  lemma {:induction false} CounterCounts(events: seq<Event>, h: nat)
    ensures forall k :: k in Run(events).live ==> k < Run(events).openings
    ensures h in Run(events).live ==>
              Run(events).live[h].nextStatement == (1 + PreparesOf(events, h)) % TwoTo32
    ensures h >= Run(events).openings ==> PreparesOf(events, h) == 0
  {
    hide Serve, Apply, Prepares;
    if events != [] {
      var (before, e) := (events[..|events| - 1], events[|events| - 1]);
      var w := Run(before);
      CounterCounts(before, h);
      OpeningsGrow(w, e, h);
      if h in w.live && h in Apply(w, e).live {
        EventFrame(w, e, h);
      }
      forall k | k in Apply(w, e).live ensures k < Apply(w, e).openings {
        LiveStep(w, e, k);
      }
      if h in Apply(w, e).live {
        LiveStep(w, e, h);
      }
    }
  }

  lemma OpeningsGrow(w: World, e: Event, h: nat)
    requires forall k :: k in w.live ==> k < w.openings
    ensures w.openings <= Apply(w, e).openings
    ensures h >= w.openings ==> !Prepares(w, e, h)
    ensures e.Open? ==> Apply(w, e).live == w.live[w.openings := NewState(w.globals)] && !Prepares(w, e, h)
  {
    hide Serve;
  }

  /** The k-th prepare that succeeds on a connection is given the id k, modulo 2^32: so no id is given twice while
      fewer than 2^32 prepares have succeeded, whatever is closed in between. */
  lemma IdsAreNumbered(events: seq<Event>, e: Event)
    requires e.Command? && Prepares(Run(events), e, e.connection)
    ensures Outcome(Run(events), e).2.id == (1 + PreparesOf(events, e.connection)) % TwoTo32
  {
    hide Serve, Run;
    var w := Run(events);
    CounterCounts(events, e.connection);
    ServedStatements(w.live[e.connection], TableOf(w, e.connection), w.globals, e.command, e.answers);
  }

  /** Prepared ids lie below the counter. */
  lemma {:induction false} IdsAreBelowCounter(events: seq<Event>, h: nat)
    requires h in Run(events).live && 1 + PreparesOf(events, h) < TwoTo32
    ensures Run(events).live[h].nextStatement == 1 + PreparesOf(events, h)
    ensures forall id :: id in Run(events).live[h].prepared ==> 1 <= id < Run(events).live[h].nextStatement
  {
    hide Serve, Apply, Prepares;
    CounterCounts(events, h);
    if events != [] {
      var (before, e) := (events[..|events| - 1], events[|events| - 1]);
      var w := Run(before);
      CounterCounts(before, h);
      LiveStep(w, e, h);
      OpeningsGrow(w, e, h);
      if h in w.live {
        IdsAreBelowCounter(before, h);
        EventFrame(w, e, h);
      }
    }
  }

  /** A statement that is present later was already there with the same contents if its id had been given out: a
      closed statement never comes back, and an id never changes its meaning. */
  lemma {:induction false} IdsAreNotReused(events: seq<Event>, more: seq<Event>, h: nat, id: nat)
    requires h in Run(events).live && h in Run(events + more).live && 1 + PreparesOf(events + more, h) < TwoTo32
    requires id < Run(events).live[h].nextStatement && id in Run(events + more).live[h].prepared
    ensures id in Run(events).live[h].prepared
    ensures Run(events).live[h].prepared[id] == Run(events + more).live[h].prepared[id]
    decreases |more|
  {
    hide Serve, Apply, Prepares;
    if more == [] {
      assert events + more == events;
    } else {
      var (fewer, e) := (more[..|more| - 1], more[|more| - 1]);
      var (before, after) := (events + fewer, events + more);
      assert after[..|after| - 1] == before && after[|after| - 1] == e;
      CounterCounts(events, h);
      CounterCounts(before, h);
      OpeningsOnlyGrow(events, fewer);
      LiveStep(Run(before), e, h);
      EventFrame(Run(before), e, h);
      IdsAreBelowCounter(before, h);
      CounterGrows(events, fewer, h);
      IdsAreBelowCounter(events, h);
      IdsAreNotReused(events, fewer, h, id);
    }
  }

  lemma {:induction false} OpeningsOnlyGrow(events: seq<Event>, more: seq<Event>)
    ensures Run(events).openings <= Run(events + more).openings
    decreases |more|
  {
    hide Serve;
    if more == [] {
      assert events + more == events;
    } else {
      var fewer := more[..|more| - 1];
      assert (events + more)[..|events + more| - 1] == events + fewer;
      OpeningsOnlyGrow(events, fewer);
    }
  }

  lemma {:induction false} CounterGrows(events: seq<Event>, more: seq<Event>, h: nat)
    ensures PreparesOf(events, h) <= PreparesOf(events + more, h)
    decreases |more|
  {
    hide Serve, Run, Prepares;
    if more == [] {
      assert events + more == events;
    } else {
      var fewer := more[..|more| - 1];
      assert (events + more)[..|events + more| - 1] == events + fewer;
      CounterGrows(events, fewer, h);
    }
  }

  /** Executing a statement that goes to PostgreSQL is refused for a parameter count exactly if the count differs from
      the placeholders of the text that was prepared, whatever number of parameters is handed over. */
  lemma {:induction false} MismatchExactly(events: seq<Event>, h: nat, id: nat, n: nat, a: Answers)
    requires forall k :: 0 <= k < |events| ==> IsAdmissible(events[k])
    requires h in Run(events).live && id in Run(events).live[h].prepared
    requires var s := Run(events).live[h];
             s.id !in Run(events).globals.killed && !s.prepared[id].canned && s.prepared[id].postgres != ""
    ensures var s := Run(events).live[h];
            var expected := CountPlaceholders(s.prepared[id].original);
            Step(s, Run(events).globals, Execute(id, Some(n)), a).2 == Failed(Mismatch(expected, n)) <==>
            n != expected
  {
    hide Run, CountFrom, StatementIsSound, Step, IsAdmissible;
    SessionsAreSound(events);
    var s := Run(events).live[h];
    assert IsSound(s);
    BindExactly(s, Run(events).globals, id, n, a);
  }

  lemma BindExactly(s: State, g: Globals, id: nat, n: nat, a: Answers)
    requires s.id !in g.killed && id in s.prepared && !s.prepared[id].canned && s.prepared[id].postgres != ""
    requires StatementIsSound(s.prepared[id])
    ensures var expected := CountPlaceholders(s.prepared[id].original);
            Step(s, g, Execute(id, Some(n)), a).2 == Failed(Mismatch(expected, n)) <==> n != expected
  {
    hide CountFrom, SessionStep, IsCompatNoop, EmptyResult, Finished;
    if n == |s.prepared[id].params| {
      BindReplies(s, s.prepared[id], Some(n), a);
    }
  }

  /** Binding comes to no mismatch but that of the parameters. */
  lemma BindReplies(s: State, st: Statement, bound: Option<nat>, a: Answers)
    requires bound.Some? && |st.params| == bound.value
    ensures var (s', reply) := BindStep(s, st, bound, a);
            reply in {Done, Rows, Broken, Failed(NotExecuted)} && s' == s.(lastInsertId := s'.lastInsertId)
  {
    hide Contains;
  }

  /** Where the function rewrites are all that the translator does to a clean text, the parameters promised at prepare
      time are exactly as many as the numbers in the text sent to PostgreSQL. */
  lemma {:induction false} PromisedIsNumbered(s: State, query: string, a: Answers)
    requires NeutralMarks.Clean(query) && a.translation == Some(SqlFunctions.RewriteFunctions(query))
    requires !a.dynamic && !IsCompatNoop(query)
    ensures var (s', reply) := PrepareStep(s, query, a);
            && reply.Prepared? && s'.prepared[s.nextStatement].postgres == Numbered(a.translation.value)
            && |reply.params| == CountPlaceholders(a.translation.value)
  {
    hide IsCompatNoop, IsCanned, CountFrom, Substituted, ParamNames, SqlFunctions.RewriteFunctions, NeutralMarks.Clean;
    ParameterCount.PlaceholderCountIsConserved(query);
  }

  /** The same through all hand-written passes, with literals parsed and printed between them. */
  lemma {:induction false} PromisedThroughPasses(s: State, query: string, a: Answers)
    requires NeutralMarks.Clean(query) && Passes.Passable(query) && Printing.Printable(query)
    requires a.translation == Some(Printing.AllPasses(query))
    requires !a.dynamic && !IsCompatNoop(query)
    ensures var (s', reply) := PrepareStep(s, query, a);
            && reply.Prepared? && s'.prepared[s.nextStatement].postgres == Numbered(a.translation.value)
            && |reply.params| == CountPlaceholders(a.translation.value)
  {
    hide IsCompatNoop, IsCanned, CountFrom, Substituted, ParamNames, Printing.AllPasses, NeutralMarks.Clean,
         Passes.Passable, Printing.Printable;
    Printing.PassesKeepCount(query);
  }

  /** The text stored for PostgreSQL has its numbers where PostgreSQL reads the placeholders, unless an unpaired
      backslash stands before a quote that closes a literal. */
  lemma {:induction false} StoredIsNumberedForPostgres(s: State, query: string, a: Answers)
    requires a.translation.Some? && PostgresQuoting.IsPrinted(a.translation.value)
    requires !Masking.ShieldedQuote(Lexer.Code, a.translation.value)
    requires !a.dynamic && !IsCompatNoop(query)
    ensures var (s', reply) := PrepareStep(s, query, a);
            && reply.Prepared?
            && s'.prepared[s.nextStatement].postgres ==
               PostgresQuoting.PostgresNumbered(Lexer.Code, a.translation.value, 0)
  {
    hide IsCompatNoop, IsCanned, CountFrom, Substituted, ParamNames, PostgresQuoting.PostgresNumbered,
         PostgresQuoting.IsPrinted, Masking.ShieldedQuote;
    PostgresQuoting.NumberedReadsPostgres(a.translation.value);
  }

  // ---------------------------------------------------------------------------------------------------------------
  // The table of the library

  /** The table knows the prepared statements, with their parameters counted in 16 bits. */
  predicate Follows(t: Table, s: State) {
    && t.Keys == s.prepared.Keys
    && forall id :: id in t ==> t[id] == |s.prepared[id].params| % 0x1_0000
  }

  lemma {:induction false} ServeFollows(s: State, t: Table, g: Globals, c: Command, a: Answers)
    requires Follows(t, s)
    ensures var (s', _, reply) := Serve(s, t, g, c, a); Follows(Tabled(t, c, reply), s')
  {
    hide Serve;
    ServedStatements(s, t, g, c, a);
  }

  /** In every reachable world the table of the library knows, for each live connection, exactly the statements that
      the session has prepared: so the session is never asked for one that it does not have. */
  lemma {:induction false} TablesFollow(events: seq<Event>, h: nat)
    requires h in Run(events).live
    ensures Follows(TableOf(Run(events), h), Run(events).live[h])
  {
    hide Serve, Follows, Tabled;
    var (before, e) := (events[..|events| - 1], events[|events| - 1]);
    var w := Run(before);
    CounterCounts(before, h);
    LiveStep(w, e, h);
    if h in w.live {
      TablesFollow(before, h);
      if e.Command? && e.connection == h {
        ServeFollows(w.live[h], TableOf(w, h), w.globals, e.command, e.answers);
      }
    } else {
      NothingIsKnown(w.globals);
    }
  }

  lemma NothingIsKnown(g: Globals)
    ensures Follows(map[], NewState(g))
  {
  }

  lemma NeverUnknown(events: seq<Event>, e: Event)
    requires e.Command? && e.connection in Run(events).live
    ensures Outcome(Run(events), e).2 != Failed(UnknownStatement)
  {
    hide Run, Step;
    var (w, h) := (Run(events), e.connection);
    var (s, t) := (w.live[h], TableOf(w, h));
    TablesFollow(events, h);
    ServeIsStep(s, t, w.globals, e.command, e.answers);
    if Reaches(t, e.command) {
      KnownIsNotUnknown(s, w.globals, Handed(t, e.command), e.answers);
    }
  }

  lemma {:induction false} KnownIsNotUnknown(s: State, g: Globals, c: Command, a: Answers)
    requires c.Execute? ==> c.statement in s.prepared
    ensures Step(s, g, c, a).2 != Failed(UnknownStatement)
  {
    hide ParseKill, Trim, PrepareStep, ExecuteStep, QueryStep, Cleaned, Nonblank;
    match c {
      case Prepare(query) => PrepareKnows(s, query, a);
      case Execute(id, bound) => ExecuteRepliesPlainly(s, id, bound, a);
      case Query(text) => QueryRepliesPlainly(s, g, Trim(text), a);
      case _ =>
    }
  }

  lemma PrepareKnows(s: State, query: string, a: Answers)
    ensures PrepareStep(s, query, a).1 != Failed(UnknownStatement)
  {
    hide IsCompatNoop, IsCanned, CountFrom, Substituted, ParamNames;
  }

  /** So an execute is refused for its parameter count exactly if the prepared text has more placeholders than 16 bits
      can count. */
  lemma {:induction false} MismatchOverTheWire(events: seq<Event>, e: Event)
    requires forall k :: 0 <= k < |events| ==> IsAdmissible(events[k])
    requires e.Command? && e.connection in Run(events).live && e.command.Execute? && e.command.bound.Some?
    requires var s := Run(events).live[e.connection];
             && s.id !in Run(events).globals.killed && e.command.statement in s.prepared
             && !s.prepared[e.command.statement].canned && s.prepared[e.command.statement].postgres != ""
    ensures var n := CountPlaceholders(Run(events).live[e.connection].prepared[e.command.statement].original);
            Outcome(Run(events), e).2 == Failed(Mismatch(n, n % 0x1_0000)) <==> n >= 0x1_0000
  {
    hide Run, CountFrom, StatementIsSound, Step, IsAdmissible, ParamNames, Follows;
    var (w, h, id) := (Run(events), e.connection, e.command.statement);
    var (s, t) := (w.live[h], TableOf(w, h));
    SessionsAreSound(events);
    assert IsSound(s);
    ParamsOf(s.prepared[id]);
    TablesFollow(events, h);
    assert id in t && t[id] == |s.prepared[id].params| % 0x1_0000 by {
      TableEntry(t, s, id);
    }
    ServeIsStep(s, t, w.globals, e.command, e.answers);
    MismatchExactly(events, h, id, t[id], e.answers);
  }

  lemma TableEntry(t: Table, s: State, id: nat)
    requires Follows(t, s) && id in s.prepared
    ensures id in t && t[id] == |s.prepared[id].params| % 0x1_0000
  {
  }

  lemma {:induction false} ParamsOf(st: Statement)
    requires StatementIsSound(st)
    ensures |st.params| == CountPlaceholders(st.original)
  {
  }
}
