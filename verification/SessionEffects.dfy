/** What ends a connection, and what chooses its database. */
module SessionEffects {
  import opened Text
  import opened Placeholders
  import opened SessionText
  import opened Session
  import opened Wire
  import opened SessionRuns

  /** A query that passes the tests of `on_query` up to those for statements of the session. */
  predicate PassesSession(s: State, g: Globals, c: Command, a: Answers) {
    && c.Query? && s.id !in g.killed && ParseKill(Trim(c.text)).None? && !a.dynamic
    && SessionStep(s, Trim(c.text)) == Untouched
  }

  /** It then reaches CREATE DATABASE or DROP DATABASE. */
  predicate ReachesSchema(s: State, g: Globals, c: Command, a: Answers) {
    && PassesSession(s, g, c, a) && IsCompatNoop(Trim(c.text))
    && (CreateDatabaseName(Trim(c.text)).Some? || DropDatabaseName(Trim(c.text)).Some?)
  }

  /** Or it reaches PostgreSQL. */
  predicate QueryReaches(s: State, g: Globals, c: Command, a: Answers) {
    && PassesSession(s, g, c, a) && !IsCompatNoop(Trim(c.text)) && !IsCanned(Trim(c.text))
    && !IsLoadData(Trim(c.text)) && a.translation.Some?
  }

  /** An execute that reaches PostgreSQL. */
  predicate ExecuteReaches(s: State, g: Globals, c: Command) {
    && c.Execute? && s.id !in g.killed && c.statement in s.prepared
    && var st := s.prepared[c.statement];
    && !st.canned && c.bound == Some(|st.params|)
    && (st.postgres != "" || (SessionStep(s, st.original) == Untouched && !IsCompatNoop(st.original)))
  }

  /** Columns are announced, and some row has more or fewer values. */
  predicate Misfit(columns: nat, rows: seq<nat>) {
    columns > 0 && exists k :: 0 <= k < |rows| && rows[k] != columns
  }

  /** The result of the command does not fit the columns announced for it: its own for a query, those stored at prepare
      time for an execute. */
  predicate RowsMisfit(s: State, g: Globals, c: Command, a: Answers) {
    && a.executed.Result?
    && (|| (QueryReaches(s, g, c, a) && Misfit(a.executed.columns, a.executed.rows))
        || (ExecuteReaches(s, g, c)
            && var st := s.prepared[c.statement];
            && !(st.params == [] && ';' in st.postgres)
            && Misfit(Shown(|st.columns|, a.executed.columns), a.executed.rows)))
  }

  lemma {:induction false} QueryBreaks(s: State, g: Globals, text: string, a: Answers)
    requires s.id !in g.killed && ParseKill(Trim(text)).None?
    ensures QueryStep(s, g, Trim(text), a).2 == Broken <==>
            (ReachesSchema(s, g, Query(text), a) && !a.schemaOk) || RowsMisfit(s, g, Query(text), a)
  {
    hide ParseKill, Trim, SessionStep, IsCompatNoop, IsCanned, IsLoadData, CreateDatabaseName, DropDatabaseName,
         Cleaned;
  }

  lemma {:induction false} ExecuteBreaks(s: State, g: Globals, id: nat, bound: Option<nat>, a: Answers)
    requires s.id !in g.killed
    ensures ExecuteStep(s, id, bound, a).1 == Broken <==> RowsMisfit(s, g, Execute(id, bound), a)
  {
    hide SessionStep, IsCompatNoop, Contains;
  }

  /** A command breaks its connection exactly if it is a CREATE or DROP DATABASE whose schema cannot be created or
      dropped, or if its result has a row that does not fit the columns announced; whatever else fails is answered with
      an error. */
  lemma {:induction false} BrokenExactly(s: State, g: Globals, c: Command, a: Answers)
    ensures Step(s, g, c, a).2 == Broken <==>
            (ReachesSchema(s, g, c, a) && !a.schemaOk) || RowsMisfit(s, g, c, a)
  {
    hide ParseKill, Trim, SessionStep, IsCompatNoop, IsCanned, IsLoadData, CreateDatabaseName, DropDatabaseName,
         PrepareStep, ExecuteStep, QueryStep, Cleaned, Nonblank, Misfit;
    match c {
      case Prepare(query) => PrepareFrame(s, query, a);
      case Execute(id, bound) => if s.id !in g.killed { ExecuteBreaks(s, g, id, bound, a); }
      case Query(text) =>
        if s.id !in g.killed && ParseKill(Trim(text)).None? {
          QueryBreaks(s, g, text, a);
        }
      case _ =>
    }
  }

  /** PostgreSQL gives every row of one statement as many values as the statement has columns. Such a result breaks a
      connection exactly if it has a row and is the result of an execute for which another number of columns was
      stored. */
  lemma {:induction false} StaleColumnsExactly(s: State, g: Globals, c: Command, a: Answers)
    requires a.executed.Result? && forall k :: 0 <= k < |a.executed.rows| ==> a.executed.rows[k] == a.executed.columns
    ensures RowsMisfit(s, g, c, a) <==>
            && ExecuteReaches(s, g, c) && a.executed.rows != [] && a.executed.columns > 0
            && var st := s.prepared[c.statement];
            && !(st.params == [] && ';' in st.postgres) && |st.columns| !in {0, a.executed.columns}
  {
    hide QueryReaches, ExecuteReaches;
    if a.executed.rows != [] {
      assert a.executed.rows[0] == a.executed.columns;
    }
  }

  /** A statement that is not prepared is asked for. */
  predicate AsksForNone(s: State, c: Command) {
    (c.Execute? && c.statement !in s.prepared) || (c.Reset? && c.reset !in s.prepared)
  }

  /** In any run, a connection ends exactly by disconnecting; by a text that is no UTF-8; by asking for a statement that
      is not prepared; by an abort that a KILL has asked for; by a failing CREATE or DROP DATABASE; or by a result that
      does not fit the columns announced. */
  lemma {:induction false} ConnectionEndsExactly(events: seq<Event>, e: Event, h: nat)
    requires h in Run(events).live
    ensures var (w, s) := (Run(events), Run(events).live[h]);
            h !in Apply(w, e).live <==>
            || e == Disconnect(h) || e == Garbled(h)
            || (e.LongData? && e.connection == h && e.statement !in s.prepared)
            || (e.Command? && e.connection == h && !AnswersItself(e.command)
                && (|| AsksForNone(s, e.command)
                    || (Guarded(e.command) && Pending(Sights(events), s.id))
                    || (ReachesSchema(s, w.globals, e.command, e.answers) && !e.answers.schemaOk)
                    || RowsMisfit(s, w.globals, Handed(TableOf(w, h), e.command), e.answers)))
  {
    hide Run, Sights, Pending, Serve, Tabled;
    var (w, s) := (Run(events), Run(events).live[h]);
    TablesFollow(events, h);
    if e.Command? && e.connection == h {
      KilledConnectionAborts(events, e);
      ServedEnds(s, TableOf(w, h), w.globals, e.command, e.answers);
    } else if e.Open? {
      CounterCounts(events, h);
    }
  }

  lemma {:induction false} ServedEnds(s: State, t: Table, g: Globals, c: Command, a: Answers)
    requires Follows(t, s)
    ensures IsUnknown(t, c) <==> AsksForNone(s, c)
    ensures Serve(s, t, g, c, a).2 == Broken <==>
            && !AnswersItself(c)
            && (AsksForNone(s, c)
                || (ReachesSchema(s, g, c, a) && !a.schemaOk) || RowsMisfit(s, g, Handed(t, c), a))
  {
    hide Serve, Step, ReachesSchema, RowsMisfit;
    ServeIsStep(s, t, g, c, a);
    if Reaches(t, c) {
      BrokenExactly(s, g, Handed(t, c), a);
      SameSchema(s, t, g, c, a);
    }
  }

  lemma SameSchema(s: State, t: Table, g: Globals, c: Command, a: Answers)
    requires Reaches(t, c)
    ensures ReachesSchema(s, g, c, a) == ReachesSchema(s, g, Handed(t, c), a)
  {
  }

  /** The database of the session after a command: chosen by the handshake, by COM_INIT_DB or by CREATE DATABASE,
      given up by DROP DATABASE of the same name, and otherwise kept. */
  function DatabaseAfter(s: State, g: Globals, c: Command, a: Answers): Option<string> {
    if c.Init? then Nonblank(c.schema)
    else if !ReachesSchema(s, g, c, a) || !a.schemaOk then s.currentDb
    else if CreateDatabaseName(Trim(c.text)).Some? then CreateDatabaseName(Trim(c.text))
    else if s.currentDb == DropDatabaseName(Trim(c.text)) then None
    else s.currentDb
  }

  lemma DatabaseExactly(s: State, g: Globals, c: Command, a: Answers)
    ensures Step(s, g, c, a).0.currentDb == DatabaseAfter(s, g, c, a)
  {
    hide ParseKill, Trim, SessionStep, IsCompatNoop, IsCanned, IsLoadData, CreateDatabaseName, DropDatabaseName,
         PrepareStep, ExecuteStep, Cleaned, Nonblank;
    match c {
      case Prepare(query) => PrepareFrame(s, query, a);
      case Execute(id, bound) => ExecuteFrame(s, id, bound, a);
      case Query(text) => SessionFrame(s, Trim(text));
      case _ =>
    }
  }

  /** So a command changes the database of its session exactly in these cases. */
  lemma DatabaseChangesExactly(s: State, g: Globals, c: Command, a: Answers)
    ensures Step(s, g, c, a).0.currentDb != s.currentDb <==>
            || (c.Init? && Nonblank(c.schema) != s.currentDb)
            || (ReachesSchema(s, g, c, a) && a.schemaOk
                && if CreateDatabaseName(Trim(c.text)).Some? then CreateDatabaseName(Trim(c.text)) != s.currentDb
                   else DropDatabaseName(Trim(c.text)) == s.currentDb)
  {
    hide Step, ParseKill, Trim, SessionStep, IsCompatNoop, CreateDatabaseName, DropDatabaseName, Nonblank;
    DatabaseExactly(s, g, c, a);
  }

  // ---------------------------------------------------------------------------------------------------------------
  // Inputs

  lemma {:induction false} EndKeepsHead(s: string)
    requires s != "" && !IsSpace(s[0])
    ensures TrimEnd(s) != "" && TrimEnd(s)[0] == s[0]
    decreases |s|
  {
    if IsSpace(s[|s| - 1]) {
      EndKeepsHead(s[..|s| - 1]);
    }
  }

  lemma {:induction false} SemicolonsKeepHead(s: string)
    requires s != "" && s[0] != ';'
    ensures TrimEndMatches(';', s) != "" && TrimEndMatches(';', s)[0] == s[0]
    decreases |s|
  {
    if s[|s| - 1] == ';' {
      SemicolonsKeepHead(s[..|s| - 1]);
    }
  }

  /** Trimming keeps the first character of a text that begins with a word. */
  lemma HeadIsKept(s: string)
    requires s != "" && !IsSpace(s[0]) && s[0] != ';'
    ensures Trim(s) != "" && Trim(s)[0] == s[0] && Bare(s) != "" && Bare(s)[0] == s[0]
  {
    hide TrimEnd, TrimEndMatches;
    EndKeepsHead(s);
    SemicolonsKeepHead(Trim(s));
    EndKeepsHead(TrimEndMatches(';', Trim(s)));
  }

  lemma NoopsBeginWithSet(k: nat)
    requires k < |NoopPrefixes|
    ensures |NoopPrefixes[k]| > 2 && NoopPrefixes[k][0] == 'S' && NoopPrefixes[k][2] == 'T'
  {
  }

  /** A text in upper case that does not begin as SET does. */
  predicate IsNoSet(upper: string) {
    upper != "" && (upper[0] != 'S' || (|upper| > 2 && upper[2] != 'T'))
  }

  lemma NoSetPrefix(p: string, upper: string)
    requires IsNoSet(upper) && |p| > 2 && p[0] == 'S' && p[2] == 'T'
    ensures !(p <= upper)
  {
  }

  lemma NoSqlMode(upper: string)
    requires IsNoSet(upper)
    ensures !IsSetSqlMode(upper)
  {
    NoSetPrefix("SET SQL_MODE", upper);
    NoSetPrefix("SET SESSION SQL_MODE", upper);
    NoSetPrefix("SET @@SQL_MODE", upper);
    NoSetPrefix("SET @@SESSION.SQL_MODE", upper);
  }

  lemma NoSetIsUntouched(s: State, text: string)
    requires IsNoSet(ToUpper(Bare(text)))
    ensures SessionStep(s, text) == Untouched
  {
    hide SetNames, IsolationValue, SqlModeValue, Bare, ToUpper, IsSetSqlMode, IsNoSet;
    var upper := ToUpper(Bare(text));
    NoSqlMode(upper);
    NoSetPrefix("SET NAMES ", upper);
    NoSetPrefix("SET SESSION TRANSACTION ISOLATION LEVEL ", upper);
    NoSetPrefix("SET TRANSACTION ISOLATION LEVEL ", upper);
  }

  lemma NoSetIsNoNoop(text: string)
    requires IsNoSet(ToUpper(Trim(text))) && ToUpper(Trim(text))[0] !in {'C', 'D'}
    ensures !IsCompatNoop(text)
  {
    hide Trim, ToUpper, IsSetSqlMode;
    var upper := ToUpper(Trim(text));
    NoSqlMode(upper);
    NoSetPrefix("SET NAMES ", upper);
    forall k | 0 <= k < |NoopPrefixes| ensures !(NoopPrefixes[k] <= upper) {
      NoopsBeginWithSet(k);
      NoSetPrefix(NoopPrefixes[k], upper);
    }
  }

  lemma NoKill(text: string)
    requires ToUpper(Bare(text)) != "" && ToUpper(Bare(text))[0] != 'K'
    ensures ParseKill(text) == None
  {
    hide Bare, ToUpper;
  }

  /** A text that begins with a letter other than S, C, D, K and L is nothing that the session answers. */
  lemma OtherLetters(s: State, text: string)
    requires text != "" && !IsSpace(text[0]) && text[0] !in {';', '\U{17F}'}
    requires Upper(text[0]) !in {'S', 'C', 'D', 'K', 'L'}
    ensures SessionStep(s, text) == Untouched && !IsCompatNoop(text) && ParseKill(text) == None
  {
    hide SessionStep, IsCompatNoop, ParseKill, Trim, Bare, ToUpper;
    HeadIsKept(text);
    NoSetIsUntouched(s, text);
    NoSetIsNoNoop(text);
    NoKill(text);
  }

  lemma SameLetter(a: string, b: string)
    requires EqIgnoreCase(a, b) && b != ""
    ensures a != "" && Upper(a[0]) == Upper(b[0])
  {
    hide ToUpper;
    assert |ToUpper(a)| == |ToUpper(b)|;
    assert ToUpper(a)[0] == ToUpper(b)[0];
  }

  lemma OtherStart(own: string, t: string)
    requires own != "" && t != "" && t[0] == 'S' && Upper(own[0]) != 'S'
    ensures !EqIgnoreCase(own, t)
  {
    hide ToUpper, EqIgnoreCase;
    if EqIgnoreCase(own, t) {
      SameLetter(own, t);
    }
  }

  lemma OtherLettersAreNotCanned(text: string)
    requires Trim(text) != "" && Upper(Trim(text)[0]) != 'S'
    ensures !IsCanned(text)
  {
    hide Trim, EqIgnoreCase;
    var own := Trim(text);
    OtherStart(own, "SELECT VERSION()");
    OtherStart(own, "SELECT @@VERSION");
    OtherStart(own, "SELECT @@VERSION_COMMENT");
    OtherStart(own, "SELECT @@SESSION.SQL_MODE");
    OtherStart(own, "SELECT @@SQL_MODE");
  }

  lemma OtherLettersAreNotDynamic(text: string)
    requires Trim(text) != "" && Trim(text)[0] != '\U{17F}' && Upper(Trim(text)[0]) != 'S'
    ensures !MayBeDynamic(text)
  {
    hide Trim, EqIgnoreCase;
    var own := Trim(text);
    OtherStart(own, "SELECT CONNECTION_ID()");
    OtherStart(own, "SELECT DATABASE()");
    OtherStart(own, "SELECT @@COLLATION_CONNECTION");
    OtherStart(own, "SHOW GLOBAL VARIABLES LIKE 'T%_ISOLATION'");
  }

  lemma OtherLettersLoadNothing(text: string)
    requires text != "" && !IsSpace(text[0]) && Upper(text[0]) != 'L'
    ensures !IsLoadData(text)
  {
    hide ToUpper;
    assert ToUpper(TrimStart(text))[0] == Upper(text[0]);
  }

  /** USE sent as query text, whatever the name, is a query like any other: it goes to PostgreSQL. So it chooses no
      database, and it is acknowledged exactly if PostgreSQL, which has no such statement, obeys it. COM_INIT_DB is
      always acknowledged. */
  lemma {:induction false} UseIsAQuery(s: State, g: Globals, name: string, a: Answers)
    requires s.id !in g.killed && (a.dynamic ==> MayBeDynamic("USE " + name))
    ensures var (s', g', reply) := Step(s, g, Query("USE " + name), a);
            && s' == s.(lastInsertId := s'.lastInsertId) && g' == g
            && (a.translation.None? ==> reply == Failed(NotTranslated))
            && (a.translation.Some? && a.executed.Error? ==> reply == Failed(NotExecuted))
            && (reply == Done <==> a.translation.Some? && a.executed.Result? && a.executed.columns == 0)
    ensures Step(s, g, Init(name), a).2 == Done
  {
    hide SessionStep, IsCompatNoop, ParseKill, Trim, IsCanned, IsLoadData, MayBeDynamic, Nonblank, Cleaned;
    var text := "USE " + name;
    HeadIsKept(text);
    OtherLetters(s, Trim(text));
    TrimTwice(text);
    OtherLettersAreNotCanned(Trim(text));
    OtherLettersAreNotDynamic(text);
    OtherLettersLoadNothing(Trim(text));
  }

  lemma BareX()
    ensures var text := "CREATE DATABASE x";
            Trim(text) == text && Bare(text) == text && ToUpper(text) == "CREATE DATABASE X"
  {
    hide TrimEnd, TrimStart, TrimEndMatches;
    var text := "CREATE DATABASE x";
    TrimmedStays(text);
    assert TrimEndMatches(';', text) == text by {
      EndStops(';', text);
    }
    UpperIs(text, "CREATE DATABASE X");
  }

  lemma SessionLeavesX(s: State)
    ensures ParseKill("CREATE DATABASE x") == None && SessionStep(s, "CREATE DATABASE x") == Untouched
  {
    hide SessionStep, ParseKill, Trim, ToUpper, Bare;
    BareX();
    NoSetIsUntouched(s, "CREATE DATABASE x");
    NoKill("CREATE DATABASE x");
  }

  lemma NoopX()
    ensures IsCompatNoop("CREATE DATABASE x")
  {
    hide Trim, ToUpper, Bare;
    BareX();
    assert "CREATE DATABASE X"[..16] == "CREATE DATABASE ";
  }

  lemma NameOfX()
    ensures DatabaseName("CREATE DATABASE x", "CREATE DATABASE") == Some("x")
  {
    hide Trim;
    var text := "CREATE DATABASE x";
    TrimmedStays(text);
    assert text[15..] == " x";
    TrimPadded(" ", "x");
    assert " " + "x" == " x";
    TrimmedStays("x");
    assert TokenLength("x") == 1 && "x"[..1] == "x";
  }

  lemma CreateNameX()
    ensures CreateDatabaseName("CREATE DATABASE x") == Some("x")
  {
    hide DatabaseName;
    NameOfX();
  }

  /** A failing schema creation does drop the connection. */
  lemma CreateDatabaseBreaks(s: State, g: Globals, a: Answers)
    requires s.id !in g.killed && !a.dynamic && !a.schemaOk
    ensures Step(s, g, Query("CREATE DATABASE x"), a).2 == Broken
  {
    hide Step, Trim, ParseKill, SessionStep, IsCompatNoop, CreateDatabaseName, DropDatabaseName;
    BareX();
    SessionLeavesX(s);
    NoopX();
    CreateNameX();
    BrokenExactly(s, g, Query("CREATE DATABASE x"), a);
  }

  // ---------------------------------------------------------------------------------------------------------------
  // Results that do not fit

  /** A text that begins as SELECT does is not for the session. */
  lemma SelectIsPlain(s: State, text: string)
    requires |text| > 2 && Upper(text[0]) == 'S' && Upper(text[2]) == 'L' && Trimmed(text) && text[|text| - 1] != ';'
    ensures Trim(text) == text && SessionStep(s, text) == Untouched && !IsCompatNoop(text)
    ensures ParseKill(text) == None && !IsLoadData(text)
  {
    hide SessionStep, IsCompatNoop, ParseKill, Trim, TrimStart, TrimEnd, TrimEndMatches, ToUpper;
    TrimmedStays(text);
    EndStops(';', text);
    NoSetIsUntouched(s, text);
    NoSetIsNoNoop(text);
    NoKill(text);
    HeadIsKept(text);
    SelectIsNoLoad(text);
  }

  lemma SelectIsNoLoad(text: string)
    requires text != "" && Upper(text[0]) == 'S'
    ensures !IsLoadData(text)
  {
    hide ToUpper;
  }

  const AllOfT := "SELECT * FROM t"
  const TwoSelects := "SELECT 1; SELECT 1, 2"

  lemma OtherLengthIsNotCanned(text: string)
    requires Trim(text) == text && |text| in {15, 21}
    ensures !IsCanned(text)
  {
    hide Trim, ToUpper;
  }

  lemma AllOfTIsPlain()
    ensures !IsCompatNoop(AllOfT) && !IsCanned(AllOfT) && CountPlaceholders(AllOfT) == 0 && Numbered(AllOfT) == AllOfT
  {
    hide Trim, IsCompatNoop, IsCanned, SessionStep, ParseKill, IsLoadData, CountFrom, Substituted;
    SelectIsPlain(NewState(Globals(9, {}, None)), AllOfT);
    OtherLengthIsNotCanned(AllOfT);
    NoQuestionMark(Lexer.Code, AllOfT);
    NumberingIsComplete(AllOfT);
  }

  lemma PreparesAllOfT(a: Answers)
    requires !a.dynamic && a.translation == Some(AllOfT) && a.columns == ["*"]
    ensures var w := Run([Open, Command(0, Prepare(AllOfT), a)]);
            && w.globals == Globals(10, {}, None) && 0 in w.live && w.live[0].prepared.Keys == {1}
            && w.live[0].prepared[1] == Statement(AllOfT, AllOfT, [], ["*"], false)
  {
    hide IsCompatNoop, IsCanned, CountFrom, Substituted, SessionStep;
    AllOfTIsPlain();
    var events := [Open, Command(0, Prepare(AllOfT), a)];
    assert events[..1] == [Open] && events[..1][..0] == [];
    var s := NewState(Globals(9, {}, None));
    assert Run([Open]).live[0] == s && Run([Open]).globals == Globals(10, {}, None);
    assert ParamNames(0) == [];
    assert PrepareStep(s, AllOfT, a) == Stored(s, Statement(AllOfT, AllOfT, [], ["*"], false));
    assert Run(events) == Apply(Run([Open]), events[1]);
  }

  lemma NewConnectionIsNotKilled(a: Answers)
    requires !a.dynamic && a.translation == Some(AllOfT) && a.columns == ["*"]
    ensures var w := Run([Open, Command(0, Prepare(AllOfT), a)]);
            0 in w.live && w.live[0].id !in w.globals.killed
  {
    hide Run;
    PreparesAllOfT(a);
  }

  lemma OneColumnForTwo(s: State, g: Globals, b: Answers)
    requires s.id !in g.killed && 1 in s.prepared && b.executed == Result(0, 2, [2])
    requires s.prepared[1] == Statement(AllOfT, AllOfT, [], ["*"], false)
    ensures RowsMisfit(s, g, Execute(1, Some(0)), b)
  {
    hide QueryReaches, SessionStep, IsCompatNoop;
    assert Misfit(1, [2]) by {
      assert [2][0] != 1;
    }
    assert ';' !in AllOfT;
  }

  /** The column list `*`, stored when the table did not exist yet, is announced for the two columns that the table has
      later: the execute ends the connection. */
  lemma {:induction false} StaleColumnsBreak(a: Answers, b: Answers)
    requires !a.dynamic && a.translation == Some(AllOfT) && a.columns == ["*"]
    requires b.executed == Result(0, 2, [2])
    ensures var events := [Open, Command(0, Prepare(AllOfT), a)];
            0 in Run(events).live && 0 !in Apply(Run(events), Command(0, Execute(1, Some(0)), b)).live
  {
    hide Run, Apply, Follows, RowsMisfit, QueryReaches, ReachesSchema, Sights, Pending;
    PreparesAllOfT(a);
    var events := [Open, Command(0, Prepare(AllOfT), a)];
    var (w, e) := (Run(events), Command(0, Execute(1, Some(0)), b));
    TablesFollow(events, 0);
    TableEntry(TableOf(w, 0), w.live[0], 1);
    NewConnectionIsNotKilled(a);
    OneColumnForTwo(w.live[0], w.globals, b);
    ConnectionEndsExactly(events, e, 0);
  }

  /** Two statements in one query whose rows differ in length: the columns announced are those of the first. */
  lemma {:induction false} TwoSelectsBreak(s: State, g: Globals, a: Answers)
    requires s.id !in g.killed && !a.dynamic && a.translation.Some? && a.executed == Result(0, 1, [1, 2])
    ensures Step(s, g, Query(TwoSelects), a).2 == Broken
  {
    hide Step, SessionStep, IsCompatNoop, ParseKill, IsLoadData, IsCanned, Trim;
    SelectIsPlain(s, TwoSelects);
    OtherLengthIsNotCanned(TwoSelects);
    assert a.executed.rows[1] != 1;
    BrokenExactly(s, g, Query(TwoSelects), a);
  }
}
