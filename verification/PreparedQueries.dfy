/** When preparing a statement without parameters and executing it does what sending it as a query does. */
module PreparedQueries {
  import opened Text
  import opened Placeholders
  import opened SessionText
  import opened Session
  import opened SessionRuns
  import opened SessionAnswers

  lemma {:induction false} TrimEndIsPrefix(s: string)
    ensures TrimEnd(s) <= s
    decreases |s|
  {
    if s != "" && IsSpace(s[|s| - 1]) {
      TrimEndIsPrefix(s[..|s| - 1]);
    }
  }

  lemma {:induction false} TrimEndMatchesIsPrefix(c: char, s: string)
    ensures TrimEndMatches(c, s) <= s
    decreases |s|
  {
    if s != "" && s[|s| - 1] == c {
      TrimEndMatchesIsPrefix(c, s[..|s| - 1]);
    }
  }

  /** The session looks at the front of the trimmed statement. */
  lemma BareIsPrefix(s: string)
    ensures Bare(s) <= Trim(s)
  {
    hide TrimStart, TrimEnd, TrimEndMatches;
    var lead, trail := TrimSplits(s);
    var t := Trim(s);
    var u := TrimEndMatches(';', t);
    TrimEndMatchesIsPrefix(';', t);
    TrimEndIsPrefix(u);
    assert TrimStart(u) == u by {
      assert u != "" ==> u[0] == t[0];
      TrimStartBlank("", u);
      assert "" + u == u;
    }
  }

  lemma UpperOfPrefix(s: string, t: string)
    requires s <= t
    ensures ToUpper(s) <= ToUpper(t)
  {
    hide ToUpper;
    UpperConcat(s, t[|s|..]);
    assert t == s + t[|s|..];
  }

  /** What the session handles is acknowledged in a prepared statement too. */
  lemma SessionIsNoop(s: State, query: string)
    ensures SessionStep(s, query) != Untouched ==> IsCompatNoop(query)
  {
    hide Bare, Trim, ToUpper, SetNames, IsSetSqlMode, SqlModeValue, IsolationValue;
    BareIsPrefix(query);
    UpperOfPrefix(Bare(query), Trim(query));
    SetModeOfPrefix(ToUpper(Bare(query)), ToUpper(Trim(query)));
    assert NoopPrefixes[28] == "SET SESSION TRANSACTION ISOLATION LEVEL";
    assert NoopPrefixes[29] == "SET TRANSACTION ISOLATION LEVEL";
    if "SET SESSION TRANSACTION ISOLATION LEVEL " <= ToUpper(Bare(query)) {
      assert NoopPrefixes[28] <= "SET SESSION TRANSACTION ISOLATION LEVEL ";
    } else if "SET TRANSACTION ISOLATION LEVEL " <= ToUpper(Bare(query)) {
      assert NoopPrefixes[29] <= "SET TRANSACTION ISOLATION LEVEL ";
    }
  }

  lemma SetModeOfPrefix(u: string, v: string)
    requires u <= v
    ensures IsSetSqlMode(u) ==> IsSetSqlMode(v)
  {
  }

  /** Trimming does not matter. */
  lemma TrimmedIsRead(s: State, query: string)
    ensures SessionStep(s, Trim(query)) == SessionStep(s, query) && IsCompatNoop(Trim(query)) == IsCompatNoop(query)
    ensures IsCanned(Trim(query)) == IsCanned(query)
  {
    hide Trim, ToUpper, SetNames, IsSetSqlMode, SqlModeValue, IsolationValue, EqIgnoreCase, TrimEndMatches;
    TrimTwice(query);
  }

  /** Nor do the prepared statements matter to the session's own statements. */
  lemma StatementsDoNotMatter(s: State, prepared: map<nat, Statement>, next: nat, query: string)
    ensures var t := s.(prepared := prepared, nextStatement := next);
            match SessionStep(s, query)
            case Changed(s') => SessionStep(t, query) == Changed(s'.(prepared := prepared, nextStatement := next))
            case other => SessionStep(t, query) == other
  {
    hide Bare, Trim, ToUpper, SetNames, IsSetSqlMode, SqlModeValue, IsolationValue;
    if "SET NAMES " <= ToUpper(Bare(query)) {
      NamesDoNotMatter(s, prepared, next, Trim(Bare(query)[10..]));
    }
  }

  lemma NamesDoNotMatter(s: State, prepared: map<nat, Statement>, next: nat, payload: string)
    ensures var t := s.(prepared := prepared, nextStatement := next);
            match SetNames(s, payload)
            case Changed(s') => SetNames(t, payload) == Changed(s'.(prepared := prepared, nextStatement := next))
            case other => SetNames(t, payload) == other
  {
    hide NamesCharset, NamesCollation, CollationName, DefaultCollation;
  }

  /** A statement of the session, or one that is only acknowledged, but that creates or drops no database; a canned one;
      or one that goes to PostgreSQL as one statement, whose result has the columns that were announced, and whose
      error, if it is one, is not made up for. */
  predicate Alike(query: string, a: Answers, b: Answers) {
    if IsCompatNoop(query) then CreateDatabaseName(Trim(query)).None? && DropDatabaseName(Trim(query)).None?
    else
      || IsCanned(query)
      || (a.translation.Some?
          && var text := Numbered(a.translation.value);
          && !IsLoadData(Trim(query)) && text != "" && ';' !in text
          && match b.executed
             case Result(_, columns, _) => columns == 0 || |a.columns| in {0, columns}
             case Error(missing, _) => !(missing && MadeUp(text)))
  }

  /** The state without the statements of `s1`. */
  function Besides(s1: State, s: State): State {
    s1.(prepared := s.prepared, nextStatement := s.nextStatement)
  }

  lemma IdleActs(s: State, s1: State, g: Globals, query: string, id: nat, b: Answers)
    requires ParseKill(Trim(query)).None? && !b.dynamic && IsCompatNoop(query)
    requires CreateDatabaseName(Trim(query)).None? && DropDatabaseName(Trim(query)).None?
    requires Besides(s1, s) == s && id in s1.prepared && !s1.prepared[id].canned && s1.prepared[id].postgres == ""
    requires s1.prepared[id].original == query
    ensures var (s2, reply) := ExecuteStep(s1, id, Some(0), b);
            (Besides(s2, s), g, reply) == QueryStep(s, g, Trim(query), b)
  {
    hide SessionStep, IsCompatNoop, IsCanned, IsLoadData, Trim, ParseKill, BindStep, CreateDatabaseName,
         DropDatabaseName;
    TrimmedIsRead(s, query);
    SessionFrame(s, query);
    assert s1 == s.(prepared := s1.prepared, nextStatement := s1.nextStatement);
    StatementsDoNotMatter(s, s1.prepared, s1.nextStatement, query);
  }

  lemma ExecutedActs(s: State, s1: State, g: Globals, query: string, id: nat, a: Answers, b: Answers)
    requires ParseKill(Trim(query)).None? && !b.dynamic && !IsCompatNoop(query) && !IsCanned(query)
    requires Alike(query, a, b) && a.translation == b.translation
    requires Besides(s1, s) == s && id in s1.prepared
    requires s1.prepared[id] == Statement(query, Numbered(a.translation.value), [], a.columns, false)
    ensures var (s2, reply) := ExecuteStep(s1, id, Some(0), b);
            (Besides(s2, s), g, reply) == QueryStep(s, g, Trim(query), b)
  {
    hide SessionStep, IsCompatNoop, IsCanned, IsLoadData, Trim, ParseKill, NoopStep, EmptyResult, Substituted,
         NamesOptions, BeginsWith, Written;
    TrimmedIsRead(s, query);
    SessionIsNoop(s, query);
    MissingOptionAnswer(s1.prepared[id].postgres, if b.executed.Error? then b.executed.inferred else 0);
  }

  lemma CannedActs(s: State, g: Globals, query: string, b: Answers)
    requires !b.dynamic && !IsCompatNoop(query) && IsCanned(query)
    ensures QueryStep(s, g, Trim(query), b) == (s, g, Rows)
  {
    hide SessionStep, IsCompatNoop, IsCanned, IsLoadData, Trim, NoopStep;
    TrimmedIsRead(s, query);
    SessionIsNoop(s, query);
  }

  /** Then preparing it and executing it has the effect and the answer of the query, but for the statement stored. */
  lemma {:induction false} PreparedActsAsQuery(s: State, g: Globals, query: string, a: Answers, b: Answers)
    requires s.id !in g.killed && ParseKill(Trim(query)).None? && CountPlaceholders(query) == 0
    requires a.dynamic == b.dynamic && a.translation == b.translation && (a.dynamic || Alike(query, a, b))
    requires Step(s, g, Prepare(query), a).2.Prepared?
    ensures var (s1, g1, reply1) := Step(s, g, Prepare(query), a);
            var (s2, g2, reply2) := Step(s1, g1, Execute(reply1.id, Some(0)), b);
            (Besides(s2, s), g2, reply2) == Step(s, g, Query(query), b)
  {
    hide Alike, SessionStep, IsCompatNoop, IsCanned, IsLoadData, Trim, ParseKill, CountFrom, Substituted, PrepareStep,
         QueryStep;
    var (s1, _, reply1) := Step(s, g, Prepare(query), a);
    PrepareAnswers(s, g, query, a);
    var id := reply1.id;
    assert Besides(s1, s) == s;
    if a.dynamic {
      DynamicActs(s, g, query, b);
    } else if IsCompatNoop(query) {
      IdleMeansNone(query, a, b);
      IdleActs(s, s1, g, query, id, b);
    } else if IsCanned(query) {
      CannedActs(s, g, query, b);
    } else {
      ExecutedActs(s, s1, g, query, id, a, b);
    }
  }

  lemma DynamicActs(s: State, g: Globals, query: string, b: Answers)
    requires b.dynamic
    ensures QueryStep(s, g, Trim(query), b) == (s, g, Rows)
  {
    hide Trim;
  }

  lemma IdleMeansNone(query: string, a: Answers, b: Answers)
    requires Alike(query, a, b) && IsCompatNoop(query)
    ensures CreateDatabaseName(Trim(query)).None? && DropDatabaseName(Trim(query)).None?
  {
    hide IsCompatNoop, Trim, CreateDatabaseName, DropDatabaseName;
  }

  /** A prepared statement that would create or drop a database is acknowledged, and does nothing. */
  lemma {:induction false} PreparedSchemaIsIdle(s: State, g: Globals, query: string, a: Answers, bound: Option<nat>,
                                                b: Answers)
    requires s.id !in g.killed && !a.dynamic && IsCompatNoop(query) && SessionStep(s, query) == Untouched
    ensures var (s1, g1, reply1) := Step(s, g, Prepare(query), a);
            && reply1.Prepared?
            && Step(s1, g1, Execute(reply1.id, bound), b) == (s1, g, Done)
  {
    hide SessionStep, IsCompatNoop, CountFrom, PrepareStep, BindStep;
    var (s1, _, reply1) := Step(s, g, Prepare(query), a);
    PrepareAnswers(s, g, query, a);
    StatementsDoNotMatter(s, s1.prepared, s1.nextStatement, query);
  }
}
