/** The passes behind the printer get PostgreSQL text, in which a backslash is an ordinary character; most of them read
    it by MySQL rules all the same. Where this does no harm, and where it does. */
module PostgresQuoting {
  import opened Text
  import opened Lexer
  import opened Dialects
  import opened NeutralMarks
  import opened Placeholders
  import opened Fragments
  import opened Forests
  import opened OneLexer
  import opened Masking
  import opened Calls
  import opened SqlFunctions
  import PlaceholderOrder

  /** The dialects of the scanners for which a backslash escapes. */
  const Escaping: set<Dialect> := {LiteralDialect, CallDialect, CsvDialect, PrepareDialect}

  /** What the passes get: no comment, and no backtick, for these have been replaced. */
  predicate IsPrinted(s: string) {
    Safe(Code, s) && '`' !in s
  }

  /** Two states that read on alike. */
  predicate SameReading(a: State, b: State) {
    (a.InCode() && b.InCode()) || (a == b && a.InQuote() && IsStringQuote(a.quote))
  }

  lemma {:induction false} SafeAt(st: State, s: string, k: nat)
    requires Safe(st, s) && k <= |s| && !st.InComment()
    ensures !Reach(st, s[..k]).InComment()
    decreases s
  {
    if k > 0 {
      AfterPrefix(PrepareDialect, st, s, k);
      SafeAt(Next(st, s[0]), s[1..], k - 1);
    } else {
      assert s[..0] == "";
    }
  }

  /** The escaping scanners read such text alike. */
  lemma {:induction false} EscapingAgree(d: Dialect, s: string, k: nat)
    requires d in Escaping && IsPrinted(s) && k <= |s|
    ensures SameReading(At(d, s, k), At(LiteralDialect, s, k))
  {
    hide After, Safe;
    if k > 0 {
      EscapingAgree(d, s, k - 1);
      AtStep(d, s, k - 1);
      AtStep(LiteralDialect, s, k - 1);
      SafeAt(Code, s, k);
      assert s[k - 1] in s;
    } else {
      AtStart(d, s);
      AtStart(LiteralDialect, s);
    }
  }

  /** Any of them sees every position on the side of the quotes on which PostgreSQL sees it exactly if no unpaired
      backslash stands right before a quote that would close the literal. */
  lemma AgreesWithPostgres(d: Dialect, s: string)
    requires d in Escaping && IsPrinted(s)
    ensures (forall k: nat :: k <= |s| ==> SameSide(At(d, s, k), At(PostgresDialect, s, k))) <==>
            !ShieldedQuote(Code, s)
  {
    hide At, ShieldedQuote, IsPrinted;
    forall k: nat | k <= |s| ensures SameSide(At(d, s, k), At(LiteralDialect, s, k)) {
      EscapingAgree(d, s, k);
    }
    MaskAgreesWithPostgres(s);
    if !ShieldedQuote(Code, s) {
      forall k: nat | k <= |s| ensures SameSide(At(d, s, k), At(PostgresDialect, s, k)) {
        assert SameSide(At(LiteralDialect, s, k), At(PostgresDialect, s, k));
      }
    } else {
      var k: nat :| k <= |s| && !SameSide(At(LiteralDialect, s, k), At(PostgresDialect, s, k));
      assert SameSide(At(d, s, k), At(LiteralDialect, s, k));
    }
  }

  lemma {:induction false} NoComment(d: Dialect, s: string, k: nat)
    requires !d.comments && k <= |s|
    ensures !At(d, s, k).InComment()
  {
    hide After;
    if k > 0 {
      NoComment(d, s, k - 1);
      AtStep(d, s, k - 1);
    } else {
      AtStart(d, s);
    }
  }

  /** The call rewriter then sees in the fragments of its tree what PostgreSQL sees in quotes, so that it leaves
      literals alone. */
  lemma RewriterReadsPostgres(s: string)
    requires IsPrinted(s) && !ShieldedQuote(Code, s)
    ensures InFragments(ParseAll(s)) == Quotedness(PostgresDialect, Code, s)
  {
    hide After, Quotedness, ShieldedQuote, IsPrinted, ParseAll, InFragments;
    RewriterFollowsLexer(s);
    AgreesWithPostgres(CallDialect, s);
    forall k | 0 <= k < |s|
      ensures Quotedness(CallDialect, Code, s)[k] == Quotedness(PostgresDialect, Code, s)[k]
    {
      QuotednessAt(CallDialect, Code, s, k);
      QuotednessAt(PostgresDialect, Code, s, k);
      NoComment(CallDialect, s, k);
      NoComment(PostgresDialect, s, k);
      assert SameSide(At(CallDialect, s, k), At(PostgresDialect, s, k));
      NoBacktickAt(s, k);
    }
  }

  lemma NoBacktickAt(s: string, k: nat)
    requires IsPrinted(s) && k < |s|
    ensures s[k] != '`'
  {
  }

  /** Numbering by PostgreSQL's quoting. */
  function PostgresNumbered(st: State, s: string, n: nat): string
    decreases s
  {
    if s == "" then ""
    else if s[0] == '?' && !st.InQuote() then
      Dollar(n + 1) + PostgresNumbered(Step(PostgresDialect, st, s[0]), s[1..], n + 1)
    else [s[0]] + PostgresNumbered(Step(PostgresDialect, st, s[0]), s[1..], n)
  }

  lemma {:induction false} NumbersAgree(st: State, mask: State, postgres: State, s: string, n: nat)
    requires Safe(st, s) && '`' !in s && !ShieldedQuote(mask, s)
    requires SameReading(st, mask) && InStep(mask, postgres) && (mask.Escaped? ==> !StartsWith(s, mask.quote))
    ensures Substituted(Dollar, st, s, n) == PostgresNumbered(postgres, s, n)
    decreases s
  {
    hide Dollar;
    if s != "" {
      var (st', mask', postgres') :=
        (Next(st, s[0]), Step(LiteralDialect, mask, s[0]), Step(PostgresDialect, postgres, s[0]));
      assert s[0] in s;
      assert SameReading(st', mask') && InStep(mask', postgres');
      NumbersAgree(st', mask', postgres', s[1..], if IsPlaceholder(st, s[0]) then n + 1 else n);
    }
  }

  /** The placeholders are then numbered where PostgreSQL reads them, and nowhere else. */
  lemma NumberedReadsPostgres(s: string)
    requires IsPrinted(s) && !ShieldedQuote(Code, s)
    ensures Numbered(s) == PostgresNumbered(Code, s, 0)
  {
    NumbersAgree(Code, Code, Code, s, 0);
  }

  // ---------------------------------------------------------------------------------------------------------------
  // Where it does harm

  const SlashThenMark := "'\\', ?"

  /** One character more in front, for all that is said of a text here. */
  lemma OneMore(st: State, postgres: State, c: char, s: string)
    requires c != '?' && !Next(st, c).InComment() && st != Quoted('`')
    ensures Substituted(Dollar, st, [c] + s, 0) == [c] + Substituted(Dollar, Next(st, c), s, 0)
    ensures PostgresNumbered(postgres, [c] + s, 0) == [c] + PostgresNumbered(Step(PostgresDialect, postgres, c), s, 0)
    ensures Safe(st, [c] + s) == Safe(Next(st, c), s)
  {
    assert ([c] + s)[1..] == s;
  }

  lemma TheMark()
    ensures Substituted(Dollar, Quoted('\''), "?", 0) == "?" && PostgresNumbered(Code, "?", 0) == Dollar(1)
    ensures Safe(Quoted('\''), "?")
  {
    hide Dollar;
    assert "?"[1..] == "" && Dollar(1) + "" == Dollar(1);
  }

  lemma SlashThenMarkIsShielded()
    ensures ShieldedQuote(Code, SlashThenMark)
  {
    var s := SlashThenMark;
    assert s[1..][0] == '\\' && s[1..][1] == '\'';
  }

  /** The literal that holds just a backslash, and a placeholder: it gets no number. */
  lemma PlaceholderIsMissed()
    ensures ShieldedQuote(Code, SlashThenMark) && IsPrinted(SlashThenMark)
    ensures Numbered(SlashThenMark) == SlashThenMark
    ensures PostgresNumbered(Code, SlashThenMark, 0) == "'\\', " + Dollar(1)
  {
    hide Dollar, Safe, ShieldedQuote, Substituted, PostgresNumbered;
    var (q, e) := (Quoted('\''), Escaped('\''));
    SlashThenMarkIsShielded();
    TheMark();
    OneMore(q, Code, ' ', "?");
    OneMore(q, Code, ',', " ?");
    OneMore(e, q, '\'', ", ?");
    OneMore(q, q, '\\', "', ?");
    OneMore(Code, Code, '\'', "\\', ?");
    assert [' '] + "?" == " ?" && [','] + " ?" == ", ?" && ['\''] + ", ?" == "', ?";
    assert ['\\'] + "', ?" == "\\', ?" && ['\''] + "\\', ?" == SlashThenMark;
    var d := Dollar(1);
    assert ['\''] + (['\\'] + (['\''] + ([','] + ([' '] + d)))) == "'\\', " + d;
  }

  const LastQuote := Fragment("'", Nil)
  const Call := Word("INSTR", Group(PlaceholderOrder.TwoArguments, LastQuote))
  const SlashThenCall := Fragment("'\\', '", Call)

  lemma LastQuoteIsFormed()
    ensures WellFormed(LastQuote, true)
  {
  }

  lemma SlashFragment()
    ensures var f := "'\\', '"; IsQuote(f[0]) && FragmentLength(f) == |f| && FragmentClosed(f)
  {
    var s := "'\\', '"[1..];
    assert s == "\\', '" && s[2..] == ", '" && ", '"[1..] == " '" && " '"[1..] == "'";
    assert Body('\'', "'") == Extent(1, true);
    assert Body('\'', " '") == Extent(2, true) && Body('\'', ", '") == Extent(3, true);
  }

  lemma CallIsFormed()
    ensures Forests.Print(Call) == "INSTR(?, ?)'" && WellFormed(Call, true)
  {
    hide FragmentLength, FragmentClosed;
    LastQuoteIsFormed();
    PlaceholderOrder.TwoArgumentsRead();
    assert Forests.Print(LastQuote) == "'" + "" == "'";
    assert Forests.Print(Group(PlaceholderOrder.TwoArguments, LastQuote)) == "(" + ("?, ?" + (")" + "'"));
    assert "INSTR" + ("(" + ("?, ?" + (")" + "'"))) == "INSTR(?, ?)'";
  }

  lemma SlashThenCallIsFormed()
    ensures Forests.Print(SlashThenCall) == "'\\', 'INSTR(?, ?)'" && WellFormed(SlashThenCall, true)
  {
    hide FragmentLength, FragmentClosed;
    CallIsFormed();
    SlashFragment();
    assert "'\\', '" + "INSTR(?, ?)'" == "'\\', 'INSTR(?, ?)'";
  }

  /** The same literal, and one that holds the text of a call: the rewriter changes it. */
  lemma LiteralIsRewritten()
    ensures RenderInstr(["?", "?"]).Some?
    ensures Rewritten("INSTR", RenderInstr, "'\\', 'INSTR(?, ?)'").0 ==
            "'\\', '" + (RenderInstr(["?", "?"]).value + "'")
  {
    hide Rewritten, RenderInstr, CallOf, WellFormed, Forests.Print;
    SlashThenCallIsFormed();
    RewriterOnForest("INSTR", RenderInstr, SlashThenCall);
    PlaceholderOrder.TwoArgumentsCall(LastQuote);
    assert SkipBlanks(Call.next) == Call.next;
    assert Emit("INSTR", RenderInstr, LastQuote).0 == "'" + "" == "'";
    assert Emit("INSTR", RenderInstr, Call).0 == RenderInstr(["?", "?"]).value + "'";
  }
}
