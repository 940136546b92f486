/** What INSTR does to the order of placeholders: over a whole text for symbols that can be told apart, and for real
    placeholders by the numbers they get. */
module PlaceholderOrder {
  import opened Text
  import opened Lexer
  import opened Decimal
  import opened Fragments
  import opened Calls
  import opened Forests
  import opened ForestReading
  import opened SqlFunctions
  import opened Placeholders
  import opened NeutralMarks
  import opened Renderings
  import opened Conservation
  import opened ParameterCount

  // ---------------------------------------------------------------------------------------------------------------
  // Whole texts

  /** Every outermost INSTR that is rendered has an argument without marks. */
  predicate OneSided(m: char -> bool, f: Forest) {
    match f
    case Nil => true
    case Word(_, next) =>
      if CallOf("INSTR", RenderInstr, f).None? then OneSided(m, next)
      else
        var parts := Csv.Split(Print(SkipBlanks(next).inner));
        && parts.Ok? && |parts.value| == 2
        && (Marks(m, Code, parts.value[0]) == "" || Marks(m, Code, parts.value[1]) == "")
        && OneSided(m, SkipBlanks(next).next)
    case Fragment(_, next) => OneSided(m, next)
    case Symbol(_, next) => OneSided(m, next)
    case Group(inner, next) => OneSided(m, inner) && OneSided(m, next)
  }

  lemma DistinctParts(x: string, y: string)
    requires Distinct(x + y)
    ensures Distinct(x) && Distinct(y)
    ensures x + y == y + x <==> x == "" || y == ""
  {
    forall i, j | 0 <= i < j < |x| ensures x[i] != x[j] {
      assert (x + y)[i] == x[i] && (x + y)[j] == x[j];
    }
    forall i, j | 0 <= i < j < |y| ensures y[i] != y[j] {
      assert (x + y)[|x| + i] == y[i] && (x + y)[|x| + j] == y[j];
    }
    if x == "" || y == "" {
      assert x + y == y + x;
    } else {
      assert (x + y)[0] == x[0] && (y + x)[0] == y[0] && (x + y)[|x|] == y[0];
    }
  }

  /** Two stretches keep their order exactly if each of them does. */
  lemma {:induction false} OrderJoins(m: char -> bool, st: State, a: string, b: string, a': string, b': string)
    requires Kept(m, false, st, a, b) && Kept(m, false, Reach(st, a), a', b')
    ensures Marks(m, st, b + b') == Marks(m, st, a + a') <==>
            Marks(m, st, b) == Marks(m, st, a) && Marks(m, Reach(st, a), b') == Marks(m, Reach(st, a), a')
    ensures Marks(m, st, a + a') == Marks(m, st, a) + Marks(m, Reach(st, a), a')
  {
    hide Marks, Safe, Reach;
    ReadConcat(m, st, a, a');
    ReadConcat(m, st, b, b');
    assert |multiset(Marks(m, st, b))| == |Marks(m, st, b)| && |multiset(Marks(m, st, a))| == |Marks(m, st, a)|;
    SplitEqual(Marks(m, st, b), Marks(m, st, a), Marks(m, Reach(st, a), b'), Marks(m, Reach(st, a), a'));
  }

  /** A rendered INSTR by itself. */
  lemma {:induction false} CallOrder(m: char -> bool, f: Forest, top: bool, st: State) returns (call: string)
    requires NeutralClass(m) && st.InCode()
    requires f.Word? && IsWord(f.text) && WellFormed(SkipBlanks(f.next), top) && Safe(st, Print(f))
    requires CallOf("INSTR", RenderInstr, f).Some? && Distinct(Marks(m, st, Print(f)))
    ensures Print(f) == call + Print(SkipBlanks(f.next).next) && Reach(st, call) == Code
    ensures Kept(m, false, st, call, CallOf("INSTR", RenderInstr, f).value)
    ensures var parts := Csv.Split(Print(SkipBlanks(f.next).inner));
            && parts.Ok? && |parts.value| == 2
            && (Marks(m, st, CallOf("INSTR", RenderInstr, f).value) == Marks(m, st, call) <==>
                Marks(m, Code, parts.value[0]) == "" || Marks(m, Code, parts.value[1]) == "")
  {
    hide Marks, Safe, After, WellFormed, SkipBlanks, Print, Solid, MarksOf, CleanParts, Distinct, Csv.Split,
         RenderInstr, Keeps, CallOf, Kept;
    InstrKeeps(m);
    call := CallKeeps(m, false, "INSTR", RenderInstr, f, top, st);
    var parts := Csv.Split(Print(SkipBlanks(f.next).inner)).value;
    var replacement := CallOf("INSTR", RenderInstr, f).value;
    OnlyThree(parts);
    InstrRendering(m, parts);
    var (x, y) := (Marks(m, Code, parts[0]), Marks(m, Code, parts[1]));
    SolidFromAnyCode(m, st, replacement, y + x);
    ReadConcat(m, st, call, Print(SkipBlanks(f.next).next));
    DistinctParts(x + y, Marks(m, Code, Print(SkipBlanks(f.next).next)));
    DistinctParts(x, y);
  }

  lemma {:induction false} TransformOrder(m: char -> bool, f: Forest, top: bool, st: State)
    requires NeutralClass(m) && WellFormed(f, top) && st.InCode() && Safe(st, Print(f))
    requires Reach(st, Print(f)).InCode() && Distinct(Marks(m, st, Print(f)))
    ensures Marks(m, st, Emit("INSTR", RenderInstr, f).0) == Marks(m, st, Print(f)) <==> OneSided(m, f)
    decreases f, 0
  {
    hide Body, Marks, CallOf, Kept, Distinct, Keeps, RenderInstr, Csv.Split, Safe, After;
    InstrKeeps(m);
    match f
    case Nil =>
    case Word(text, next) =>
      BlanksKeepWellFormed(next, top);
      if CallOf("INSTR", RenderInstr, f).Some? {
        var call := CallOrder(m, f, top, st);
        var after := SkipBlanks(next).next;
        ReadConcat(m, st, call, Print(after));
        DistinctParts(Marks(m, st, call), Marks(m, Code, Print(after)));
        TransformKeeps(m, false, "INSTR", RenderInstr, after, top, Code);
        TransformOrder(m, after, top, Code);
        OrderJoins(m, st, call, CallOf("INSTR", RenderInstr, f).value, Print(after),
                   Emit("INSTR", RenderInstr, after).0);
      } else {
        WordIsCode(st, text);
        OrderBehind(m, st, text, next, top);
      }
    case Fragment(text, next) =>
      ReadConcat(m, st, text, Print(next));
      if FragmentClosed(text) {
        FragmentReads(st, text);
        OrderBehind(m, st, text, next, top);
      } else {
        assert Print(f) == text && Emit("INSTR", RenderInstr, f).0 == text;
      }
    case Symbol(c, next) =>
      SymbolReads(st, c, Print(next));
      ReadConcat(m, st, [c], Print(next));
      AfterOne(st, c);
      OrderBehind(m, st, [c], next, top);
    case Group(inner, next) =>
      GroupReads(m, st, Print(inner), Print(next));
      InnerEndsInCode(m, inner, Code);
      DistinctParts(Marks(m, Code, Print(inner)), Marks(m, Code, Print(next)));
      TransformKeeps(m, false, "INSTR", RenderInstr, inner, false, Code);
      TransformKeeps(m, false, "INSTR", RenderInstr, next, top, Code);
      TransformOrder(m, inner, false, Code);
      TransformOrder(m, next, top, Code);
      GroupOrder(m, st, Print(inner), Print(next), Emit("INSTR", RenderInstr, inner).0,
                 Emit("INSTR", RenderInstr, next).0);
  }

  /** Text that stays, in front of a forest. */
  lemma {:induction false} OrderBehind(m: char -> bool, st: State, text: string, next: Forest, top: bool)
    requires NeutralClass(m) && WellFormed(next, top) && Safe(st, text + Print(next)) && Reach(st, text).InCode()
    requires Reach(st, text + Print(next)).InCode() && Distinct(Marks(m, st, text + Print(next)))
    ensures Marks(m, st, text + Emit("INSTR", RenderInstr, next).0) == Marks(m, st, text + Print(next)) <==>
            OneSided(m, next)
    decreases next, 1
  {
    hide Marks, Safe, After, WellFormed, Print, Distinct, Emit, OneSided, Kept, Keeps;
    var rest := Print(next);
    ReadConcat(m, st, text, rest);
    DistinctParts(Marks(m, st, text), Marks(m, Reach(st, text), rest));
    InstrKeeps(m);
    TransformKeeps(m, false, "INSTR", RenderInstr, next, top, Reach(st, text));
    TransformOrder(m, next, top, Reach(st, text));
    KeptSelf(m, false, st, text);
    OrderJoins(m, st, text, text, rest, Emit("INSTR", RenderInstr, next).0);
  }

  lemma {:induction false} GroupOrder(m: char -> bool, st: State, inner: string, next: string,
                                      inner': string, next': string)
    requires NeutralClass(m) && st.InCode() && Reach(Code, inner).InCode()
    requires Kept(m, false, Code, inner, inner') && Kept(m, false, Code, next, next')
    ensures Marks(m, st, "(" + (inner' + (")" + next'))) == Marks(m, st, "(" + (inner + (")" + next))) <==>
            Marks(m, Code, inner') == Marks(m, Code, inner) && Marks(m, Code, next') == Marks(m, Code, next)
  {
    hide Marks, Safe, After;
    GroupReads(m, st, inner, next);
    GroupReads(m, st, inner', next');
    assert |multiset(Marks(m, Code, inner))| == |Marks(m, Code, inner)|;
    assert |multiset(Marks(m, Code, inner'))| == |Marks(m, Code, inner')|;
    SplitEqual(Marks(m, Code, inner'), Marks(m, Code, inner), Marks(m, Code, next'), Marks(m, Code, next));
  }

  /** The INSTR rewrite of a clean text keeps the order of distinguishable placeholders exactly if every outermost INSTR
      that it renders has an argument without any. */
  lemma {:induction false} InstrOrderOfText(m: char -> bool, s: string)
    requires NeutralClass(m) && Clean(s) && Distinct(Marks(m, Code, s))
    ensures Marks(m, Code, Rewritten("INSTR", RenderInstr, s).0) == Marks(m, Code, s) <==> OneSided(m, ParseAll(s))
  {
    hide Marks, Safe, After, Rewritten, Emit, Print, WellFormed, ParseAll, Distinct, OneSided, RenderInstr;
    ParseAllIsFaithful(s);
    RewriterOnText("INSTR", RenderInstr, s);
    TransformOrder(m, ParseAll(s), true, Code);
  }

  // ---------------------------------------------------------------------------------------------------------------
  // Real placeholders

  lemma {:induction false} NumbersBehindInert(text: string, rest: string, st: State, n: nat)
    requires AllInert(text) && text != "" && st.InCode()
    ensures Substituted(Dollar, st, text + rest, n) == text + Substituted(Dollar, Code, rest, n)
  {
    hide Substituted, CountFrom, Marks, Safe;
    InertReads(IsQuestion, st, text);
    CountIsMarks(st, text);
    SubstitutedConcat(Dollar, st, text, rest, n);
    NothingToSubstitute(Dollar, st, text, n);
  }

  lemma {:induction false} NumbersBehindArgument(arg: string, rest: string, n: nat)
    ensures Substituted(Dollar, Code, arg + rest, n) ==
            Substituted(Dollar, Code, arg, n)
            + Substituted(Dollar, Reach(Code, arg), rest, n + CountPlaceholders(arg))
  {
    SubstitutedConcat(Dollar, Code, arg, rest, n);
  }

  /** The numbers in a rendered INSTR: the second argument's placeholders are counted first. */
  lemma {:induction false} InstrNumbers(a: string, b: string)
    requires CleanParts([a, b])
    ensures Numbered(RenderInstr([a, b]).value) ==
            "POSITION(CAST(" + (Substituted(Dollar, Code, b, 0) + (" AS text) IN CAST(" +
            (Substituted(Dollar, Code, a, CountPlaceholders(b)) + " AS text))")))
  {
    hide Substituted, Safe, After, Marks, Trim, AllInert;
    InstrLiterals();
    assert Clean([a, b][0]) && Trimmed([a, b][0]) && Clean([a, b][1]) && Trimmed([a, b][1]);
    TrimmedStays(a);
    TrimmedStays(b);
    var tail := a + " AS text))";
    var n := CountPlaceholders(b);
    NumbersBehindInert("POSITION(CAST(", b + (" AS text) IN CAST(" + tail), Code, 0);
    NumbersBehindArgument(b, " AS text) IN CAST(" + tail, 0);
    NumbersBehindInert(" AS text) IN CAST(", tail, Reach(Code, b), n);
    NumbersBehindArgument(a, " AS text))", n);
    NumbersBehindInert(" AS text))", "", Reach(Code, a), n + CountPlaceholders(a));
    NoNumbers(n + CountPlaceholders(a));
    assert " AS text))" + "" == " AS text))";
  }

  lemma {:induction false} NoNumbers(n: nat)
    ensures Substituted(Dollar, Code, "", n) == ""
  {
  }

  lemma {:induction false} NumeralGrows(n: nat, m: nat)
    requires n <= m
    ensures |Numeral(n)| <= |Numeral(m)|
    ensures Numeral(n) == Numeral(m) ==> n == m
    decreases m
  {
    if n >= 10 {
      NumeralGrows(n / 10, m / 10);
    }
    ValueOfNumeral(n);
    ValueOfNumeral(m);
  }

  /** Numbering from a higher start gives another text, unless there is nothing to number. */
  lemma {:induction false} StartsDiffer(st: State, s: string, n: nat, m: nat)
    requires n < m
    ensures |Substituted(Dollar, st, s, n)| <= |Substituted(Dollar, st, s, m)|
    ensures Substituted(Dollar, st, s, n) == Substituted(Dollar, st, s, m) <==> CountFrom(st, s) == 0
    decreases s
  {
    hide Numeral, Placeholders.Next;
    if s != "" {
      if IsPlaceholder(st, s[0]) {
        StartsDiffer(Code, s[1..], n + 1, m + 1);
        NumeralGrows(n + 1, m + 1);
        DollarGrows(n + 1, m + 1);
        var (x, y) := (Substituted(Dollar, Code, s[1..], n + 1), Substituted(Dollar, Code, s[1..], m + 1));
        if |Dollar(n + 1)| == |Dollar(m + 1)| {
          SplitEqual(Dollar(n + 1), Dollar(m + 1), x, y);
        }
      } else {
        StartsDiffer(Placeholders.Next(st, s[0]), s[1..], n, m);
        var st' := Placeholders.Next(st, s[0]);
        SplitEqual([s[0]], [s[0]], Substituted(Dollar, st', s[1..], n), Substituted(Dollar, st', s[1..], m));
      }
    }
  }

  lemma {:induction false} DollarGrows(n: nat, m: nat)
    requires n < m
    ensures |Dollar(n)| <= |Dollar(m)| && Dollar(n) != Dollar(m)
  {
    hide Numeral;
    NumeralGrows(n, m);
    assert Dollar(n)[1..] == Numeral(n) && Dollar(m)[1..] == Numeral(m);
  }

  /** The placeholders of both arguments keep the numbers they have in the source, where the first argument's come
      first, exactly if one argument has none. */
  lemma {:induction false} InstrKeepsNumbers(a: string, b: string)
    requires CleanParts([a, b])
    ensures (Substituted(Dollar, Code, a, CountPlaceholders(b)) == Substituted(Dollar, Code, a, 0)
             && Substituted(Dollar, Code, b, 0) == Substituted(Dollar, Code, b, CountPlaceholders(a))) <==>
            CountPlaceholders(a) == 0 || CountPlaceholders(b) == 0
  {
    hide Substituted, CountFrom;
    if CountPlaceholders(b) > 0 {
      StartsDiffer(Code, a, 0, CountPlaceholders(b));
    }
    if CountPlaceholders(a) > 0 {
      StartsDiffer(Code, b, 0, CountPlaceholders(a));
    }
  }

  const TwoArguments := Symbol('?', Symbol(',', Symbol(' ', Symbol('?', Nil))))

  lemma TwoArgumentsRead()
    ensures WellFormed(TwoArguments, false) && PlainBackticks(TwoArguments) && Print(TwoArguments) == "?, ?"
    ensures ArgumentPieces(TwoArguments) == ["?", " ?"]
  {
    assert "?" + "" == "?" && " " + "?" == " ?";
    assert ArgumentPieces(Nil) == [""];
    assert ArgumentPieces(Symbol('?', Nil)) == ["?"];
    assert ArgumentPieces(Symbol(' ', Symbol('?', Nil))) == [" ?"];
    assert ArgumentPieces(Symbol(',', Symbol(' ', Symbol('?', Nil)))) == ["", " ?"];
  }

  lemma TwoArgumentsSplit()
    ensures Csv.Outcome(["?", " ?"]) == Ok(["?", "?"])
  {
    hide Trim;
    TrimmedStays("?");
    TrimPadded(" ", "?");
    assert " " + "?" == " ?";
    var ps := ["?", " ?"];
    assert Trim(ps[0]) == "?" && Trim(ps[1]) == "?";
    assert Csv.TrimAll(ps) == ["?", "?"];
  }

  /** INSTR with these arguments renders, whatever follows. */
  lemma TwoArgumentsCall(next: Forest)
    ensures RenderInstr(["?", "?"]).Some?
    ensures CallOf("INSTR", RenderInstr, Word("INSTR", Group(TwoArguments, next))) == RenderInstr(["?", "?"])
  {
    hide Rewritten, RenderInstr, Csv.Outcome, ArgumentPieces;
    TwoArgumentsRead();
    TwoArgumentsSplit();
    CallArguments(RenderInstr, TwoArguments);
    OnlyThree(["?", "?"]);
    TwoRender("?", "?");
  }

  lemma InstrOfTwo()
    ensures Rewritten("INSTR", RenderInstr, "INSTR(?, ?)").0 == RenderInstr(["?", "?"]).value
  {
    hide Rewritten, RenderInstr, CallOf;
    var f := Word("INSTR", Group(TwoArguments, Nil));
    InstrFormed();
    RewriterOnForest("INSTR", RenderInstr, f);
    TwoArgumentsCall(Nil);
    assert SkipBlanks(f.next) == f.next;
    assert Emit("INSTR", RenderInstr, Nil).0 == "";
  }

  lemma TwoRender(a: string, b: string)
    ensures RenderInstr([a, b]).Some?
  {
  }

  lemma InstrFormed()
    ensures var f := Word("INSTR", Group(TwoArguments, Nil)); WellFormed(f, true) && Print(f) == "INSTR(?, ?)"
  {
    hide ArgumentPieces;
    TwoArgumentsRead();
    assert Print(Group(TwoArguments, Nil)) == "(" + ("?, ?" + (")" + ""));
  }

  lemma OnePlaceholder(n: nat)
    ensures Substituted(Dollar, Code, "?", n) == Dollar(n + 1) && CountPlaceholders("?") == 1
    ensures CleanParts(["?", "?"])
  {
    assert "?"[1..] == "";
    assert Dollar(n + 1) + "" == Dollar(n + 1);
    assert Clean("?") && Trimmed("?");
  }

  /** The failing input: the first parameter becomes the needle, which is the second argument in the source. */
  lemma InstrSwapsParameters()
    ensures Numbered(Rewritten("INSTR", RenderInstr, "INSTR(?, ?)").0) ==
            "POSITION(CAST(" + ("$1" + (" AS text) IN CAST(" + ("$2" + " AS text))")))
  {
    hide Rewritten, Numbered, Substituted, CountFrom, CleanParts, Trim, RenderInstr, Dollar;
    InstrOfTwo();
    OnePlaceholder(0);
    OnePlaceholder(1);
    InstrNumbers("?", "?");
    FirstDollars();
  }

  lemma FirstDollars()
    ensures Dollar(1) == "$1" && Dollar(2) == "$2"
  {
  }
}
