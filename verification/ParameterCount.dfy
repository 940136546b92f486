/** What the function rewrites keep of the placeholders, and what the parameter count of prepared statements relies
    on. */
module ParameterCount {
  import opened Lexer
  import opened Calls
  import opened SqlFunctions
  import opened Placeholders
  import opened NeutralMarks
  import opened Renderings
  import opened Conservation

  /** IF and SUBSTRING_INDEX rewrites keep every neutral symbol outside quotes, in order. */
  lemma OrderKept(m: char -> bool, s: string)
    requires NeutralClass(m) && Clean(s)
    ensures var t := Rewritten("IF", RenderIf, s).0; Clean(t) && Marks(m, Code, t) == Marks(m, Code, s)
    ensures var u := Rewritten("SUBSTRING_INDEX", RenderSubstringIndex, s).0;
            Clean(u) && Marks(m, Code, u) == Marks(m, Code, s)
  {
    hide Marks, Clean, Rewritten, Keeps;
    IfKeeps(m);
    RewritingKeeps(m, true, "IF", RenderIf, s);
    SubstringIndexKeeps(m);
    RewritingKeeps(m, true, "SUBSTRING_INDEX", RenderSubstringIndex, s);
  }

  /** The INSTR rewrite keeps how often each neutral symbol occurs outside quotes. */
  lemma NumberKept(m: char -> bool, s: string)
    requires NeutralClass(m) && Clean(s)
    ensures var t := Rewritten("INSTR", RenderInstr, s).0;
            Clean(t) && multiset(Marks(m, Code, t)) == multiset(Marks(m, Code, s))
  {
    hide Marks, Clean, Rewritten, Keeps;
    InstrKeeps(m);
    RewritingKeeps(m, false, "INSTR", RenderInstr, s);
  }

  predicate Distinct(s: string) {
    forall i, j :: 0 <= i < j < |s| ==> s[i] != s[j]
  }

  /** The order of distinguishable placeholders through a rendered INSTR is kept exactly when one of its arguments
      has none. */
  lemma InstrOrder(m: char -> bool, a: string, b: string)
    requires NeutralClass(m) && CleanParts([a, b]) && Distinct(Marks(m, Code, a) + Marks(m, Code, b))
    ensures Marks(m, Code, RenderInstr([a, b]).value) == Marks(m, Code, a) + Marks(m, Code, b) <==>
            Marks(m, Code, a) == "" || Marks(m, Code, b) == ""
  {
    hide Marks, Clean, RenderInstr;
    var (x, y) := (Marks(m, Code, a), Marks(m, Code, b));
    InstrRendering(m, [a, b]);
    OnlyThree([a, b]);
    assert x == "" || y == "" ==> x + y == y + x;
    if x != "" && y != "" {
      assert (x + y)[0] == x[0] && (y + x)[0] == y[0] && (x + y)[|x|] == y[0];
    }
  }

  // ---------------------------------------------------------------------------------------------------------------
  // What the parameter count of prepared statements relies on

  predicate IsQuestion(c: char) {
    c == '?'
  }

  lemma {:induction false} CountIsMarks(st: State, s: string)
    ensures CountFrom(st, s) == |Marks(IsQuestion, st, s)|
    decreases s
  {
    if s != "" {
      CountIsMarks(Next(st, s[0]), s[1..]);
    }
  }

  /** All three function rewrites together keep the number of placeholders, so the numbers that are written into the
      translated text are exactly 1 to the count taken of the original. */
  lemma PlaceholderCountIsConserved(s: string)
    requires Clean(s)
    ensures Clean(RewriteFunctions(s))
    ensures CountPlaceholders(RewriteFunctions(s)) == CountPlaceholders(s)
  {
    hide Marks, Clean, Rewritten, Keeps, CountFrom;
    var m := IsQuestion;
    assert NeutralClass(m);
    var a := Rewritten("INSTR", RenderInstr, s).0;
    NumberKept(m, s);
    OrderKept(m, a);
    var b := Rewritten("SUBSTRING_INDEX", RenderSubstringIndex, a).0;
    OrderKept(m, b);
    var (x, y) := (Marks(m, Code, a), Marks(m, Code, s));
    assert |multiset(x)| == |x| && |multiset(y)| == |y|;
    CountIsMarks(Code, s);
    CountIsMarks(Code, RewriteFunctions(s));
  }
}
