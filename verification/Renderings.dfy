/** The function renderings keep the marks of clean arguments. */
module Renderings {
  import opened Text
  import opened Lexer
  import opened Calls
  import opened SqlFunctions
  import opened Placeholders
  import opened NeutralMarks

  function MarksOf(m: char -> bool, parts: seq<string>): string {
    if parts == [] then "" else Marks(m, Code, parts[0]) + MarksOf(m, parts[1..])
  }

  predicate CleanParts(parts: seq<string>) {
    forall k :: 0 <= k < |parts| ==> Clean(parts[k]) && Trimmed(parts[k])
  }

  predicate SameMarks(ordered: bool, a: string, b: string) {
    if ordered then a == b else multiset(a) == multiset(b)
  }

  /** The rendering keeps the marks of clean arguments, in order or at least in number. */
  ghost predicate Keeps(m: char -> bool, render: Renderer, ordered: bool) {
    forall parts :: CleanParts(parts) && render(parts).Some? ==>
                      exists marks :: Solid(m, render(parts).value, marks)
                                      && SameMarks(ordered, marks, MarksOf(m, parts))
  }

  lemma MarksOfTwo(m: char -> bool, a: string, b: string)
    ensures MarksOf(m, [a, b]) == Marks(m, Code, a) + Marks(m, Code, b)
  {
    assert [a, b][1..] == [b] && [b][1..] == [];
    assert MarksOf(m, [b]) == Marks(m, Code, b) + "";
  }

  lemma {:induction false} MarksOfThree(m: char -> bool, a: string, b: string, c: string)
    ensures MarksOf(m, [a, b, c]) == Marks(m, Code, a) + (Marks(m, Code, b) + Marks(m, Code, c))
  {
    assert [a, b, c][1..] == [b, c];
    MarksOfTwo(m, b, c);
  }

  lemma IfLiterals()
    ensures AllInert("(CASE WHEN ") && AllInert(" THEN ") && AllInert(" ELSE ") && AllInert(" END)")
  {
  }

  lemma InstrLiterals()
    ensures AllInert("POSITION(CAST(") && AllInert(" AS text) IN CAST(") && AllInert(" AS text))")
  {
  }

  lemma SplitPartLiterals()
    ensures AllInert("split_part(CAST(") && AllInert(" AS text), CAST(") && AllInert(" AS text), ") && AllInert(")")
  {
  }

  lemma ReverseLiterals()
    ensures AllInert("reverse(split_part(reverse(CAST(") && AllInert(" AS text)), reverse(CAST(")
    ensures AllInert(" AS text)), ") && AllInert("))")
  {
  }

  lemma IfRendering(m: char -> bool, args: seq<string>)
    requires NeutralClass(m) && CleanParts(args) && |args| == 3
    ensures Solid(m, RenderIf(args).value, MarksOf(m, args))
  {
    hide Marks, Safe, After, Trim, Solid, AllInert, MarksOf, Clean;
    IfLiterals();
    var (a, b, c) := (args[0], args[1], args[2]);
    TrimmedStays(a); TrimmedStays(b); TrimmedStays(c);
    SolidInert(m, " END)");
    SolidSegment(m, " ELSE ", c, " END)", "");
    SolidSegment(m, " THEN ", b, " ELSE " + (c + " END)"), Marks(m, Code, c) + "");
    SolidSegment(m, "(CASE WHEN ", a, " THEN " + (b + (" ELSE " + (c + " END)"))),
                 Marks(m, Code, b) + (Marks(m, Code, c) + ""));
    MarksOfThree(m, a, b, c);
    assert args == [a, b, c];
    assert Marks(m, Code, c) + "" == Marks(m, Code, c);
  }

  /** INSTR: the marks of the second argument come first. */
  lemma InstrRendering(m: char -> bool, args: seq<string>)
    requires NeutralClass(m) && CleanParts(args) && |args| == 2
    ensures Solid(m, RenderInstr(args).value, Marks(m, Code, args[1]) + Marks(m, Code, args[0]))
    ensures MarksOf(m, args) == Marks(m, Code, args[0]) + Marks(m, Code, args[1])
  {
    hide Marks, Safe, After, Trim, Solid, AllInert, MarksOf, Clean;
    InstrLiterals();
    var (a, b) := (args[0], args[1]);
    TrimmedStays(a); TrimmedStays(b);
    SolidInert(m, " AS text))");
    SolidSegment(m, " AS text) IN CAST(", a, " AS text))", "");
    SolidSegment(m, "POSITION(CAST(", b, " AS text) IN CAST(" + (a + " AS text))"), Marks(m, Code, a) + "");
    MarksOfTwo(m, a, b);
    assert args == [a, b];
    assert Marks(m, Code, a) + "" == Marks(m, Code, a);
  }

  /** Dropping the sign of a count loses no mark. */
  lemma SignDropped(m: char -> bool, count: string)
    requires NeutralClass(m) && Clean(count) && StartsWith(count, '-')
    ensures Clean(count[1..]) && Marks(m, Code, count[1..]) == Marks(m, Code, count)
  {
    assert m('-') ==> Neutral('-');
    assert Next(Code, '-') == Dash && Safe(Dash, count[1..]) && Reach(Dash, count[1..]).InCode();
    var rest := count[1..];
    if rest != "" {
      assert Next(Dash, rest[0]) == Next(Code, rest[0]);
    }
  }

  lemma SubstringIndexRendering(m: char -> bool, args: seq<string>)
    requires NeutralClass(m) && CleanParts(args) && |args| == 3
    ensures Solid(m, RenderSubstringIndex(args).value, MarksOf(m, args))
  {
    hide Marks, Safe, After, Trim, Solid, AllInert, MarksOf, Clean;
    SplitPartLiterals();
    ReverseLiterals();
    var (a, b, c) := (args[0], args[1], args[2]);
    TrimmedStays(a); TrimmedStays(b); TrimmedStays(c);
    MarksOfThree(m, a, b, c);
    assert args == [a, b, c];
    assert Marks(m, Code, c) + "" == Marks(m, Code, c);
    if StartsWith(c, '-') {
      var n := c[1..];
      SignDropped(m, c);
      SolidInert(m, "))");
      SolidSegment(m, " AS text)), ", n, "))", "");
      SolidSegment(m, " AS text)), reverse(CAST(", b, " AS text)), " + (n + "))"), Marks(m, Code, c) + "");
      SolidSegment(m, "reverse(split_part(reverse(CAST(", a,
                   " AS text)), reverse(CAST(" + (b + (" AS text)), " + (n + "))"))),
                   Marks(m, Code, b) + (Marks(m, Code, c) + ""));
    } else {
      SolidInert(m, ")");
      SolidSegment(m, " AS text), ", c, ")", "");
      SolidSegment(m, " AS text), CAST(", b, " AS text), " + (c + ")"), Marks(m, Code, c) + "");
      SolidSegment(m, "split_part(CAST(", a, " AS text), CAST(" + (b + (" AS text), " + (c + ")"))),
                   Marks(m, Code, b) + (Marks(m, Code, c) + ""));
    }
  }

  lemma IfKeeps(m: char -> bool)
    requires NeutralClass(m)
    ensures Keeps(m, RenderIf, true)
  {
    hide Solid, MarksOf, CleanParts, RenderIf;
    forall parts | CleanParts(parts) && RenderIf(parts).Some?
      ensures exists marks :: Solid(m, RenderIf(parts).value, marks) && SameMarks(true, marks, MarksOf(m, parts))
    {
      OnlyThree(parts);
      IfRendering(m, parts);
    }
  }

  lemma OnlyThree(parts: seq<string>)
    ensures RenderIf(parts).Some? ==> |parts| == 3
    ensures RenderSubstringIndex(parts).Some? ==> |parts| == 3
    ensures RenderInstr(parts).Some? ==> |parts| == 2
  {
  }

  lemma SubstringIndexKeeps(m: char -> bool)
    requires NeutralClass(m)
    ensures Keeps(m, RenderSubstringIndex, true)
  {
    hide Solid, MarksOf, CleanParts, RenderSubstringIndex;
    forall parts | CleanParts(parts) && RenderSubstringIndex(parts).Some?
      ensures exists marks :: Solid(m, RenderSubstringIndex(parts).value, marks)
                              && SameMarks(true, marks, MarksOf(m, parts))
    {
      OnlyThree(parts);
      SubstringIndexRendering(m, parts);
    }
  }

  lemma InstrKeeps(m: char -> bool)
    requires NeutralClass(m)
    ensures Keeps(m, RenderInstr, false)
  {
    hide Solid, MarksOf, CleanParts, RenderInstr;
    forall parts | CleanParts(parts) && RenderInstr(parts).Some?
      ensures exists marks :: Solid(m, RenderInstr(parts).value, marks) && SameMarks(false, marks, MarksOf(m, parts))
    {
      OnlyThree(parts);
      InstrRendering(m, parts);
      assert SameMarks(false, Marks(m, Code, parts[1]) + Marks(m, Code, parts[0]), MarksOf(m, parts));
    }
  }
}
