/** The function rewrites on whole expressions: which calls are replaced, and that the value is MySQL's. */
module FunctionValues {
  import opened Text
  import opened Decimal
  import opened Passes
  import opened Calls
  import opened Forests
  import opened ForestReading
  import opened SqlFunctions
  import opened SubstringIndexText
  import opened Expressions
  import opened ExpressionForests
  import opened ExpressionRewriting
  import Csv

  // ---------------------------------------------------------------------------------------------------------------
  // One pass

  datatype Pass = Instrs | UpTos | Ifs

  function NameOf(p: Pass): string {
    match p case Instrs => "INSTR" case UpTos => "SUBSTRING_INDEX" case Ifs => "IF"
  }

  function RenderOf(p: Pass): Renderer {
    match p case Instrs => RenderInstr case UpTos => RenderSubstringIndex case Ifs => RenderIf
  }

  /** The expression is a call of the pass's function. */
  predicate Own(p: Pass, e: Expr) {
    match p case Instrs => e.Instr? case UpTos => e.UpTo? case Ifs => e.If?
  }

  /** What a call is replaced by; its arguments are left as they are. */
  function Replaced(e: Expr): Expr {
    match e
    case If(c, y, n) => Case(c, y, n)
    case Instr(t, p) => Position(Cast(p), Cast(t))
    case UpTo(t, d, n, negative) => Rendered(t, d, n, negative)
    case _ => e
  }

  /** The expression with the outermost calls of the pass's function replaced. */
  function Out(p: Pass, e: Expr): Expr {
    if Own(p, e) then Replaced(e)
    else
      match e
      case Constant(_) => e
      case Column(_) => e
      case Above(x, n) => Above(Out(p, x), n)
      case If(c, y, n) => If(Out(p, c), Out(p, y), Out(p, n))
      case Instr(t, x) => Instr(Out(p, t), Out(p, x))
      case UpTo(t, d, n, negative) => UpTo(Out(p, t), Out(p, d), n, negative)
      case Case(c, y, n) => Case(Out(p, c), Out(p, y), Out(p, n))
      case Position(x, t) => Position(Out(p, x), Out(p, t))
      case Cast(x) => Cast(Out(p, x))
      case Backwards(x) => Backwards(Out(p, x))
      case Field(t, d, n) => Field(Out(p, t), Out(p, d), n)
  }

  function OutBit(p: Pass, b: Bit): Bit {
    if b.Part? then Part(Out(p, b.e)) else b
  }

  function OutBits(p: Pass, bits: seq<Bit>): seq<Bit> {
    seq(|bits|, k requires 0 <= k < |bits| => OutBit(p, bits[k]))
  }

  lemma OutBitsConcat(p: Pass, a: seq<Bit>, b: seq<Bit>)
    ensures OutBits(p, a + b) == OutBits(p, a) + OutBits(p, b)
  {
    hide OutBit;
  }

  lemma OutOfList(p: Pass, a: seq<Bit>, between: seq<Bit>, b: seq<Bit>)
    ensures OutBits(p, a + between + b) == OutBits(p, a) + OutBits(p, between) + OutBits(p, b)
  {
    OutBitsConcat(p, a, between);
    OutBitsConcat(p, a + between, b);
  }

  lemma OutOfOne(p: Pass, b: Bit)
    ensures OutBits(p, [b]) == [OutBit(p, b)]
  {
    hide OutBit;
  }

  lemma SignsStay(p: Pass, w: string)
    ensures OutBits(p, Comma) == Comma && OutBits(p, Keyword(w)) == Keyword(w)
    ensures OutBits(p, [Sign(' '), Lit(w)]) == [Sign(' '), Lit(w)] && OutBits(p, []) == []
  {
  }

  lemma OutOfParts(p: Pass, e: Expr)
    requires !IsLeaf(e) && !Own(p, e)
    ensures var e' := Out(p, e); !IsLeaf(e') && Head(e') == Head(e) && Bits(e') == OutBits(p, Bits(e))
  {
    hide OutBits, Numeral;
    SignsStay(p, "END");
    match e {
      case Above(x, n) =>
        var rest: seq<Bit> := [Sign(' '), Sign('>'), Sign(' '), Lit(Numeral(n))];
        OutOfOne(p, Part(x));
        OutBitsConcat(p, [Part(x)], rest);
        NoParts(p, rest);
        assert Bits(e) == [Part(x)] + rest;
      case If(c, y, n) =>
        OutOfOne(p, Part(c)); OutOfOne(p, Part(y)); OutOfOne(p, Part(n));
        OutOfList(p, [Part(c)], Comma, [Part(y)]);
        OutOfList(p, [Part(c)] + Comma + [Part(y)], Comma, [Part(n)]);
      case Instr(t, x) =>
        OutOfOne(p, Part(t)); OutOfOne(p, Part(x));
        OutOfList(p, [Part(t)], Comma, [Part(x)]);
      case UpTo(t, d, n, negative) =>
        OutOfUpTo(p, t, d, n, negative);
      case Case(c, y, n) =>
        OutOfCase(p, c, y, n);
      case Position(x, t) =>
        OutOfOne(p, Part(x)); OutOfOne(p, Part(t));
        SignsStay(p, "IN");
        OutOfList(p, [Part(x)], Keyword("IN"), [Part(t)]);
      case Cast(x) =>
        OutOfOne(p, Part(x)); OutOfOne(p, Lit("text"));
        SignsStay(p, "AS");
        OutOfList(p, [Part(x)], Keyword("AS"), [Lit("text")]);
      case Backwards(x) =>
        OutOfOne(p, Part(x));
      case Field(t, d, n) =>
        OutOfOne(p, Part(t)); OutOfOne(p, Part(d)); OutOfOne(p, Lit(Numeral(n)));
        OutOfList(p, [Part(t)], Comma, [Part(d)]);
        OutOfList(p, [Part(t)] + Comma + [Part(d)], Comma, [Lit(Numeral(n))]);
    }
  }

  lemma OutOfUpTo(p: Pass, t: Expr, d: Expr, n: nat, negative: bool)
    requires !p.UpTos?
    ensures Bits(UpTo(Out(p, t), Out(p, d), n, negative)) == OutBits(p, Bits(UpTo(t, d, n, negative)))
  {
    hide OutBits, Numeral;
    SignsStay(p, "END");
    var sign: seq<Bit> := if negative then [Sign('-')] else [];
    OutOfOne(p, Part(t)); OutOfOne(p, Part(d)); OutOfOne(p, Lit(Numeral(n))); OutOfOne(p, Sign('-'));
    OutOfList(p, [Part(t)], Comma, [Part(d)]);
    OutOfList(p, [Part(t)] + Comma + [Part(d)], Comma, sign);
    OutBitsConcat(p, [Part(t)] + Comma + [Part(d)] + Comma + sign, [Lit(Numeral(n))]);
  }

  lemma NoParts(p: Pass, bits: seq<Bit>)
    requires forall k :: 0 <= k < |bits| ==> !bits[k].Part?
    ensures OutBits(p, bits) == bits
  {
  }

  lemma OutOfCase(p: Pass, c: Expr, y: Expr, n: Expr)
    ensures Bits(Case(Out(p, c), Out(p, y), Out(p, n))) == OutBits(p, Bits(Case(c, y, n)))
  {
    hide OutBits, Out;
    var a := [Lit("CASE")] + Keyword("WHEN") + [Part(c)];
    var b := a + Keyword("THEN") + [Part(y)];
    OutOfOne(p, Lit("CASE")); OutOfOne(p, Part(c)); OutOfOne(p, Part(y)); OutOfOne(p, Part(n));
    SignsStay(p, "WHEN"); SignsStay(p, "THEN"); SignsStay(p, "ELSE"); SignsStay(p, "END");
    OutOfList(p, [Lit("CASE")], Keyword("WHEN"), [Part(c)]);
    OutOfList(p, a, Keyword("THEN"), [Part(y)]);
    OutOfList(p, b, Keyword("ELSE"), [Part(n)]);
    OutBitsConcat(p, b + Keyword("ELSE") + [Part(n)], [Sign(' '), Lit("END")]);
  }

  lemma OutBitsTail(p: Pass, bits: seq<Bit>)
    requires bits != []
    ensures OutBits(p, bits) != [] && OutBits(p, bits)[0] == OutBit(p, bits[0])
    ensures OutBits(p, bits)[1..] == OutBits(p, bits[1..])
  {
  }

  // ---------------------------------------------------------------------------------------------------------------
  // Rendering a call

  lemma {:induction false} ShowIsTrimmed(e: Expr)
    ensures Show(e) != "" && Trimmed(Show(e)) && Trim(Show(e)) == Show(e)
  {
    hide ShowValue, Trim;
    if IsLeaf(e) {
      LeafIsTrimmed(e);
    } else {
      hide Show;
      ShowIsBits(e);
      ParenthesesEnd(Head(e), ShowBits(Bits(e)));
      HeadStarts(e);
    }
    TrimmedStays(Show(e));
  }

  lemma LeafIsTrimmed(e: Expr)
    requires IsLeaf(e)
    ensures Show(e) != "" && Trimmed(Show(e))
  {
    hide ShowValue, IsSpace;
    if e.Constant? {
      ValueIsTrimmed(e.value);
    } else {
      QuoteIsNoSpace();
      var s := Show(e);
      assert s[0] == '"' && s[|s| - 1] == '"';
    }
  }

  lemma QuoteIsNoSpace()
    ensures !IsSpace('"')
  {
  }

  lemma ValueIsTrimmed(v: Value)
    ensures ShowValue(v) != "" && Trimmed(ShowValue(v))
  {
    hide Numeral;
    if v.Number? {
      NumeralIsTrimmed(v.n, false);
      assert "" + Numeral(v.n) == Numeral(v.n);
    } else if v.Chars? {
      EncodedIsTrimmed(v.s);
    }
  }

  lemma ParenthesesEnd(head: string, inner: string)
    ensures var s := head + ("(" + (inner + ")"));
            s != "" && s[|s| - 1] == ')' && s[0] == if head == "" then '(' else head[0]
  {
  }

  lemma HeadStarts(e: Expr)
    requires !IsLeaf(e)
    ensures Head(e) == "" || !IsSpace(Head(e)[0])
  {
  }

  lemma IfRenders(c: Expr, y: Expr, n: Expr)
    ensures RenderIf([Show(c), Show(y), Show(n)]) == Some(Show(Case(c, y, n)))
  {
    hide Trim, Show;
    ShowIsTrimmed(c);
    ShowIsTrimmed(y);
    ShowIsTrimmed(n);
    CaseShown(c, y, n);
  }

  lemma InstrRenders(t: Expr, p: Expr)
    ensures RenderInstr([Show(t), Show(p)]) == Some(Show(Position(Cast(p), Cast(t))))
  {
    hide Trim;
    ShowIsTrimmed(t);
    ShowIsTrimmed(p);
    PositionText(Show(p), Show(t));
    ShownPosition(p, t);
  }

  lemma ShownPosition(p: Expr, t: Expr)
    ensures Show(Position(Cast(p), Cast(t))) ==
            "POSITION(" + (("CAST(" + (Show(p) + " AS text)")) + (" IN " + (("CAST(" + (Show(t) + " AS text)")) + ")")))
  {
    assert Show(Cast(p)) == "CAST(" + (Show(p) + " AS text)");
    assert Show(Cast(t)) == "CAST(" + (Show(t) + " AS text)");
  }

  lemma PositionText(p: string, t: string)
    ensures "POSITION(CAST(" + (p + (" AS text) IN CAST(" + (t + " AS text))"))) ==
            "POSITION(" + (("CAST(" + (p + " AS text)")) + (" IN " + (("CAST(" + (t + " AS text)")) + ")")))
  {
    ConcatAssoc("CAST(", t + " AS text)", ")");
    ConcatAssoc(t, " AS text)", ")");
    assert " AS text)" + ")" == " AS text))";
    var end := t + " AS text))";
    ConcatAssoc(" IN ", "CAST(", end);
    ConcatAssoc("CAST(", p + " AS text)", " IN " + ("CAST(" + end));
    ConcatAssoc(p, " AS text)", " IN " + ("CAST(" + end));
    ConcatAssoc(" AS text)", " IN " + "CAST(", end);
    assert " AS text)" + (" IN " + "CAST(") == " AS text) IN CAST(";
    ConcatAssoc("POSITION(", "CAST(", p + (" AS text) IN CAST(" + end));
    assert "POSITION(" + "CAST(" == "POSITION(CAST(";
  }

  // The pieces of an argument list

  lemma BelowComma(e: Expr, a: Expr, rest: seq<Bit>)
    requires a < e && Below(rest, e)
    ensures Below([Part(a)] + Comma + rest, e)
  {
  }

  lemma BuildComma(e: Expr, a: Expr, rest: seq<Bit>)
    requires a < e && Below(rest, e) && Below([Part(a)] + Comma + rest, e)
    ensures Build(e, [Part(a)] + Comma + rest, Nil) == ForestOf(a, Symbol(',', Symbol(' ', Build(e, rest, Nil))))
  {
    hide ForestOf;
    var (bits, b1, b2) := ([Part(a)] + Comma + rest, Comma + rest, [Sign(' ')] + rest);
    assert bits[1..] == b1 && b1[1..] == b2 && b2[1..] == rest;
    assert Build(e, b2, Nil) == Symbol(' ', Build(e, rest, Nil));
    assert Build(e, b1, Nil) == Symbol(',', Build(e, b2, Nil));
  }

  lemma FirstArgument(e: Expr, a: Expr, rest: seq<Bit>)
    requires a < e && Below(rest, e)
    ensures Below([Part(a)] + Comma + rest, e)
    ensures var pieces := ArgumentPieces(Build(e, rest, Nil));
            ArgumentPieces(Build(e, [Part(a)] + Comma + rest, Nil)) == [Show(a)] + Csv.Onto(" ", pieces)
  {
    hide Show, ForestOf, Build;
    BelowComma(e, a, rest);
    BuildComma(e, a, rest);
    var inner := Build(e, rest, Nil);
    PiecesOfExpr(a, Symbol(',', Symbol(' ', inner)));
    assert Show(a) + "" == Show(a);
  }

  lemma LastArgument(e: Expr, a: Expr)
    requires a < e
    ensures ArgumentPieces(Build(e, [Part(a)], Nil)) == [Show(a)]
  {
    hide Show, ForestOf;
    assert [Part(a)][1..] == [] && Build(e, [], Nil) == Nil;
    PiecesOfExpr(a, Nil);
    assert Show(a) + "" == Show(a);
  }

  lemma CountArgument(e: Expr, n: nat, negative: bool)
    ensures var bits := (if negative then [Sign('-')] else []) + [Lit(Numeral(n))];
            Below(bits, e) && ArgumentPieces(Build(e, bits, Nil)) == [CountText(n, negative)]
  {
    hide Numeral, ForestOf;
    var last := [Lit(Numeral(n))];
    assert last[1..] == [] && Build(e, [], Nil) == Nil;
    assert Build(e, last, Nil) == Word(Numeral(n), Nil);
    assert ArgumentPieces(Nil) == [""] && Numeral(n) + "" == Numeral(n) && "" + Numeral(n) == Numeral(n);
    assert ArgumentPieces(Word(Numeral(n), Nil)) == [Numeral(n)];
    if negative {
      var bits := [Sign('-')] + last;
      assert bits[1..] == last;
      assert Build(e, bits, Nil) == Symbol('-', Word(Numeral(n), Nil));
    } else {
      assert [] + last == last;
    }
  }

  lemma TwoPieces(a: string, b: string)
    requires a != "" && b != "" && Trimmed(a) && Trimmed(b)
    ensures [a] + Csv.Onto(" ", [b]) == [a, " " + b]
    ensures Csv.Outcome([a, " " + b]) == Ok([a, b])
  {
    hide Trim;
    TrimmedStays(a);
    BlankGoes(b);
    var ps := [a, " " + b];
    assert Trim(ps[0]) == a && Trim(ps[1]) == b;
    assert Csv.TrimAll(ps) == [a, b];
  }

  lemma ThreePieces(a: string, b: string, c: string)
    requires a != "" && b != "" && c != "" && Trimmed(a) && Trimmed(b) && Trimmed(c)
    ensures [a] + Csv.Onto(" ", [b] + Csv.Onto(" ", [c])) == [a, " " + b, " " + c]
    ensures Csv.Outcome([a, " " + b, " " + c]) == Ok([a, b, c])
  {
    hide Trim;
    TrimmedStays(a);
    BlankGoes(b);
    BlankGoes(c);
    var ps := [a, " " + b, " " + c];
    assert Trim(ps[0]) == a && Trim(ps[1]) == b && Trim(ps[2]) == c;
    assert Csv.TrimAll(ps) == [a, b, c];
  }

  lemma BlankGoes(s: string)
    requires Trimmed(s)
    ensures Trim(" " + s) == s
  {
    TrimPadded(" ", s);
  }

  /** Of a call by itself, the arguments render to the replacement. */
  lemma {:induction false} CallRenders(p: Pass, e: Expr)
    requires Own(p, e) && Plain(e)
    ensures RenderArgs(RenderOf(p), Forests.Print(Build(e, Bits(e), Nil))) == Some(Show(Replaced(e)))
  {
    hide Show, Forests.Print, Csv.Outcome, RenderIf, RenderInstr, RenderSubstringIndex, RenderArgs, WellFormed,
         ForestOf, Build, Numeral, Bits, ArgumentPieces;
    InnerIsFormed(e);
    CallArguments(RenderOf(p), Build(e, Bits(e), Nil));
    match e {
      case If(c, y, n) =>
        IfArguments(c, y, n);
        IfRenders(c, y, n);
      case Instr(t, x) =>
        InstrArguments(t, x);
        InstrRenders(t, x);
      case UpTo(t, d, n, negative) =>
        UpToArguments(t, d, n, negative);
        ShowIsTrimmed(t); ShowIsTrimmed(d);
        RenderedText(t, d, n, negative);
    }
  }

  lemma IfArguments(c: Expr, y: Expr, n: Expr)
    ensures var e := If(c, y, n);
            Csv.Outcome(ArgumentPieces(Build(e, Bits(e), Nil))) == Ok([Show(c), Show(y), Show(n)])
  {
    hide Show, Csv.Outcome, ForestOf, Build, ArgumentPieces;
    var e := If(c, y, n);
    ShowIsTrimmed(c); ShowIsTrimmed(y); ShowIsTrimmed(n);
    LastArgument(e, n);
    FirstArgument(e, y, [Part(n)]);
    FirstArgument(e, c, [Part(y)] + Comma + [Part(n)]);
    assert Bits(e) == [Part(c)] + Comma + ([Part(y)] + Comma + [Part(n)]);
    ThreePieces(Show(c), Show(y), Show(n));
  }

  lemma InstrArguments(t: Expr, x: Expr)
    ensures var e := Instr(t, x); Csv.Outcome(ArgumentPieces(Build(e, Bits(e), Nil))) == Ok([Show(t), Show(x)])
  {
    hide Show, Csv.Outcome, ForestOf, Build, ArgumentPieces;
    var e := Instr(t, x);
    ShowIsTrimmed(t); ShowIsTrimmed(x);
    LastArgument(e, x);
    FirstArgument(e, t, [Part(x)]);
    TwoPieces(Show(t), Show(x));
  }

  lemma UpToArguments(t: Expr, d: Expr, n: nat, negative: bool)
    ensures var e := UpTo(t, d, n, negative);
            Csv.Outcome(ArgumentPieces(Build(e, Bits(e), Nil))) == Ok([Show(t), Show(d), CountText(n, negative)])
  {
    hide Show, Csv.Outcome, ForestOf, Build, ArgumentPieces, Numeral;
    var e := UpTo(t, d, n, negative);
    var last := (if negative then [Sign('-')] else []) + [Lit(Numeral(n))];
    ShowIsTrimmed(t); ShowIsTrimmed(d);
    NumeralIsTrimmed(n, negative);
    CountArgument(e, n, negative);
    FirstArgument(e, d, last);
    FirstArgument(e, t, [Part(d)] + Comma + last);
    assert Bits(e) == [Part(t)] + Comma + ([Part(d)] + Comma + last);
    ThreePieces(Show(t), Show(d), CountText(n, negative));
  }

  // ---------------------------------------------------------------------------------------------------------------
  // One pass over an expression

  lemma NoCall(p: Pass, w: string, next: Forest)
    requires NoFunction(w)
    ensures Emit(NameOf(p), RenderOf(p), Word(w, next)).0 == w + Emit(NameOf(p), RenderOf(p), next).0
  {
    hide ToUpper;
    assert ToUpper(NameOf(p)) == NameOf(p) by {
      NamesAreUpper(p);
    }
    assert CallOf(NameOf(p), RenderOf(p), Word(w, next)) == None;
  }

  lemma NamesAreUpper(p: Pass)
    ensures ToUpper(NameOf(p)) == NameOf(p)
  {
    hide ToUpper;
    var s := NameOf(p);
    assert forall k :: 0 <= k < |s| ==> Upper(s[k]) == s[k];
  }

  lemma HeadsAreUpper(e: Expr)
    requires !IsLeaf(e)
    ensures forall p: Pass :: EqIgnoreCase(Head(e), NameOf(p)) <==> Own(p, e)
  {
    hide ToUpper;
    forall p: Pass ensures EqIgnoreCase(Head(e), NameOf(p)) <==> Own(p, e) {
      NamesAreUpper(p);
      HeadIsName(p, e);
    }
  }

  lemma HeadIsName(p: Pass, e: Expr)
    requires !IsLeaf(e)
    ensures ToUpper(Head(e)) == NameOf(p) <==> Own(p, e)
  {
    hide ToUpper;
    var (h, n) := (Head(e), NameOf(p));
    if Own(p, e) {
      NamesAreUpper(p);
    } else {
      assert |h| != |n|;
    }
  }

  lemma {:induction false} EmitsExpr(p: Pass, e: Expr, next: Forest)
    requires Plain(e) && Stops(next)
    ensures Emit(NameOf(p), RenderOf(p), ForestOf(e, next)).0 ==
            Show(Out(p, e)) + Emit(NameOf(p), RenderOf(p), next).0
    decreases e, 1, 0
  {
    hide Show, Bits, RenderOf, Emit, NoFunction, Unshielded;
    if IsLeaf(e) {
      EmitsLeaf(p, e, next);
    } else {
      BitsAreGood(e);
      if Own(p, e) {
        EmitsCall(p, e, next);
      } else {
        EmitsBits(p, e, Bits(e), Nil);
        NothingEmitted(p);
        OutOfParts(p, e);
        ShowIsBits(Out(p, e));
        EmitsGroup(p, e, next);
        var x := ShowBits(OutBits(p, Bits(e)));
        assert x + "" == x;
      }
    }
  }

  lemma {:induction false} EmitsLeaf(p: Pass, e: Expr, next: Forest)
    requires IsLeaf(e)
    ensures Emit(NameOf(p), RenderOf(p), LeafOf(e, next)).0 == Show(Out(p, e)) + Emit(NameOf(p), RenderOf(p), next).0
  {
    hide NoFunction, Numeral, CallOf;
    WordsAreGood();
    match e {
      case Constant(Null) => NoCall(p, "NULL", next);
      case Constant(Truth(b)) => NoCall(p, if b then "TRUE" else "FALSE", next);
      case Constant(Number(n)) =>
        NumeralIsGood(n);
        NoCall(p, Numeral(n), next);
      case _ =>
    }
  }

  lemma {:induction false} EmitsCall(p: Pass, e: Expr, next: Forest)
    requires Own(p, e) && Plain(e)
    ensures Emit(NameOf(p), RenderOf(p), ForestOf(e, next)).0 ==
            Show(Out(p, e)) + Emit(NameOf(p), RenderOf(p), next).0
  {
    hide Show, Bits, RenderOf, Build, RenderArgs, EqIgnoreCase, Forests.Print, Replaced, Plain;
    CallRenders(p, e);
    HeadsAreUpper(e);
    var group := Group(Build(e, Bits(e), Nil), next);
    assert SkipBlanks(group) == group;
    assert ForestOf(e, next) == Word(Head(e), group);
    assert CallOf(NameOf(p), RenderOf(p), Word(Head(e), group)) == Some(Show(Replaced(e)));
  }

  /** A call of another function is kept, and its inside rewritten. */
  lemma {:induction false} EmitsGroup(p: Pass, e: Expr, next: Forest)
    requires !IsLeaf(e) && !Own(p, e)
    ensures var (name, render) := (NameOf(p), RenderOf(p));
            Emit(name, render, ForestOf(e, next)).0 ==
            (Head(e) + ("(" + (Emit(name, render, Build(e, Bits(e), Nil)).0 + ")"))) + Emit(name, render, next).0
  {
    hide Bits, RenderOf, Build, EqIgnoreCase;
    var (name, render) := (NameOf(p), RenderOf(p));
    HeadsAreUpper(e);
    var inner := Build(e, Bits(e), Nil);
    var (x, t) := (Emit(name, render, inner).0, Emit(name, render, next).0);
    assert Emit(name, render, Group(inner, next)).0 == "(" + (x + (")" + t));
    ConcatAssoc(x, ")", t);
    ConcatAssoc("(", x + ")", t);
    ConcatAssoc(Head(e), "(" + (x + ")"), t);
    if Head(e) == "" {
      assert "" + ("(" + (x + ")")) == "(" + (x + ")");
    } else {
      assert CallOf(name, render, Word(Head(e), Group(inner, next))) == None;
    }
  }

  lemma {:induction false} EmitsBits(p: Pass, e: Expr, bits: seq<Bit>, next: Forest)
    requires Below(bits, e) && GoodBits(bits) && Stops(next)
    ensures Emit(NameOf(p), RenderOf(p), Build(e, bits, next)).0 ==
            ShowBits(OutBits(p, bits)) + Emit(NameOf(p), RenderOf(p), next).0
    ensures bits == [] || bits[0].Sign? ==> Stops(Build(e, bits, next))
    decreases e, 0, |bits|
  {
    hide Show, RenderOf, OutBits, Plain, NoFunction, CallOf, ForestOf;
    if bits == [] {
      NoOutBits(p);
    } else {
      var rest := Build(e, bits[1..], next);
      var (x, t) := (ShowBits(OutBits(p, bits[1..])), Emit(NameOf(p), RenderOf(p), next).0);
      GoodTail(bits);
      OutBitsTail(p, bits);
      EmitsBits(p, e, bits[1..], next);
      match bits[0] {
        case Lit(w) =>
          NoCall(p, w, rest);
          ConcatAssoc(w, x, t);
        case Sign(c) =>
          ConcatAssoc([c], x, t);
        case Part(a) =>
          EmitsExpr(p, a, rest);
          ConcatAssoc(Show(Out(p, a)), x, t);
      }
    }
  }

  lemma NoOutBits(p: Pass)
    ensures ShowBits(OutBits(p, [])) == ""
  {
  }

  /** A pass over the text of an expression gives the text of the expression with the outermost calls of its function
      replaced. */
  lemma PassOnExpr(p: Pass, e: Expr)
    requires Plain(e)
    ensures Rewritten(NameOf(p), RenderOf(p), Show(e)).0 == Show(Out(p, e))
  {
    hide Show, Rewritten, Emit, ForestOf, RenderOf, Plain;
    PrintsExpr(e, Nil);
    FormedExpr(e, Nil, true);
    RewriterOnForest(NameOf(p), RenderOf(p), ForestOf(e, Nil));
    EmitsExpr(p, e, Nil);
    NothingEmitted(p);
    assert Show(e) + "" == Show(e) && Show(Out(p, e)) + "" == Show(Out(p, e));
  }

  lemma NothingEmitted(p: Pass)
    ensures Forests.Print(Nil) == "" && Emit(NameOf(p), RenderOf(p), Nil).0 == ""
  {
  }
}
