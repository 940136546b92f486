/** Expressions taken apart into words, symbols and expressions. */
module ExpressionForests {
  import opened Text
  import opened Decimal
  import opened Expressions

  // ---------------------------------------------------------------------------------------------------------------
  // The parts of an expression

  /** What stands in the parentheses of an expression: words, symbols and expressions. */
  datatype Bit = Lit(word: string) | Sign(c: char) | Part(e: Expr)

  function Head(e: Expr): string
    requires !IsLeaf(e)
  {
    match e
    case Above(_, _) => ""
    case If(_, _, _) => "IF"
    case Instr(_, _) => "INSTR"
    case UpTo(_, _, _, _) => "SUBSTRING_INDEX"
    case Case(_, _, _) => ""
    case Position(_, _) => "POSITION"
    case Cast(_) => "CAST"
    case Backwards(_) => "reverse"
    case Field(_, _, _) => "split_part"
  }

  const Comma: seq<Bit> := [Sign(','), Sign(' ')]

  function Keyword(word: string): seq<Bit> {
    [Sign(' '), Lit(word), Sign(' ')]
  }

  function Bits(e: Expr): (bits: seq<Bit>)
    requires !IsLeaf(e)
    ensures forall k :: 0 <= k < |bits| && bits[k].Part? ==> bits[k].e < e
  {
    match e
    case Above(x, n) => [Part(x), Sign(' '), Sign('>'), Sign(' '), Lit(Numeral(n))]
    case If(c, y, n) => [Part(c)] + Comma + [Part(y)] + Comma + [Part(n)]
    case Instr(t, p) => [Part(t)] + Comma + [Part(p)]
    case UpTo(t, d, n, negative) =>
      [Part(t)] + Comma + [Part(d)] + Comma + (if negative then [Sign('-')] else []) + [Lit(Numeral(n))]
    case Case(c, y, n) =>
      [Lit("CASE")] + Keyword("WHEN") + [Part(c)] + Keyword("THEN") + [Part(y)] + Keyword("ELSE") + [Part(n)]
      + [Sign(' '), Lit("END")]
    case Position(p, t) => [Part(p)] + Keyword("IN") + [Part(t)]
    case Cast(x) => [Part(x)] + Keyword("AS") + [Lit("text")]
    case Backwards(x) => [Part(x)]
    case Field(t, d, n) => [Part(t)] + Comma + [Part(d)] + Comma + [Lit(Numeral(n))]
  }

  ghost predicate Below(bits: seq<Bit>, e: Expr) {
    forall k :: 0 <= k < |bits| && bits[k].Part? ==> bits[k].e < e
  }

  function ShowBits(bits: seq<Bit>): string {
    if bits == [] then ""
    else
      (match bits[0] case Lit(w) => w case Sign(c) => [c] case Part(e) => Show(e)) + ShowBits(bits[1..])
  }

  lemma {:induction false} ShowBitsConcat(a: seq<Bit>, b: seq<Bit>)
    ensures ShowBits(a + b) == ShowBits(a) + ShowBits(b)
  {
    hide Show;
    if a == [] {
      assert a + b == b;
    } else {
      assert (a + b)[1..] == a[1..] + b;
      ShowBitsConcat(a[1..], b);
    }
  }

  lemma ShowOne(b: Bit)
    ensures ShowBits([b]) == match b case Lit(w) => w case Sign(c) => [c] case Part(e) => Show(e)
  {
    hide Show;
    assert [b][1..] == [] && ShowBits([]) == "";
  }

  lemma ShowComma()
    ensures ShowBits(Comma) == ", "
  {
    ShowBitsConcat([Sign(',')], [Sign(' ')]);
    ShowOne(Sign(','));
    ShowOne(Sign(' '));
    assert Comma == [Sign(',')] + [Sign(' ')];
  }

  lemma ShowKeyword(w: string)
    ensures ShowBits(Keyword(w)) == " " + w + " "
  {
    ShowBitsConcat([Sign(' ')], [Lit(w)]);
    ShowBitsConcat([Sign(' ')] + [Lit(w)], [Sign(' ')]);
    ShowOne(Sign(' '));
    ShowOne(Lit(w));
    assert Keyword(w) == [Sign(' ')] + [Lit(w)] + [Sign(' ')];
  }

  /** The text of an expression is its head and its parts in parentheses. */
  lemma ShowIsBits(e: Expr)
    requires !IsLeaf(e)
    ensures Show(e) == Head(e) + ("(" + (ShowBits(Bits(e)) + ")"))
  {
    hide ShowBits, Numeral, ShowValue, Bits, Show;
    match e {
      case Above(x, n) =>
        AboveBits(x, n);
      case If(c, y, n) =>
        IfBits(c, y, n);
      case Instr(t, p) =>
        InstrBits(t, p);
      case UpTo(t, d, n, negative) =>
        UpToBits(t, d, n, negative);
      case Case(c, y, n) =>
        CaseBits(c, y, n);
      case Position(p, t) =>
        PositionBits(p, t);
      case Cast(x) =>
        CastBits(x);
      case Backwards(x) =>
        BackwardsBits(x);
      case Field(t, d, n) =>
        FieldBits(t, d, n);
    }
  }

  lemma IfBits(c: Expr, y: Expr, n: Expr)
    ensures Show(If(c, y, n)) == "IF" + ("(" + (ShowBits(Bits(If(c, y, n))) + ")"))
  {
    hide ShowBits;
    ShowArguments([Part(c)], [Part(y)]);
    ShowArguments([Part(c)] + Comma + [Part(y)], [Part(n)]);
    ShowOne(Part(c)); ShowOne(Part(y)); ShowOne(Part(n));
    IfText(Show(c), Show(y), Show(n));
  }

  lemma InstrBits(t: Expr, p: Expr)
    ensures var e := Instr(t, p); Show(e) == "INSTR" + ("(" + (ShowBits(Bits(e)) + ")"))
  {
    hide ShowBits;
    ShowArguments([Part(t)], [Part(p)]);
    ShowOne(Part(t)); ShowOne(Part(p));
    MiddleText("INSTR", Show(t), ", ", Show(p));
    assert "INSTR" + "(" == "INSTR(";
  }

  lemma PositionBits(p: Expr, t: Expr)
    ensures var e := Position(p, t); Show(e) == "POSITION" + ("(" + (ShowBits(Bits(e)) + ")"))
  {
    hide ShowBits;
    ShowBitsConcat([Part(p)], Keyword("IN"));
    ShowBitsConcat([Part(p)] + Keyword("IN"), [Part(t)]);
    ShowKeyword("IN");
    ShowOne(Part(p)); ShowOne(Part(t));
    assert " " + "IN" + " " == " IN ";
    MiddleText("POSITION", Show(p), " IN ", Show(t));
  }

  lemma CastBits(x: Expr)
    ensures var e := Cast(x); Show(e) == "CAST" + ("(" + (ShowBits(Bits(e)) + ")"))
  {
    hide ShowBits;
    ShowBitsConcat([Part(x)], Keyword("AS"));
    ShowBitsConcat([Part(x)] + Keyword("AS"), [Lit("text")]);
    ShowKeyword("AS");
    ShowOne(Part(x)); ShowOne(Lit("text"));
    assert " " + "AS" + " " == " AS " && " AS " + "text" == " AS text" && " AS text" + ")" == " AS text)";
    CastText(Show(x));
  }

  lemma BackwardsBits(x: Expr)
    ensures var e := Backwards(x); Show(e) == "reverse" + ("(" + (ShowBits(Bits(e)) + ")"))
  {
    hide ShowBits;
    ShowOne(Part(x));
  }

  lemma UpToBits(t: Expr, d: Expr, n: nat, negative: bool)
    ensures var e := UpTo(t, d, n, negative); Show(e) == "SUBSTRING_INDEX" + ("(" + (ShowBits(Bits(e)) + ")"))
  {
    hide ShowBits, Numeral;
    var sign: seq<Bit> := if negative then [Sign('-')] else [];
    ShowArguments([Part(t)], [Part(d)]);
    ShowArguments([Part(t)] + Comma + [Part(d)], sign + [Lit(Numeral(n))]);
    assert Bits(UpTo(t, d, n, negative)) == [Part(t)] + Comma + [Part(d)] + Comma + (sign + [Lit(Numeral(n))]);
    ShowBitsConcat(sign, [Lit(Numeral(n))]);
    ShowOne(Part(t)); ShowOne(Part(d)); ShowOne(Lit(Numeral(n))); ShowOne(Sign('-'));
    NoBits();
    UpToText(Show(t), Show(d), if negative then "-" else "", Numeral(n));
  }

  lemma FieldBits(t: Expr, d: Expr, n: nat)
    ensures var e := Field(t, d, n); Show(e) == "split_part" + ("(" + (ShowBits(Bits(e)) + ")"))
  {
    hide ShowBits, Numeral;
    ShowArguments([Part(t)], [Part(d)]);
    ShowArguments([Part(t)] + Comma + [Part(d)], [Lit(Numeral(n))]);
    ShowOne(Part(t)); ShowOne(Part(d)); ShowOne(Lit(Numeral(n)));
    FieldText(Show(t), Show(d), Numeral(n));
  }

  lemma AboveBits(x: Expr, n: nat)
    ensures Show(Above(x, n)) == "" + ("(" + (ShowBits(Bits(Above(x, n))) + ")"))
  {
    hide ShowBits, Numeral;
    ShowOne(Part(x)); ShowOne(Lit(Numeral(n))); ShowOne(Sign(' ')); ShowOne(Sign('>'));
    ShowBitsConcat([Sign(' ')], [Sign('>')]);
    ShowBitsConcat([Sign(' ')] + [Sign('>')], [Sign(' ')]);
    var sign: seq<Bit> := [Sign(' ')] + [Sign('>')] + [Sign(' ')];
    ShowBitsConcat([Part(x)], sign);
    ShowBitsConcat([Part(x)] + sign, [Lit(Numeral(n))]);
    assert Bits(Above(x, n)) == [Part(x)] + sign + [Lit(Numeral(n))];
    assert " " + ">" + " " == " > ";
    MiddleText("", Show(x), " > ", Numeral(n));
    assert "" + "(" == "(";
  }

  lemma NoBits()
    ensures ShowBits([]) == ""
  {
  }

  lemma ShowArguments(a: seq<Bit>, b: seq<Bit>)
    ensures ShowBits(a + Comma + b) == ShowBits(a) + ", " + ShowBits(b)
  {
    ShowBitsConcat(a, Comma);
    ShowBitsConcat(a + Comma, b);
    ShowComma();
  }

  lemma IfText(c: string, y: string, n: string)
    ensures "IF(" + (c + (", " + (y + (", " + (n + ")"))))) == "IF" + ("(" + ((c + ", " + y + ", " + n) + ")"))
  {
    FiveTexts(c, ", ", y, ", ", n);
    assert "IF" + ("(" + ((c + ", " + y + ", " + n) + ")")) == "IF(" + ((c + ", " + y + ", " + n) + ")");
  }

  lemma FiveTexts(a: string, b: string, c: string, d: string, e: string)
    ensures (a + b + c + d + e) + ")" == a + (b + (c + (d + (e + ")"))))
  {
    ConcatAssoc(a + b + c + d, e, ")");
    ConcatAssoc(a + b + c, d, e + ")");
    ConcatAssoc(a + b, c, d + (e + ")"));
    ConcatAssoc(a, b, c + (d + (e + ")")));
  }

  lemma UpToText(t: string, d: string, sign: string, n: string)
    ensures "SUBSTRING_INDEX(" + (t + (", " + (d + (", " + (sign + (n + ")")))))) ==
            "SUBSTRING_INDEX" + ("(" + ((t + ", " + d + ", " + (sign + n)) + ")"))
  {
    FiveTexts(t, ", ", d, ", ", sign + n);
    ConcatAssoc(sign, n, ")");
    ConcatAssoc("SUBSTRING_INDEX", "(", (t + ", " + d + ", " + (sign + n)) + ")");
    assert "SUBSTRING_INDEX" + "(" == "SUBSTRING_INDEX(";
  }

  lemma FieldText(t: string, d: string, n: string)
    ensures "split_part(" + (t + (", " + (d + (", " + (n + ")"))))) ==
            "split_part" + ("(" + ((t + ", " + d + ", " + n) + ")"))
  {
    FiveTexts(t, ", ", d, ", ", n);
    ConcatAssoc("split_part", "(", (t + ", " + d + ", " + n) + ")");
    assert "split_part" + "(" == "split_part(";
  }

  lemma MiddleText(head: string, a: string, middle: string, b: string)
    ensures (head + "(") + (a + (middle + (b + ")"))) == head + ("(" + ((a + middle + b) + ")"))
  {
    ConcatAssoc(a + middle, b, ")");
    ConcatAssoc(a, middle, b + ")");
    ConcatAssoc(head, "(", (a + middle + b) + ")");
  }

  lemma CastText(x: string)
    ensures "CAST(" + (x + " AS text)") == "CAST" + ("(" + ((x + " AS " + "text") + ")"))
  {
    ConcatAssoc(x + " AS ", "text", ")");
    ConcatAssoc(x, " AS ", "text" + ")");
    assert " AS " + ("text" + ")") == " AS text)";
    ConcatAssoc("CAST", "(", x + " AS text)");
    assert "CAST" + "(" == "CAST(";
  }

  lemma CaseBits(c: Expr, y: Expr, n: Expr)
    ensures Show(Case(c, y, n)) == "" + ("(" + (ShowBits(Bits(Case(c, y, n))) + ")"))
  {
    hide ShowBits, ShowValue, Show;
    var a := [Lit("CASE")] + Keyword("WHEN");
    var b := a + [Part(c)] + Keyword("THEN");
    var d := b + [Part(y)] + Keyword("ELSE");
    ShowBitsConcat([Lit("CASE")], Keyword("WHEN"));
    ShowBitsConcat(a, [Part(c)]);
    ShowBitsConcat(a + [Part(c)], Keyword("THEN"));
    ShowBitsConcat(b, [Part(y)]);
    ShowBitsConcat(b + [Part(y)], Keyword("ELSE"));
    ShowBitsConcat(d, [Part(n)]);
    ShowBitsConcat(d + [Part(n)], [Sign(' '), Lit("END")]);
    ShowOne(Lit("CASE")); ShowOne(Part(c)); ShowOne(Part(y)); ShowOne(Part(n));
    ShowKeyword("WHEN"); ShowKeyword("THEN"); ShowKeyword("ELSE");
    ShowBitsConcat([Sign(' ')], [Lit("END")]);
    ShowOne(Sign(' ')); ShowOne(Lit("END"));
    assert [Sign(' ')] + [Lit("END")] == [Sign(' '), Lit("END")];
    CaseShown(c, y, n);
    CaseText(Show(c), Show(y), Show(n));
  }

  lemma CaseShown(c: Expr, y: Expr, n: Expr)
    ensures Show(Case(c, y, n)) ==
            "(CASE WHEN " + (Show(c) + (" THEN " + (Show(y) + (" ELSE " + (Show(n) + " END)")))))
  {
  }

  lemma CaseText(c: string, y: string, n: string)
    ensures "(CASE WHEN " + (c + (" THEN " + (y + (" ELSE " + (n + " END)"))))) ==
            "" + ("(" + (("CASE" + (" " + "WHEN" + " ") + c + (" " + "THEN" + " ") + y + (" " + "ELSE" + " ") + n
                          + (" " + "END")) + ")"))
  {
    assert "CASE" + (" " + "WHEN" + " ") == "CASE WHEN " && " " + "THEN" + " " == " THEN ";
    assert " " + "ELSE" + " " == " ELSE " && " " + "END" == " END" && " END" + ")" == " END)";
    var k := "CASE WHEN " + c + " THEN " + y + " ELSE ";
    ConcatAssoc(k + n, " END", ")");
    ConcatAssoc(k, n, " END)");
    var end := n + " END)";
    ConcatAssoc("CASE WHEN " + c + " THEN " + y, " ELSE ", end);
    ConcatAssoc("CASE WHEN " + c + " THEN ", y, " ELSE " + end);
    ConcatAssoc("CASE WHEN " + c, " THEN ", y + (" ELSE " + end));
    ConcatAssoc("CASE WHEN ", c, " THEN " + (y + (" ELSE " + end)));
    ConcatAssoc("(", "CASE WHEN ", c + (" THEN " + (y + (" ELSE " + end))));
    assert "(" + "CASE WHEN " == "(CASE WHEN ";
  }
}
