/** What the call rewriter makes of the text of an expression: the text of the expression with its outermost calls
    replaced. */
module ExpressionRewriting {
  import opened Text
  import opened Decimal
  import opened Fragments
  import opened Literals
  import opened LiteralStability
  import opened Passes
  import opened Forests
  import opened ForestReading
  import opened Expressions
  import opened ExpressionForests
  import Csv

  // ---------------------------------------------------------------------------------------------------------------
  // Expressions as token trees

  function LeafOf(e: Expr, next: Forest): Forest
    requires IsLeaf(e)
  {
    match e
    case Column(name) => Forest.Fragment("\"" + (name + "\""), next)
    case Constant(Null) => Word("NULL", next)
    case Constant(Truth(b)) => Word(if b then "TRUE" else "FALSE", next)
    case Constant(Number(n)) => Word(Numeral(n), next)
    case Constant(Chars(s)) => Forest.Fragment(Encode(s), next)
  }

  function ForestOf(e: Expr, next: Forest): Forest
    decreases e, 1, 0
  {
    if IsLeaf(e) then LeafOf(e, next)
    else
      var group := Group(Build(e, Bits(e), Nil), next);
      if Head(e) == "" then group else Word(Head(e), group)
  }

  /** The parts of an expression `e` one after the other. */
  function Build(ghost e: Expr, bits: seq<Bit>, next: Forest): Forest
    requires Below(bits, e)
    decreases e, 0, |bits|
  {
    if bits == [] then next
    else
      var rest := Build(e, bits[1..], next);
      match bits[0]
      case Lit(w) => Word(w, rest)
      case Sign(c) => Symbol(c, rest)
      case Part(x) => ForestOf(x, rest)
  }

  lemma {:induction false} LeafPrints(e: Expr, next: Forest)
    requires IsLeaf(e)
    ensures Forests.Print(LeafOf(e, next)) == Show(e) + Forests.Print(next)
  {
  }

  lemma {:induction false} PrintsExpr(e: Expr, next: Forest)
    ensures Forests.Print(ForestOf(e, next)) == Show(e) + Forests.Print(next)
    decreases e, 1, 0
  {
    hide Show, Bits, ShowBits;
    if IsLeaf(e) {
      LeafPrints(e, next);
    } else {
      var inner := Build(e, Bits(e), Nil);
      PrintsBits(e, Bits(e), Nil);
      ShowIsBits(e);
      var (x, t) := (ShowBits(Bits(e)), Forests.Print(next));
      assert Forests.Print(inner) == x + "" == x;
      ConcatAssoc(x, ")", t);
      ConcatAssoc("(", x + ")", t);
      ConcatAssoc(Head(e), "(" + (x + ")"), t);
      if Head(e) == "" {
        assert "" + ("(" + (x + ")")) == "(" + (x + ")");
      }
    }
  }

  lemma {:induction false} PrintsBits(e: Expr, bits: seq<Bit>, next: Forest)
    requires Below(bits, e)
    ensures Forests.Print(Build(e, bits, next)) == ShowBits(bits) + Forests.Print(next)
    decreases e, 0, |bits|
  {
    hide Show;
    if bits == [] {
      assert "" + Forests.Print(next) == Forests.Print(next);
    } else {
      var rest := Build(e, bits[1..], next);
      PrintsBits(e, bits[1..], next);
      match bits[0] {
        case Lit(w) => ConcatAssoc(w, ShowBits(bits[1..]), Forests.Print(next));
        case Sign(c) => ConcatAssoc([c], ShowBits(bits[1..]), Forests.Print(next));
        case Part(x) =>
          PrintsExpr(x, rest);
          ConcatAssoc(Show(x), ShowBits(bits[1..]), Forests.Print(next));
      }
    }
  }

  // ---------------------------------------------------------------------------------------------------------------
  // They are well-formed

  /** No string constant misleads the scanners by a backslash before a quote or at its end, and columns have words for
      their names. */
  predicate Plain(e: Expr) {
    match e
    case Constant(v) => v.Chars? ==> Unshielded(v.s)
    case Column(name) => IsWord(name)
    case Above(x, _) => Plain(x)
    case If(c, y, n) => Plain(c) && Plain(y) && Plain(n)
    case Instr(t, p) => Plain(t) && Plain(p)
    case UpTo(t, d, _, _) => Plain(t) && Plain(d)
    case Case(c, y, n) => Plain(c) && Plain(y) && Plain(n)
    case Position(p, t) => Plain(p) && Plain(t)
    case Cast(x) => Plain(x)
    case Backwards(x) => Plain(x)
    case Field(t, d, _) => Plain(t) && Plain(d)
  }

  /** The word is no function that is rewritten. */
  predicate NoFunction(w: string) {
    ToUpper(w) != "IF" && ToUpper(w) != "INSTR" && ToUpper(w) != "SUBSTRING_INDEX"
  }

  predicate GoodBit(b: Bit) {
    match b
    case Lit(w) => IsWord(w) && NoFunction(w)
    case Sign(c) => c in {' ', ',', '-', '>'}
    case Part(x) => Plain(x)
  }

  /** The parts are good, and no word or expression stands next to another. */
  predicate GoodBits(bits: seq<Bit>) {
    && (forall k :: 0 <= k < |bits| ==> GoodBit(bits[k]))
    && (forall k :: 0 <= k < |bits| - 1 ==> bits[k].Sign? || bits[k + 1].Sign?)
  }

  lemma OtherStart(w: string, c: char)
    requires w != "" && Upper(w[0]) == c && c !in {'I', 'S'}
    ensures NoFunction(w)
  {
    hide ToUpper;
    assert ToUpper(w)[0] == c;
  }

  lemma NumeralIsGood(n: nat)
    ensures GoodBit(Lit(Numeral(n)))
  {
    hide Numeral, NoFunction;
    var w := Numeral(n);
    assert IsDigit(w[0]);
    OtherStart(w, w[0]);
    forall k | 0 <= k < |w| ensures IsIdentifierChar(w[k]) {
      assert IsDigit(w[k]);
    }
  }

  lemma WordsAreGood()
    ensures GoodBit(Lit("CASE")) && GoodBit(Lit("WHEN")) && GoodBit(Lit("THEN")) && GoodBit(Lit("ELSE"))
    ensures GoodBit(Lit("END")) && GoodBit(Lit("AS")) && GoodBit(Lit("text")) && GoodBit(Lit("IN"))
    ensures GoodBit(Lit("NULL")) && GoodBit(Lit("TRUE")) && GoodBit(Lit("FALSE"))
  {
    hide ToUpper, NoFunction;
    OtherStart("CASE", 'C'); OtherStart("WHEN", 'W'); OtherStart("THEN", 'T'); OtherStart("ELSE", 'E');
    OtherStart("END", 'E'); OtherStart("AS", 'A'); OtherStart("text", 'T');
    OtherStart("NULL", 'N'); OtherStart("TRUE", 'T'); OtherStart("FALSE", 'F');
    InIsNoFunction();
  }

  lemma InIsNoFunction()
    ensures NoFunction("IN")
  {
    hide ToUpper;
    assert ToUpper("IN")[1] == 'N' && |ToUpper("IN")| == 2;
  }

  lemma {:induction false} BitsAreGood(e: Expr)
    requires !IsLeaf(e) && Plain(e)
    ensures GoodBits(Bits(e))
  {
    hide GoodBit, Bits, Plain;
    forall k | 0 <= k < |Bits(e)| ensures GoodBit(Bits(e)[k]) {
      if Bits(e)[k].Part? {
        PlainPartIsGood(e, k);
      } else {
        OtherBitIsGood(e, k);
      }
    }
    BitsAlternate(e);
  }

  lemma {:induction false} OtherBitIsGood(e: Expr, k: nat)
    requires !IsLeaf(e) && k < |Bits(e)| && !Bits(e)[k].Part?
    ensures GoodBit(Bits(e)[k])
  {
    hide GoodBit, Numeral;
    WordsAreGood();
    SignsAreGood();
    match e {
      case UpTo(_, _, n, _) => NumeralIsGood(n);
      case Field(_, _, n) => NumeralIsGood(n);
      case Above(_, n) => NumeralIsGood(n);
      case _ =>
    }
  }

  lemma {:induction false} BitsAlternate(e: Expr)
    requires !IsLeaf(e)
    ensures forall k :: 0 <= k < |Bits(e)| - 1 ==> Bits(e)[k].Sign? || Bits(e)[k + 1].Sign?
  {
    hide Numeral;
  }

  lemma SignsAreGood()
    ensures GoodBit(Sign(' ')) && GoodBit(Sign(',')) && GoodBit(Sign('-')) && GoodBit(Sign('>'))
  {
  }

  lemma {:induction false} PlainPartIsGood(e: Expr, k: nat)
    requires !IsLeaf(e) && Plain(e) && k < |Bits(e)| && Bits(e)[k].Part?
    ensures GoodBit(Bits(e)[k])
  {
  }

  lemma GoodTail(bits: seq<Bit>)
    requires bits != [] && GoodBits(bits)
    ensures GoodBit(bits[0]) && GoodBits(bits[1..]) && (|bits| > 1 ==> bits[0].Sign? || bits[1].Sign?)
  {
    hide GoodBit;
    forall k | 0 <= k < |bits[1..]| - 1 ensures bits[1..][k].Sign? || bits[1..][k + 1].Sign? {
      assert bits[k + 1].Sign? || bits[k + 2].Sign?;
    }
  }

  /** Nothing follows, or a symbol. */
  predicate Stops(next: Forest) {
    next.Nil? || next.Symbol?
  }

  lemma {:induction false} EncodedFragment(v: string)
    requires Unshielded(v)
    ensures FragmentLength(Encode(v)) == |Encode(v)| && FragmentClosed(Encode(v))
  {
    hide Body, Doubled;
    UnshieldedBody(v);
    assert Encode(v)[1..] == Doubled('\'', v) + "'";
  }

  lemma {:induction false} UnshieldedBody(v: string)
    requires Unshielded(v)
    ensures Body('\'', Doubled('\'', v) + "'") == Extent(|Doubled('\'', v)| + 1, true)
    decreases v
  {
    hide Body;
    if v == "" {
      QuoteCloses();
      assert Doubled('\'', v) + "'" == "'";
    } else {
      var n := Piece(v);
      UnshieldedBody(v[n..]);
      DoubledSplit(v, n);
      DoubledPiece(v, n);
      ConcatAssoc(Doubled('\'', v[..n]), Doubled('\'', v[n..]), "'");
      PieceBody(Doubled('\'', v[..n]), Doubled('\'', v[n..]) + "'");
    }
  }

  lemma QuoteCloses()
    ensures Body('\'', "'") == Extent(1, true)
  {
  }

  lemma PieceBody(p: string, rest: string)
    requires p == "''" || (|p| == 2 && p[0] == '\\') || (|p| == 1 && p[0] != '\\' && p[0] != '\'')
    ensures Body('\'', p + rest) == Body('\'', rest).Shift(|p|)
  {
    assert (p + rest)[|p|..] == rest;
  }

  lemma {:induction false} FormedExpr(e: Expr, next: Forest, top: bool)
    requires Plain(e) && Stops(next) && WellFormed(next, top)
    ensures WellFormed(ForestOf(e, next), top)
    decreases e, 1, 0
  {
    hide FragmentLength, FragmentClosed, Bits, Unshielded, ToUpper;
    if IsLeaf(e) {
      FormedLeaf(e, next, top);
    } else {
      BitsAreGood(e);
      FormedBits(e, Bits(e), Nil);
      HeadIsWord(e);
    }
  }

  lemma {:induction false} NameFragment(name: string)
    requires IsWord(name)
    ensures var f := "\"" + (name + "\""); FragmentLength(f) == |f| && FragmentClosed(f)
  {
    hide Body;
    NameBody(name);
    assert ("\"" + (name + "\""))[1..] == name + "\"";
  }

  lemma {:induction false} NameBody(name: string)
    requires forall k :: 0 <= k < |name| ==> IsIdentifierChar(name[k])
    ensures Body('"', name + "\"") == Extent(|name| + 1, true)
    decreases name
  {
    if name == "" {
      assert name + "\"" == "\"";
    } else {
      assert IsIdentifierChar(name[0]) && (name + "\"")[1..] == name[1..] + "\"";
      NameBody(name[1..]);
    }
  }

  lemma {:induction false} FormedLeaf(e: Expr, next: Forest, top: bool)
    requires IsLeaf(e) && Plain(e) && Stops(next) && WellFormed(next, top)
    ensures WellFormed(LeafOf(e, next), top)
  {
    hide FragmentLength, FragmentClosed, Unshielded, Numeral, NoFunction;
    WordsAreGood();
    match e {
      case Constant(Number(n)) => NumeralIsGood(n);
      case Constant(Chars(s)) => EncodedFragment(s);
      case Column(name) => NameFragment(name);
      case _ =>
    }
  }

  lemma HeadIsWord(e: Expr)
    requires !IsLeaf(e)
    ensures Head(e) != "" ==> IsWord(Head(e))
  {
  }

  lemma {:induction false} FormedBits(e: Expr, bits: seq<Bit>, next: Forest)
    requires Below(bits, e) && GoodBits(bits) && Stops(next) && WellFormed(next, false)
    ensures WellFormed(Build(e, bits, next), false)
    ensures bits == [] || bits[0].Sign? ==> Stops(Build(e, bits, next))
    decreases e, 0, |bits|
  {
    hide FragmentLength, FragmentClosed, Plain, NoFunction;
    if bits != [] {
      var rest := Build(e, bits[1..], next);
      GoodTail(bits);
      FormedBits(e, bits[1..], next);
      if bits[0].Part? {
        FormedExpr(bits[0].e, rest, false);
      }
    }
  }

  lemma {:induction false} PlainLeaf(e: Expr, next: Forest)
    requires IsLeaf(e)
    ensures PlainBackticks(LeafOf(e, next)) <==> PlainBackticks(next)
  {
    assert e.Constant? && e.value.Chars? ==> Encode(e.value.s)[0] == '\'';
  }

  lemma {:induction false} NoBackticksInExpr(e: Expr, next: Forest)
    ensures PlainBackticks(ForestOf(e, next)) <==> PlainBackticks(next)
    decreases e, 1, 0
  {
    hide Bits;
    if IsLeaf(e) {
      PlainLeaf(e, next);
    } else {
      NoBackticksInBits(e, Bits(e), Nil);
    }
  }

  lemma {:induction false} NoBackticksInBits(e: Expr, bits: seq<Bit>, next: Forest)
    requires Below(bits, e)
    ensures PlainBackticks(Build(e, bits, next)) <==> PlainBackticks(next)
    decreases e, 0, |bits|
  {
    if bits != [] {
      NoBackticksInBits(e, bits[1..], next);
      if bits[0].Part? {
        NoBackticksInExpr(bits[0].e, Build(e, bits[1..], next));
      }
    }
  }

  /** The tree of what stands in the parentheses. */
  lemma InnerIsFormed(e: Expr)
    requires !IsLeaf(e) && Plain(e)
    ensures var inner := Build(e, Bits(e), Nil); WellFormed(inner, false) && PlainBackticks(inner)
  {
    hide Bits;
    BitsAreGood(e);
    FormedBits(e, Bits(e), Nil);
    NoBackticksInBits(e, Bits(e), Nil);
  }

  lemma LeafPieces(e: Expr, next: Forest)
    requires IsLeaf(e)
    ensures ArgumentPieces(LeafOf(e, next)) == Csv.Onto(Show(e), ArgumentPieces(next))
  {
  }

  /** An expression has no comma at its top level. */
  lemma {:induction false} PiecesOfExpr(e: Expr, next: Forest)
    ensures ArgumentPieces(ForestOf(e, next)) == Csv.Onto(Show(e), ArgumentPieces(next))
  {
    hide Bits, Show, ShowBits, Encode, Numeral;
    if IsLeaf(e) {
      LeafPieces(e, next);
    } else {
      var inner := Build(e, Bits(e), Nil);
      PrintsBits(e, Bits(e), Nil);
      var x := ShowBits(Bits(e));
      assert Forests.Print(inner) == x + "" == x;
      ShowIsBits(e);
      Csv.OntoTwice(Head(e), "(" + (x + ")"), ArgumentPieces(next));
      if Head(e) == "" {
        assert "" + ("(" + (x + ")")) == "(" + (x + ")");
      }
    }
  }
}
