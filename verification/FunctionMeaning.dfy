/** The value of rewritten calls: PostgreSQL's of the rewritten text against MySQL's of the expression. */
module FunctionMeaning {
  import opened Text
  import opened Decimal
  import opened Calls
  import opened SqlFunctions
  import opened SubstringIndex
  import opened SubstringIndexText
  import opened Expressions
  import opened ExpressionRewriting
  import opened FunctionValues

  // ---------------------------------------------------------------------------------------------------------------
  // Single calls

  lemma IfValue(c: Value, y: Value, n: Value)
    requires (c.Truth? || c.Null?) && SameKind(y, n)
    ensures CaseValue(c, y, n) == Some(if c == Truth(true) then y else n)
  {
  }

  lemma PassOnIf(c: Expr, y: Expr, n: Expr)
    requires Plain(c) && Plain(y) && Plain(n)
    ensures var text := "IF(" + (Show(c) + (", " + (Show(y) + (", " + (Show(n) + ")")))));
            Plain(Case(c, y, n)) && Rewritten("IF", RenderIf, text).0 == Show(Case(c, y, n))
  {
    hide Rewritten;
    var e := If(c, y, n);
    PassOnExpr(Ifs, e);
    assert Out(Ifs, e) == Case(c, y, n);
  }

  /** IF(c, y, n), rewritten and read by PostgreSQL, has the value of its second argument if the first is true, and of
      its third if that is false or NULL. */
  lemma IfOnText(row: Row, c: Expr, y: Expr, n: Expr, u: Value, v: Value, w: Value)
    requires Plain(c) && Plain(y) && Plain(n)
    requires ValueIn(row, c) == Some(u) && ValueIn(row, y) == Some(v) && ValueIn(row, n) == Some(w)
    requires (u.Truth? || u.Null?) && SameKind(v, w)
    ensures var text := "IF(" + (Show(c) + (", " + (Show(y) + (", " + (Show(n) + ")")))));
            Evaluate(row, Rewritten("IF", RenderIf, text).0) == Some((if u == Truth(true) then v else w, ""))
  {
    hide Evaluate, Rewritten, CaseValue, SameKind;
    IfValue(u, v, w);
    CaseOnText(row, c, y, n, u, v, w);
  }

  lemma ValueOfCase(row: Row, c: Expr, y: Expr, n: Expr)
    requires ValueIn(row, c).Some? && ValueIn(row, y).Some? && ValueIn(row, n).Some?
    ensures ValueIn(row, Case(c, y, n)) ==
            CaseValue(ValueIn(row, c).value, ValueIn(row, y).value, ValueIn(row, n).value)
  {
    hide CaseValue;
  }

  lemma CaseOnText(row: Row, c: Expr, y: Expr, n: Expr, u: Value, v: Value, w: Value)
    requires Plain(c) && Plain(y) && Plain(n)
    requires ValueIn(row, c) == Some(u) && ValueIn(row, y) == Some(v) && ValueIn(row, n) == Some(w)
    ensures var text := "IF(" + (Show(c) + (", " + (Show(y) + (", " + (Show(n) + ")")))));
            Evaluate(row, Rewritten("IF", RenderIf, text).0) == Give(CaseValue(u, v, w), "")
  {
    hide Evaluate, Rewritten, CaseValue, Plain, Show, ValueIn;
    PassOnIf(c, y, n);
    ValueOfCase(row, c, y, n);
    WholeText(row, Case(c, y, n));
  }

  /** If the first argument is no string, the rewritten call is right exactly if that is boolean or NULL and the others
      are of one kind; for a number PostgreSQL reports an error. */
  lemma IfIsRightExactly(row: Row, c: Expr, y: Expr, n: Expr, u: Value, v: Value, w: Value)
    requires Plain(c) && Plain(y) && Plain(n) && !u.Chars?
    requires ValueIn(row, c) == Some(u) && ValueIn(row, y) == Some(v) && ValueIn(row, n) == Some(w)
    ensures var text := "IF(" + (Show(c) + (", " + (Show(y) + (", " + (Show(n) + ")")))));
            var read := Evaluate(row, Rewritten("IF", RenderIf, text).0);
            && (read == Some((if Holds(u) then v else w, "")) <==> !u.Number? && SameKind(v, w))
            && (u.Number? ==> read == None)
  {
    hide Evaluate, Rewritten;
    CaseOnText(row, c, y, n, u, v, w);
  }

  lemma {:induction false} PlainColumns(e: Expr)
    requires Plain(e)
    ensures ColumnsAreNames(e)
  {
    match e {
      case Constant(_) =>
      case Column(_) =>
      case Above(x, _) => PlainColumns(x);
      case If(c, y, n) => PlainColumns(c); PlainColumns(y); PlainColumns(n);
      case Instr(t, x) => PlainColumns(t); PlainColumns(x);
      case UpTo(t, d, _, _) => PlainColumns(t); PlainColumns(d);
      case Case(c, y, n) => PlainColumns(c); PlainColumns(y); PlainColumns(n);
      case Position(x, t) => PlainColumns(x); PlainColumns(t);
      case Cast(x) => PlainColumns(x);
      case Backwards(x) => PlainColumns(x);
      case Field(t, d, _) => PlainColumns(t); PlainColumns(d);
    }
  }

  lemma WholeText(row: Row, e: Expr)
    requires Plain(e)
    ensures Evaluate(row, Show(e)) == Give(ValueIn(row, e), "")
  {
    hide Evaluate, Show, ValueIn, Plain, ColumnsAreNames;
    PlainColumns(e);
    ShowEvaluates(row, e, "");
    assert Show(e) + "" == Show(e);
  }

  lemma PassOnInstr(t: Expr, p: Expr)
    requires Plain(t) && Plain(p)
    ensures var (text, e) := ("INSTR(" + (Show(t) + (", " + (Show(p) + ")"))), Position(Cast(p), Cast(t)));
            Plain(e) && Rewritten("INSTR", RenderInstr, text).0 == Show(e)
  {
    hide Rewritten;
    var e := Instr(t, p);
    PassOnExpr(Instrs, e);
    assert Out(Instrs, e) == Position(Cast(p), Cast(t));
  }

  /** INSTR(t, p), rewritten and read by PostgreSQL, is one more than the least index at which the second string occurs
      in the first, or 0 if it does not. */
  lemma InstrOnText(row: Row, t: Expr, p: Expr, s: string, x: string, k: nat)
    requires Plain(t) && Plain(p) && ValueIn(row, t) == Some(Chars(s)) && ValueIn(row, p) == Some(Chars(x))
    ensures var text := "INSTR(" + (Show(t) + (", " + (Show(p) + ")")));
            var read := Evaluate(row, Rewritten("INSTR", RenderInstr, text).0);
            && (OccursAt(s, x, k) && (forall j: nat :: j < k ==> !OccursAt(s, x, j)) ==>
                  read == Some((Number(k + 1), "")))
            && ((forall j: nat :: !OccursAt(s, x, j)) ==> read == Some((Number(0), "")))
  {
    hide Evaluate, Rewritten, Find, OccursAt, Plain, Show;
    PassOnInstr(t, p);
    var e' := Position(Cast(p), Cast(t));
    assert ValueIn(row, Cast(p)) == Some(Chars(x)) && ValueIn(row, Cast(t)) == Some(Chars(s));
    assert ValueIn(row, e') == PositionValue(Chars(x), Chars(s));
    WholeText(row, e');
    FindIsFirst(s, x, k);
    if Find(s, x).Some? {
      FindIsFirst(s, x, Find(s, x).value);
    }
  }

  // ---------------------------------------------------------------------------------------------------------------
  // All passes: which calls are left

  lemma PlainReplaced(e: Expr)
    requires Plain(e)
    ensures Plain(Replaced(e))
  {
    match e {
      case UpTo(t, d, n, negative) => RenderedHas(Ifs, t, d, n, negative);
      case _ =>
    }
  }

  lemma {:induction false} PlainOut(p: Pass, e: Expr)
    requires Plain(e)
    ensures Plain(Out(p, e))
  {
    if Own(p, e) {
      PlainReplaced(e);
    } else {
      match e {
        case Constant(_) =>
        case Column(_) =>
        case Above(x, _) => PlainOut(p, x);
        case If(c, y, n) => PlainOut(p, c); PlainOut(p, y); PlainOut(p, n);
        case Instr(t, x) => PlainOut(p, t); PlainOut(p, x);
        case UpTo(t, d, _, _) => PlainOut(p, t); PlainOut(p, d);
        case Case(c, y, n) => PlainOut(p, c); PlainOut(p, y); PlainOut(p, n);
        case Position(x, t) => PlainOut(p, x); PlainOut(p, t);
        case Cast(x) => PlainOut(p, x);
        case Backwards(x) => PlainOut(p, x);
        case Field(t, d, _) => PlainOut(p, t); PlainOut(p, d);
      }
    }
  }

  /** The expression after the three passes. */
  function AfterPasses(e: Expr): Expr {
    Out(Ifs, Out(UpTos, Out(Instrs, e)))
  }

  /** The three passes over the text of an expression. */
  lemma PassesOnExpr(e: Expr)
    requires Plain(e)
    ensures RewriteFunctions(Show(e)) == Show(AfterPasses(e)) && Plain(AfterPasses(e))
  {
    hide Show, Rewritten, Out, Plain;
    PlainOut(Instrs, e);
    PlainOut(UpTos, Out(Instrs, e));
    PlainOut(Ifs, Out(UpTos, Out(Instrs, e)));
    PassOnExpr(Instrs, e);
    PassOnExpr(UpTos, Out(Instrs, e));
    PassOnExpr(Ifs, Out(UpTos, Out(Instrs, e)));
  }

  /** The pass's function is called somewhere in the expression. */
  predicate Has(p: Pass, e: Expr) {
    || Own(p, e)
    || match e
       case Constant(_) => false
       case Column(_) => false
       case Above(x, _) => Has(p, x)
       case If(c, y, n) => Has(p, c) || Has(p, y) || Has(p, n)
       case Instr(t, x) => Has(p, t) || Has(p, x)
       case UpTo(t, d, _, _) => Has(p, t) || Has(p, d)
       case Case(c, y, n) => Has(p, c) || Has(p, y) || Has(p, n)
       case Position(x, t) => Has(p, x) || Has(p, t)
       case Cast(x) => Has(p, x)
       case Backwards(x) => Has(p, x)
       case Field(t, d, _) => Has(p, t) || Has(p, d)
  }

  /** It is called somewhere within an argument of a call of itself. */
  predicate Nested(p: Pass, e: Expr) {
    match e
    case Constant(_) => false
    case Column(_) => false
    case Above(x, _) => Nested(p, x)
    case If(c, y, n) =>
      || (p.Ifs? && (Has(p, c) || Has(p, y) || Has(p, n)))
      || Nested(p, c) || Nested(p, y) || Nested(p, n)
    case Instr(t, x) => (p.Instrs? && (Has(p, t) || Has(p, x))) || Nested(p, t) || Nested(p, x)
    case UpTo(t, d, _, _) => (p.UpTos? && (Has(p, t) || Has(p, d))) || Nested(p, t) || Nested(p, d)
    case Case(c, y, n) => Nested(p, c) || Nested(p, y) || Nested(p, n)
    case Position(x, t) => Nested(p, x) || Nested(p, t)
    case Cast(x) => Nested(p, x)
    case Backwards(x) => Nested(p, x)
    case Field(t, d, _) => Nested(p, t) || Nested(p, d)
  }

  lemma {:induction false} NestedHas(p: Pass, e: Expr)
    ensures Nested(p, e) ==> Has(p, e)
  {
    match e {
      case Constant(_) =>
      case Column(_) =>
      case Above(x, _) => NestedHas(p, x);
      case If(c, y, n) => NestedHas(p, c); NestedHas(p, y); NestedHas(p, n);
      case Instr(t, x) => NestedHas(p, t); NestedHas(p, x);
      case UpTo(t, d, _, _) => NestedHas(p, t); NestedHas(p, d);
      case Case(c, y, n) => NestedHas(p, c); NestedHas(p, y); NestedHas(p, n);
      case Position(x, t) => NestedHas(p, x); NestedHas(p, t);
      case Cast(x) => NestedHas(p, x);
      case Backwards(x) => NestedHas(p, x);
      case Field(t, d, _) => NestedHas(p, t); NestedHas(p, d);
    }
  }

  lemma RenderedHas(p: Pass, t: Expr, d: Expr, n: nat, negative: bool)
    ensures Has(p, Rendered(t, d, n, negative)) <==> Has(p, t) || Has(p, d)
    ensures Nested(p, Rendered(t, d, n, negative)) <==> Nested(p, t) || Nested(p, d)
    ensures Plain(Rendered(t, d, n, negative)) <==> Plain(t) && Plain(d)
  {
    hide Has, Nested, Plain;
    CastsHave(p, t);
    CastsHave(p, d);
    FieldHas(p, Cast(t), Cast(d), n);
    FieldHas(p, Backwards(Cast(t)), Backwards(Cast(d)), n);
  }

  lemma CastsHave(p: Pass, e: Expr)
    ensures Has(p, Cast(e)) == Has(p, e) == Has(p, Backwards(Cast(e)))
    ensures Nested(p, Cast(e)) == Nested(p, e) == Nested(p, Backwards(Cast(e)))
    ensures Plain(Cast(e)) == Plain(e) == Plain(Backwards(Cast(e)))
  {
  }

  lemma FieldHas(p: Pass, t: Expr, d: Expr, n: nat)
    ensures var e := Field(t, d, n);
            && (Has(p, e) == Has(p, Backwards(e)) == (Has(p, t) || Has(p, d)))
            && (Nested(p, e) == Nested(p, Backwards(e)) == (Nested(p, t) || Nested(p, d)))
            && (Plain(e) == Plain(Backwards(e)) == (Plain(t) && Plain(d)))
  {
  }

  /** What a call is replaced by has the functions of its arguments. */
  lemma ReplacedHas(p: Pass, q: Pass, e: Expr)
    requires Own(p, e)
    ensures q == p ==> (Has(q, Replaced(e)) <==> Nested(q, e))
    ensures q != p ==> (Has(q, Replaced(e)) <==> Has(q, e)) && (Nested(q, Replaced(e)) <==> Nested(q, e))
  {
    match e {
      case If(c, y, n) => NestedHas(q, c); NestedHas(q, y); NestedHas(q, n);
      case Instr(t, x) =>
        NestedHas(q, t); NestedHas(q, x);
        assert Has(q, Cast(t)) == Has(q, t) && Has(q, Cast(x)) == Has(q, x);
        assert Nested(q, Cast(t)) == Nested(q, t) && Nested(q, Cast(x)) == Nested(q, x);
      case UpTo(t, d, n, negative) =>
        NestedHas(q, t); NestedHas(q, d);
        RenderedHas(q, t, d, n, negative);
    }
  }

  lemma OtherStaysOther(p: Pass, e: Expr)
    requires !Own(p, e)
    ensures !Own(p, Out(p, e))
  {
    hide Replaced;
  }

  /** A pass leaves a call of its function exactly if one was nested in another. */
  lemma {:induction false} OwnLeft(p: Pass, e: Expr)
    ensures Has(p, Out(p, e)) <==> Nested(p, e)
  {
    hide Replaced;
    if Own(p, e) {
      ReplacedHas(p, p, e);
    } else {
      OtherStaysOther(p, e);
      match e {
        case Constant(_) =>
        case Column(_) =>
        case Above(x, _) => OwnLeft(p, x);
        case If(c, y, n) => OwnLeft(p, c); OwnLeft(p, y); OwnLeft(p, n);
        case Instr(t, x) => OwnLeft(p, t); OwnLeft(p, x);
        case UpTo(t, d, _, _) => OwnLeft(p, t); OwnLeft(p, d);
        case Case(c, y, n) => OwnLeft(p, c); OwnLeft(p, y); OwnLeft(p, n);
        case Position(x, t) => OwnLeft(p, x); OwnLeft(p, t);
        case Cast(x) => OwnLeft(p, x);
        case Backwards(x) => OwnLeft(p, x);
        case Field(t, d, _) => OwnLeft(p, t); OwnLeft(p, d);
      }
    }
  }

  /** It does nothing to the other functions. */
  lemma {:induction false} OthersKept(p: Pass, q: Pass, e: Expr)
    requires q != p
    ensures Has(q, Out(p, e)) <==> Has(q, e)
  {
    hide Replaced;
    if Own(p, e) {
      ReplacedHas(p, q, e);
    } else {
      match e {
        case Constant(_) =>
        case Column(_) =>
        case Above(x, _) => OthersKept(p, q, x);
        case If(c, y, n) => OthersKept(p, q, c); OthersKept(p, q, y); OthersKept(p, q, n);
        case Instr(t, x) => OthersKept(p, q, t); OthersKept(p, q, x);
        case UpTo(t, d, _, _) => OthersKept(p, q, t); OthersKept(p, q, d);
        case Case(c, y, n) => OthersKept(p, q, c); OthersKept(p, q, y); OthersKept(p, q, n);
        case Position(x, t) => OthersKept(p, q, x); OthersKept(p, q, t);
        case Cast(x) => OthersKept(p, q, x);
        case Backwards(x) => OthersKept(p, q, x);
        case Field(t, d, _) => OthersKept(p, q, t); OthersKept(p, q, d);
      }
    }
  }

  lemma {:induction false} OthersNested(p: Pass, q: Pass, e: Expr)
    requires q != p
    ensures Nested(q, Out(p, e)) <==> Nested(q, e)
    decreases e, 0
  {
    hide Replaced, Has;
    if Own(p, e) {
      ReplacedHas(p, q, e);
    } else {
      match e {
        case Constant(_) =>
        case Column(_) =>
        case Above(x, _) => OthersStay(p, q, x);
        case If(c, y, n) => OthersStay(p, q, c); OthersStay(p, q, y); OthersStay(p, q, n);
        case Instr(t, x) => OthersStay(p, q, t); OthersStay(p, q, x);
        case UpTo(t, d, _, _) => OthersStay(p, q, t); OthersStay(p, q, d);
        case Case(c, y, n) => OthersStay(p, q, c); OthersStay(p, q, y); OthersStay(p, q, n);
        case Position(x, t) => OthersStay(p, q, x); OthersStay(p, q, t);
        case Cast(x) => OthersStay(p, q, x);
        case Backwards(x) => OthersStay(p, q, x);
        case Field(t, d, _) => OthersStay(p, q, t); OthersStay(p, q, d);
      }
    }
  }

  lemma OthersStay(p: Pass, q: Pass, e: Expr)
    requires q != p
    ensures Has(q, Out(p, e)) <==> Has(q, e)
    ensures Nested(q, Out(p, e)) <==> Nested(q, e)
    decreases e, 1
  {
    OthersKept(p, q, e);
    OthersNested(p, q, e);
  }

  /** After the three passes a call of a function is left exactly if one was nested in another of the same function. */
  lemma CallsLeftExactly(p: Pass, e: Expr)
    ensures Has(p, AfterPasses(e)) <==> Nested(p, e)
  {
    hide Has, Nested, Out;
    PassLeaves(Instrs, p, e);
    PassLeaves(UpTos, p, Out(Instrs, e));
    PassLeaves(Ifs, p, Out(UpTos, Out(Instrs, e)));
  }

  lemma PassLeaves(p: Pass, q: Pass, e: Expr)
    ensures q == p ==> (Has(q, Out(p, e)) <==> Nested(q, e))
    ensures q != p ==> (Has(q, Out(p, e)) <==> Has(q, e)) && (Nested(q, Out(p, e)) <==> Nested(q, e))
  {
    hide Has, Nested, Out;
    if p == q {
      OwnLeft(p, e);
    } else {
      OthersStay(p, q, e);
    }
  }

  /** PostgreSQL has no such function. */
  lemma {:induction false} MySqlHasNoValue(row: Row, p: Pass, e: Expr)
    requires Has(p, e)
    ensures ValueIn(row, e) == None
  {
    hide CaseValue, PositionValue, FieldValue, BackwardsValue, CastValue;
    match e {
      case Constant(_) =>
      case Column(_) =>
      case Above(x, _) => MySqlHasNoValue(row, p, x);
      case If(_, _, _) =>
      case Instr(_, _) =>
      case UpTo(_, _, _, _) =>
      case Case(c, y, n) =>
        if Has(p, c) { MySqlHasNoValue(row, p, c); }
        if Has(p, y) { MySqlHasNoValue(row, p, y); }
        if Has(p, n) { MySqlHasNoValue(row, p, n); }
      case Position(x, t) => if Has(p, x) { MySqlHasNoValue(row, p, x); } else { MySqlHasNoValue(row, p, t); }
      case Cast(x) => MySqlHasNoValue(row, p, x);
      case Backwards(x) => MySqlHasNoValue(row, p, x);
      case Field(t, d, _) => if Has(p, t) { MySqlHasNoValue(row, p, t); } else { MySqlHasNoValue(row, p, d); }
    }
  }

  /** So with a call nested in another of the same function an expression becomes one that PostgreSQL cannot
      evaluate. */
  lemma NestedIsAnError(row: Row, p: Pass, e: Expr)
    requires Plain(e) && Nested(p, e)
    ensures Evaluate(row, RewriteFunctions(Show(e))) == None
  {
    hide Has, Nested, AfterPasses, Show, Evaluate, ValueIn, RewriteFunctions, Plain;
    CallsLeftExactly(p, e);
    MySqlHasNoValue(row, p, AfterPasses(e));
    PassesOnExpr(e);
    WholeText(row, AfterPasses(e));
  }

  /** The input: an IF in an IF. */
  lemma NestedIfIsAnError(row: Row)
    ensures var inner := If(Constant(Truth(true)), Constant(Number(1)), Constant(Number(2)));
            var e := If(Constant(Truth(true)), inner, Constant(Number(3)));
            Evaluate(row, RewriteFunctions(Show(e))) == None
  {
    hide Show, Evaluate, RewriteFunctions;
    var inner := If(Constant(Truth(true)), Constant(Number(1)), Constant(Number(2)));
    assert Has(Ifs, inner) && Plain(inner);
    NestedIsAnError(row, Ifs, If(Constant(Truth(true)), inner, Constant(Number(3))));
  }

  // ---------------------------------------------------------------------------------------------------------------
  // All passes: the value

  /** MySQL's values as conditions and as strings (MySQL 8.4 Reference Manual, sections 14.5 and 14.8). A string as a
      condition is not considered. */
  predicate Holds(v: Value) {
    match v case Null => false case Truth(b) => b case Number(n) => n != 0 case Chars(_) => false
  }

  function MyText(v: Value): string
    requires !v.Null?
  {
    match v case Truth(b) => if b then "1" else "0" case Number(n) => Numeral(n) case Chars(s) => s
  }

  function MyInstr(t: Value, p: Value): Value {
    if t.Null? || p.Null? then Null
    else Number(match Find(MyText(t), MyText(p)) case None => 0 case Some(i) => i + 1)
  }

  function MyUpTo(t: Value, d: Value, n: nat, negative: bool): Value {
    if t.Null? || d.Null? then Null
    else if n == 0 then Chars("")
    else Chars(MySqlValue(MyText(t), MyText(d), Count(n, negative)))
  }

  /** Comparing with a number. A boolean or a string is not considered. */
  function MyAbove(v: Value, n: nat): Value {
    match v case Number(m) => Truth(m > n) case _ => Null
  }

  predicate IsMySql(e: Expr) {
    match e
    case Constant(_) => true
    case Column(_) => true
    case Above(x, _) => IsMySql(x)
    case If(c, y, n) => IsMySql(c) && IsMySql(y) && IsMySql(n)
    case Instr(t, p) => IsMySql(t) && IsMySql(p)
    case UpTo(t, d, _, _) => IsMySql(t) && IsMySql(d)
    case _ => false
  }

  /** The value of an expression in MySQL. */
  function MyValue(row: Row, e: Expr): Value
    requires IsMySql(e)
  {
    match e
    case Constant(v) => v
    case Column(name) => row(name)
    case Above(x, n) => MyAbove(MyValue(row, x), n)
    case If(c, y, n) => if Holds(MyValue(row, c)) then MyValue(row, y) else MyValue(row, n)
    case Instr(t, p) => MyInstr(MyValue(row, t), MyValue(row, p))
    case UpTo(t, d, n, negative) => MyUpTo(MyValue(row, t), MyValue(row, d), n, negative)
  }

  /** The count is one for which the rendering is right. */
  predicate RightCount(t: Value, d: Value, n: nat) {
    && IsField(n)
    && (t.Null? || d.Null? || MyText(t) == "" || (MyText(d) == "") == (n != 1))
  }

  /** Conditions are boolean or NULL, the branches of one kind, no boolean is used as a string, and the counts are
      right. */
  predicate Right(row: Row, e: Expr)
    requires IsMySql(e)
  {
    match e
    case Constant(_) => true
    case Column(_) => true
    case Above(x, _) => Right(row, x) && (MyValue(row, x).Number? || MyValue(row, x).Null?)
    case If(c, y, n) =>
      && Right(row, c) && Right(row, y) && Right(row, n)
      && (MyValue(row, c).Truth? || MyValue(row, c).Null?) && SameKind(MyValue(row, y), MyValue(row, n))
    case Instr(t, p) => Right(row, t) && Right(row, p) && !MyValue(row, t).Truth? && !MyValue(row, p).Truth?
    case UpTo(t, d, n, _) =>
      && Right(row, t) && Right(row, d) && !MyValue(row, t).Truth? && !MyValue(row, d).Truth?
      && RightCount(MyValue(row, t), MyValue(row, d), n)
  }

  /** An expression with all its calls replaced. */
  function Full(e: Expr): Expr {
    match e
    case Constant(_) => e
    case Column(_) => e
    case Above(x, n) => Above(Full(x), n)
    case If(c, y, n) => Case(Full(c), Full(y), Full(n))
    case Instr(t, p) => Position(Cast(Full(p)), Cast(Full(t)))
    case UpTo(t, d, n, negative) => Rendered(Full(t), Full(d), n, negative)
    case Case(c, y, n) => Case(Full(c), Full(y), Full(n))
    case Position(p, t) => Position(Full(p), Full(t))
    case Cast(x) => Cast(Full(x))
    case Backwards(x) => Backwards(Full(x))
    case Field(t, d, n) => Field(Full(t), Full(d), n)
  }

  lemma FullOfRendered(t: Expr, d: Expr, n: nat, negative: bool)
    ensures Full(Rendered(t, d, n, negative)) == Rendered(Full(t), Full(d), n, negative)
  {
    var (x, y) := (Backwards(Cast(t)), Backwards(Cast(d)));
    assert Full(Cast(t)) == Cast(Full(t)) && Full(Cast(d)) == Cast(Full(d));
    assert Full(x) == Backwards(Cast(Full(t))) && Full(y) == Backwards(Cast(Full(d)));
    assert Full(Field(x, y, n)) == Field(Full(x), Full(y), n);
  }

  /** A pass does not change what the expression becomes when all calls are replaced. */
  lemma {:induction false} FullOfOut(p: Pass, e: Expr)
    ensures Full(Out(p, e)) == Full(e)
  {
    if Own(p, e) {
      match e {
        case UpTo(t, d, n, negative) => FullOfRendered(t, d, n, negative);
        case Instr(t, x) => assert Full(Cast(t)) == Cast(Full(t)) && Full(Cast(x)) == Cast(Full(x));
        case _ =>
      }
    } else {
      match e {
        case Constant(_) =>
        case Column(_) =>
        case Above(x, _) => FullOfOut(p, x);
        case If(c, y, n) => FullOfOut(p, c); FullOfOut(p, y); FullOfOut(p, n);
        case Instr(t, x) => FullOfOut(p, t); FullOfOut(p, x);
        case UpTo(t, d, _, _) => FullOfOut(p, t); FullOfOut(p, d);
        case Case(c, y, n) => FullOfOut(p, c); FullOfOut(p, y); FullOfOut(p, n);
        case Position(x, t) => FullOfOut(p, x); FullOfOut(p, t);
        case Cast(x) => FullOfOut(p, x);
        case Backwards(x) => FullOfOut(p, x);
        case Field(t, d, _) => FullOfOut(p, t); FullOfOut(p, d);
      }
    }
  }

  /** None of MySQL's functions is called. */
  predicate Free(e: Expr) {
    !Has(Instrs, e) && !Has(UpTos, e) && !Has(Ifs, e)
  }

  /** Then there is nothing to be replaced. */
  lemma {:induction false} NothingToReplace(e: Expr)
    requires Free(e)
    ensures Full(e) == e
  {
    match e {
      case Constant(_) =>
      case Column(_) =>
      case Above(x, _) => NothingToReplace(x);
      case Case(c, y, n) => NothingToReplace(c); NothingToReplace(y); NothingToReplace(n);
      case Position(x, t) => NothingToReplace(x); NothingToReplace(t);
      case Cast(x) => NothingToReplace(x);
      case Backwards(x) => NothingToReplace(x);
      case Field(t, d, _) => NothingToReplace(t); NothingToReplace(d);
      case _ => assert false;
    }
  }

  /** Without nested calls the passes replace all calls. */
  lemma AllCallsReplaced(e: Expr)
    requires !Nested(Instrs, e) && !Nested(UpTos, e) && !Nested(Ifs, e)
    ensures AfterPasses(e) == Full(e)
  {
    hide Has, Nested, Out, Full;
    CallsLeftExactly(Instrs, e);
    CallsLeftExactly(UpTos, e);
    CallsLeftExactly(Ifs, e);
    NothingToReplace(AfterPasses(e));
    FullOfOut(Instrs, e);
    FullOfOut(UpTos, Out(Instrs, e));
    FullOfOut(Ifs, Out(UpTos, Out(Instrs, e)));
  }

  lemma CastIsText(v: Value)
    requires !v.Truth?
    ensures CastValue(v) == if v.Null? then Null else Chars(MyText(v))
  {
  }

  lemma InstrValue(t: Value, p: Value)
    requires !t.Truth? && !p.Truth?
    ensures PositionValue(CastValue(p), CastValue(t)) == Some(MyInstr(t, p))
  {
    hide Find, MyText, CastValue;
    CastIsText(t);
    CastIsText(p);
  }

  lemma {:induction false} RenderedOfValues(row: Row, t: Expr, d: Expr, n: nat, negative: bool, v: Value, w: Value)
    requires ValueIn(row, t) == Some(v) && ValueIn(row, d) == Some(w) && !v.Truth? && !w.Truth? && RightCount(v, w, n)
    ensures ValueIn(row, Rendered(t, d, n, negative)) == Some(MyUpTo(v, w, n, negative))
  {
    hide Reverse, SplitPart, MySqlValue, PostgresValue, CastValue, MyText;
    CastIsText(v);
    CastIsText(w);
    var (t', d') := (Cast(t), Cast(d));
    assert ValueIn(row, t') == Some(CastValue(v)) && ValueIn(row, d') == Some(CastValue(w));
    if v.Null? || w.Null? {
      NullRendered(row, t', d', n, CastValue(v), CastValue(w));
    } else {
      CastTwice(row, t, d, n, negative, MyText(v), MyText(w));
      SubstringIndexValue(MyText(v), MyText(w), Count(n, negative));
    }
  }

  lemma NullRendered(row: Row, t: Expr, d: Expr, n: nat, v: Value, w: Value)
    requires ValueIn(row, t) == Some(v) && ValueIn(row, d) == Some(w) && IsField(n) && (v.Null? || w.Null?)
    requires (v.Null? || v.Chars?) && (w.Null? || w.Chars?)
    ensures ValueIn(row, Field(t, d, n)) == Some(Null)
    ensures ValueIn(row, Backwards(Field(Backwards(t), Backwards(d), n))) == Some(Null)
  {
    hide Reverse, SplitPart;
    var (x, y) := (Backwards(t), Backwards(d));
    assert ValueIn(row, x) == BackwardsValue(v) && ValueIn(row, y) == BackwardsValue(w);
    assert ValueIn(row, Field(x, y, n)) == Some(Null);
  }

  lemma CastTwice(row: Row, t: Expr, d: Expr, n: nat, negative: bool, s: string, x: string)
    requires ValueIn(row, Cast(t)) == Some(Chars(s)) && ValueIn(row, Cast(d)) == Some(Chars(x)) && IsField(n)
    ensures ValueIn(row, Rendered(t, d, n, negative)) == Some(Chars(PostgresValue(s, x, Count(n, negative))))
  {
    hide Reverse, SplitPart;
    var (t', d') := (Cast(t), Cast(d));
    if negative {
      assert ValueIn(row, Backwards(t')) == Some(Chars(Reverse(s)));
      assert ValueIn(row, Backwards(d')) == Some(Chars(Reverse(x)));
      var field := Field(Backwards(t'), Backwards(d'), n);
      assert ValueIn(row, field) == FieldValue(Chars(Reverse(s)), Chars(Reverse(x)), n);
    } else {
      assert ValueIn(row, Field(t', d', n)) == FieldValue(Chars(s), Chars(x), n);
    }
  }

  /** With all calls replaced, an expression has MySQL's value. */
  lemma {:induction false} FullIsRight(row: Row, e: Expr)
    requires IsMySql(e) && Right(row, e)
    ensures ValueIn(row, Full(e)) == Some(MyValue(row, e))
  {
    hide CastValue, PositionValue, FieldValue, BackwardsValue, MyInstr, MyUpTo, RightCount, SameKind, Rendered;
    match e {
      case Constant(_) =>
      case Column(_) =>
      case Above(x, n) =>
        FullIsRight(row, x);
      case If(c, y, n) =>
        FullIsRight(row, c); FullIsRight(row, y); FullIsRight(row, n);
      case Instr(t, p) =>
        FullIsRight(row, t); FullIsRight(row, p);
        InstrValue(MyValue(row, t), MyValue(row, p));
        var (p', t') := (Cast(Full(p)), Cast(Full(t)));
        assert ValueIn(row, p') == Some(CastValue(MyValue(row, p)));
        assert ValueIn(row, t') == Some(CastValue(MyValue(row, t)));
        assert ValueIn(row, Position(p', t')) == PositionValue(CastValue(MyValue(row, p)), CastValue(MyValue(row, t)));
      case UpTo(t, d, n, negative) =>
        FullIsRight(row, t); FullIsRight(row, d);
        RenderedOfValues(row, Full(t), Full(d), n, negative, MyValue(row, t), MyValue(row, d));
    }
  }

  /** The three passes keep the value, for every row, of an expression in which no function is nested in itself, if
      conditions are boolean or NULL, their branches of one kind, no boolean is used as a string, and the counts are
      those for which the rendering of SUBSTRING_INDEX is right. */
  lemma RewritingKeepsValue(row: Row, e: Expr)
    requires Plain(e) && IsMySql(e) && Right(row, e)
    requires !Nested(Instrs, e) && !Nested(UpTos, e) && !Nested(Ifs, e)
    ensures Evaluate(row, RewriteFunctions(Show(e))) == Some((MyValue(row, e), ""))
  {
    hide Plain, IsMySql, Right, Nested, Show, Evaluate, RewriteFunctions, AfterPasses, ValueIn, MyValue, Full;
    PassesOnExpr(e);
    AllCallsReplaced(e);
    FullIsRight(row, e);
    WholeText(row, AfterPasses(e));
  }
}
