/** Expressions of the functions that are rewritten, before and after: their text, and their value in PostgreSQL, read
    from the text by sections 4.1, 9.4 and 9.18 of its documentation. */
module Expressions {
  import opened Text
  import opened Decimal
  import opened Literals
  import opened LiteralMeaning
  import opened SubstringIndex

  datatype Value = Null | Truth(b: bool) | Number(n: nat) | Chars(s: string)

  /** Constants, columns and comparisons; three functions of MySQL's; and what PostgreSQL has. */
  datatype Expr =
    | Constant(value: Value)
    | Column(name: string)
    | Above(inner: Expr, bound: nat)
    | If(condition: Expr, yes: Expr, no: Expr)
    | Instr(text: Expr, part: Expr)
    | UpTo(text: Expr, delimiter: Expr, count: nat, negative: bool)
    | Case(condition: Expr, yes: Expr, no: Expr)
    | Position(part: Expr, text: Expr)
    | Cast(inner: Expr)
    | Backwards(inner: Expr)
    | Field(text: Expr, delimiter: Expr, count: nat)

  predicate IsLeaf(e: Expr) {
    e.Constant? || e.Column?
  }

  function ShowValue(v: Value): string {
    match v
    case Null => "NULL"
    case Truth(b) => if b then "TRUE" else "FALSE"
    case Number(n) => Numeral(n)
    case Chars(s) => Encode(s)
  }

  /** The text of an expression. */
  function Show(e: Expr): string {
    match e
    case Constant(v) => ShowValue(v)
    case Column(name) => "\"" + (name + "\"")
    case Above(x, n) => "(" + (Show(x) + (" > " + (Numeral(n) + ")")))
    case If(c, y, n) => "IF(" + (Show(c) + (", " + (Show(y) + (", " + (Show(n) + ")")))))
    case Instr(t, p) => "INSTR(" + (Show(t) + (", " + (Show(p) + ")")))
    case UpTo(t, d, n, negative) =>
      var sign := if negative then "-" else "";
      "SUBSTRING_INDEX(" + (Show(t) + (", " + (Show(d) + (", " + (sign + (Numeral(n) + ")"))))))
    case Case(c, y, n) =>
      "(CASE WHEN " + (Show(c) + (" THEN " + (Show(y) + (" ELSE " + (Show(n) + " END)")))))
    case Position(p, t) => "POSITION(" + (Show(p) + (" IN " + (Show(t) + ")")))
    case Cast(x) => "CAST(" + (Show(x) + " AS text)")
    case Backwards(x) => "reverse(" + (Show(x) + ")")
    case Field(t, d, n) => "split_part(" + (Show(t) + (", " + (Show(d) + (", " + (Numeral(n) + ")")))))
  }

  // ---------------------------------------------------------------------------------------------------------------
  // Values in PostgreSQL

  /** A field number must not be zero, and has to be an integer of 32 bits, as no other `split_part` exists. */
  predicate IsField(n: nat) {
    0 < n <= 0x7FFF_FFFF
  }

  function CastValue(v: Value): Value {
    match v
    case Null => Null
    case Truth(b) => Chars(if b then "true" else "false")
    case Number(n) => Chars(Numeral(n))
    case Chars(_) => v
  }

  function BackwardsValue(v: Value): Option<Value> {
    match v
    case Null => Some(Null)
    case Chars(s) => Some(Chars(Reverse(s)))
    case _ => None
  }

  function FieldValue(t: Value, d: Value, n: nat): Option<Value> {
    if !IsField(n) then None
    else
      match (t, d)
      case (Chars(s), Chars(x)) => Some(Chars(SplitPart(s, x, n)))
      case (Null, Null) => Some(Null)
      case (Null, Chars(_)) => Some(Null)
      case (Chars(_), Null) => Some(Null)
      case _ => None
  }

  /** One more than the index of the first occurrence, or 0. */
  function PositionValue(p: Value, t: Value): Option<Value> {
    match (p, t)
    case (Chars(d), Chars(s)) => Some(Number(match Find(s, d) case None => 0 case Some(i) => i + 1))
    case (Null, Null) => Some(Null)
    case (Null, Chars(_)) => Some(Null)
    case (Chars(_), Null) => Some(Null)
    case _ => None
  }

  /** A comparison of numbers. */
  function AboveValue(v: Value, n: nat): Option<Value> {
    match v
    case Null => Some(Null)
    case Number(m) => Some(Truth(m > n))
    case _ => None
  }

  /** The branches of a CASE have one type. */
  predicate SameKind(v: Value, w: Value) {
    v.Null? || w.Null? || (v.Truth? && w.Truth?) || (v.Number? && w.Number?) || (v.Chars? && w.Chars?)
  }

  /** A condition is of type boolean. A string as a condition is not considered. */
  function CaseValue(c: Value, y: Value, n: Value): Option<Value> {
    if (c.Truth? || c.Null?) && SameKind(y, n) then Some(if c == Truth(true) then y else n) else None
  }

  /** What a row has in its columns. */
  type Row = string -> Value

  /** The value of an expression for a row, or an error: PostgreSQL has none of MySQL's functions, and an error in any
      part is one in the whole. */
  function ValueIn(row: Row, e: Expr): Option<Value> {
    match e
    case Constant(v) => Some(v)
    case Column(name) => Some(row(name))
    case Above(x, n) => if ValueIn(row, x).None? then None else AboveValue(ValueIn(row, x).value, n)
    case If(_, _, _) => None
    case Instr(_, _) => None
    case UpTo(_, _, _, _) => None
    case Case(c, y, n) =>
      if ValueIn(row, c).None? || ValueIn(row, y).None? || ValueIn(row, n).None? then None
      else CaseValue(ValueIn(row, c).value, ValueIn(row, y).value, ValueIn(row, n).value)
    case Position(p, t) =>
      if ValueIn(row, p).None? || ValueIn(row, t).None? then None
      else PositionValue(ValueIn(row, p).value, ValueIn(row, t).value)
    case Cast(x) => if ValueIn(row, x).None? then None else Some(CastValue(ValueIn(row, x).value))
    case Backwards(x) => if ValueIn(row, x).None? then None else BackwardsValue(ValueIn(row, x).value)
    case Field(t, d, n) =>
      if ValueIn(row, t).None? || ValueIn(row, d).None? then None
      else FieldValue(ValueIn(row, t).value, ValueIn(row, d).value, n)
  }

  // ---------------------------------------------------------------------------------------------------------------
  // The text evaluated

  type Reading = Option<(Value, string)>

  /** A reading with a value `v` and what is left, if it goes on as expected. */
  function Then(r: Reading, p: string): (r': Reading)
    ensures r'.Some? ==> r.Some? && |r'.value.1| <= |r.value.1|
  {
    match r
    case None => None
    case Some((v, rest)) => if p <= rest then Some((v, rest[|p|..])) else None
  }

  function Give(v: Option<Value>, rest: string): Reading {
    match v case None => None case Some(x) => Some((x, rest))
  }

  /** The value of the expression at the front of a text, and what follows it. */
  function Evaluate(row: Row, s: string): (r: Reading)
    ensures r.Some? ==> |r.value.1| < |s|
    decreases |s|, 1
  {
    if StartsWith(s, '\'') then
      var body := PostgresBody('\'', s[1..]);
      Some((Chars(body.value), s[1 + body.length..]))
    else if StartsWith(s, '"') then
      var body := PostgresBody('"', s[1..]);
      Some((row(body.value), s[1 + body.length..]))
    else if s != "" && IsDigit(s[0]) then NumberAt(s)
    else if "NULL" <= s then Some((Null, s[4..]))
    else if "TRUE" <= s then Some((Truth(true), s[4..]))
    else if "FALSE" <= s then Some((Truth(false), s[5..]))
    else Parts(row, s)
  }

  /** The value of an expression of several parts. */
  function Parts(row: Row, s: string): (r: Reading)
    ensures r.Some? ==> |r.value.1| < |s|
    decreases |s|, 0
  {
    if "CAST(" <= s then
      match Then(Evaluate(row, s[5..]), " AS text)")
      case None => None
      case Some((v, rest)) => Some((CastValue(v), rest))
    else if "reverse(" <= s then
      match Then(Evaluate(row, s[8..]), ")")
      case None => None
      case Some((v, rest)) => Give(BackwardsValue(v), rest)
    else if "POSITION(" <= s then
      match Then(Evaluate(row, s[9..]), " IN ")
      case None => None
      case Some((p, s1)) =>
        match Then(Evaluate(row, s1), ")")
        case None => None
        case Some((t, rest)) => Give(PositionValue(p, t), rest)
    else if "split_part(" <= s then
      match Then(Evaluate(row, s[11..]), ", ")
      case None => None
      case Some((t, s1)) =>
        match Then(Evaluate(row, s1), ", ")
        case None => None
        case Some((d, s2)) =>
          match Then(Evaluate(row, s2), ")")
          case None => None
          case Some((n, rest)) => if n.Number? then Give(FieldValue(t, d, n.n), rest) else None
    else if "(CASE WHEN " <= s then
      match Then(Evaluate(row, s[11..]), " THEN ")
      case None => None
      case Some((c, s1)) =>
        match Then(Evaluate(row, s1), " ELSE ")
        case None => None
        case Some((y, s2)) =>
          match Then(Evaluate(row, s2), " END)")
          case None => None
          case Some((n, rest)) => Give(CaseValue(c, y, n), rest)
    else if "(" <= s then
      match Then(Evaluate(row, s[1..]), " > ")
      case None => None
      case Some((v, s1)) =>
        match Then(Evaluate(row, s1), ")")
        case None => None
        case Some((n, rest)) => if n.Number? then Give(AboveValue(v, n.n), rest) else None
    else None
  }

  /** An unsigned numeral. */
  function NumberAt(s: string): (r: Reading)
    requires s != "" && IsDigit(s[0])
    ensures r.Some? ==> |r.value.1| < |s|
  {
    var (n, rest) := ReadNumeral(s);
    assert SpanLength(IsDigit, s) > 0;
    Some((Number(n), rest))
  }

  // ---------------------------------------------------------------------------------------------------------------
  // The text of an expression has its value

  /** What may follow an expression: nothing, or a character that ends it. */
  predicate Ends(rest: string) {
    rest == "" || rest[0] in {' ', ',', ')'}
  }

  lemma ConstantIsRead(row: Row, v: Value, rest: string)
    requires Ends(rest)
    ensures Evaluate(row, ShowValue(v) + rest) == Some((v, rest))
  {
    hide PostgresBody, Doubled, Numeral, ReadNumeral, Decimal.Value;
    var s := ShowValue(v) + rest;
    match v {
      case Null => assert s[4..] == rest;
      case Truth(b) =>
        if b {
          assert s[4..] == rest && s[0] == 'T';
        } else {
          assert s[5..] == rest && s[0] == 'F';
        }
      case Number(n) =>
        NumeralReads(Numeral(n), rest);
        ValueOfNumeral(n);
        assert s[0] == Numeral(n)[0] && IsDigit(s[0]);
      case Chars(x) =>
        EncodeTail(x, rest);
        BodyOfDoubled('\'', x, rest);
        assert s[1 + |Doubled('\'', x)| + 1..] == rest;
    }
  }

  lemma ThenReads(v: Option<Value>, p: string, rest: string)
    ensures Then(Give(v, p + rest), p) == Give(v, rest)
  {
    assert (p + rest)[|p|..] == rest;
  }

  lemma CastIsRead(row: Row, inner: string)
    ensures Evaluate(row, "CAST(" + inner) ==
            match Then(Evaluate(row, inner), " AS text)")
            case None => None
            case Some((v, rest)) => Some((CastValue(v), rest))
  {
    var s := "CAST(" + inner;
    assert s[5..] == inner && s[0] == 'C';
  }

  lemma BackwardsIsRead(row: Row, inner: string)
    ensures Evaluate(row, "reverse(" + inner) ==
            match Then(Evaluate(row, inner), ")")
            case None => None
            case Some((v, rest)) => Give(BackwardsValue(v), rest)
  {
    hide BackwardsValue;
    var s := "reverse(" + inner;
    assert s[8..] == inner && s[0] == 'r';
  }

  lemma PositionIsRead(row: Row, inner: string)
    ensures Evaluate(row, "POSITION(" + inner) ==
            match Then(Evaluate(row, inner), " IN ")
            case None => None
            case Some((p, s1)) =>
              match Then(Evaluate(row, s1), ")")
              case None => None
              case Some((t, rest)) => Give(PositionValue(p, t), rest)
  {
    hide PositionValue;
    var s := "POSITION(" + inner;
    assert s[9..] == inner && s[0] == 'P';
  }

  lemma FieldIsRead(row: Row, inner: string)
    ensures Evaluate(row, "split_part(" + inner) ==
            match Then(Evaluate(row, inner), ", ")
            case None => None
            case Some((t, s1)) =>
              match Then(Evaluate(row, s1), ", ")
              case None => None
              case Some((d, s2)) =>
                match Then(Evaluate(row, s2), ")")
                case None => None
                case Some((n, rest)) => if n.Number? then Give(FieldValue(t, d, n.n), rest) else None
  {
    hide FieldValue;
    var s := "split_part(" + inner;
    assert s[11..] == inner && s[0] == 's';
  }

  lemma CaseIsRead(row: Row, inner: string)
    ensures Evaluate(row, "(CASE WHEN " + inner) ==
            match Then(Evaluate(row, inner), " THEN ")
            case None => None
            case Some((c, s1)) =>
              match Then(Evaluate(row, s1), " ELSE ")
              case None => None
              case Some((y, s2)) =>
                match Then(Evaluate(row, s2), " END)")
                case None => None
                case Some((n, rest)) => Give(CaseValue(c, y, n), rest)
  {
    hide CaseValue;
    var s := "(CASE WHEN " + inner;
    assert s[11..] == inner && s[0] == '(';
  }

  lemma AboveIsRead(row: Row, inner: string)
    requires !("CASE WHEN " <= inner)
    ensures Evaluate(row, "(" + inner) ==
            match Then(Evaluate(row, inner), " > ")
            case None => None
            case Some((v, s1)) =>
              match Then(Evaluate(row, s1), ")")
              case None => None
              case Some((n, rest)) => if n.Number? then Give(AboveValue(v, n.n), rest) else None
  {
    hide AboveValue, Then, CaseValue, PositionValue, FieldValue, BackwardsValue, CastValue;
    var s := "(" + inner;
    assert s[1..] == inner && s[0] == '(';
    NoCaseInside(inner);
  }

  lemma NoCaseInside(inner: string)
    requires !("CASE WHEN " <= inner)
    ensures !("(CASE WHEN " <= "(" + inner)
  {
    var (s, p) := ("(" + inner, "(CASE WHEN ");
    assert s[1..] == inner;
    assert "CASE WHEN " == p[1..];
  }

  lemma ColumnIsRead(row: Row, name: string, rest: string)
    requires '"' !in name && Ends(rest)
    ensures Evaluate(row, Show(Column(name)) + rest) == Some((row(name), rest))
  {
    hide PostgresBody, Doubled;
    var s := Show(Column(name)) + rest;
    assert s[1..] == name + ("\"" + rest);
    NothingToDouble('"', name);
    BodyOfDoubled('"', name, rest);
    assert s[1 + |name| + 1..] == rest;
  }

  /** Column names have no double quote in them. */
  predicate ColumnsAreNames(e: Expr) {
    match e
    case Constant(_) => true
    case Column(name) => '"' !in name
    case Above(x, _) => ColumnsAreNames(x)
    case If(c, y, n) => ColumnsAreNames(c) && ColumnsAreNames(y) && ColumnsAreNames(n)
    case Instr(t, p) => ColumnsAreNames(t) && ColumnsAreNames(p)
    case UpTo(t, d, _, _) => ColumnsAreNames(t) && ColumnsAreNames(d)
    case Case(c, y, n) => ColumnsAreNames(c) && ColumnsAreNames(y) && ColumnsAreNames(n)
    case Position(p, t) => ColumnsAreNames(p) && ColumnsAreNames(t)
    case Cast(x) => ColumnsAreNames(x)
    case Backwards(x) => ColumnsAreNames(x)
    case Field(t, d, _) => ColumnsAreNames(t) && ColumnsAreNames(d)
  }

  /** No expression begins as a CASE does without its parenthesis. */
  lemma NoBareCase(e: Expr, rest: string)
    ensures !("CASE WHEN " <= Show(e) + rest)
  {
    hide Numeral, Encode;
    var s := Show(e) + rest;
    match e {
      case Constant(v) =>
        if v.Number? {
          assert IsDigit(Numeral(v.n)[0]) && s[0] == Numeral(v.n)[0];
        } else if v.Chars? {
          EncodeStarts(v.s);
          assert s[0] == '\'';
        } else {
          assert s[0] in {'N', 'T', 'F'};
        }
      case Cast(x) => assert s[3] == 'T';
      case _ => assert s[0] in {'"', '(', 'I', 'S', 'P', 'r', 's'};
    }
  }

  lemma EncodeStarts(s: string)
    ensures Encode(s)[0] == '\''
  {
  }

  lemma MySqlIsNotRead(row: Row, s: string)
    requires "IF(" <= s || "INSTR(" <= s || "SUBSTRING_INDEX(" <= s
    ensures Evaluate(row, s) == None
  {
    assert s[0] in {'I', 'S'};
  }

  /** Reading the text of an expression in front of anything that ends it gives its value. */
  lemma {:induction false} ShowEvaluates(row: Row, e: Expr, rest: string)
    requires Ends(rest) && ColumnsAreNames(e)
    ensures Evaluate(row, Show(e) + rest) == Give(ValueIn(row, e), rest)
    decreases e
  {
    hide Evaluate, Then, Encode, CastValue, BackwardsValue, PositionValue, FieldValue, CaseValue, Numeral;
    match e {
      case Constant(v) =>
        ConstantIsRead(row, v, rest);
      case Column(name) =>
        ColumnIsRead(row, name, rest);
      case Above(x, n) =>
        AboveEvaluates(row, x, n, rest);
      case If(c, y, n) =>
        MySqlIsNotRead(row, Show(e) + rest);
      case Instr(t, p) =>
        MySqlIsNotRead(row, Show(e) + rest);
      case UpTo(t, d, n, negative) =>
        MySqlIsNotRead(row, Show(e) + rest);
      case Case(c, y, n) =>
        CaseEvaluates(row, c, y, n, rest);
      case Position(p, t) =>
        PositionEvaluates(row, p, t, rest);
      case Cast(x) =>
        CastEvaluates(row, x, rest);
      case Backwards(x) =>
        BackwardsEvaluates(row, x, rest);
      case Field(t, d, n) =>
        FieldEvaluates(row, t, d, n, rest);
    }
  }

  lemma {:induction false} AboveEvaluates(row: Row, x: Expr, n: nat, rest: string)
    requires Ends(rest) && ColumnsAreNames(x)
    ensures Evaluate(row, Show(Above(x, n)) + rest) == Give(ValueIn(row, Above(x, n)), rest)
    decreases Above(x, n), 0
  {
    hide Evaluate, Then, AboveValue, Numeral;
    var last := Numeral(n) + (")" + rest);
    ConcatAssoc("(", Show(x) + (" > " + (Numeral(n) + ")")), rest);
    ConcatAssoc(Show(x), " > " + (Numeral(n) + ")"), rest);
    ConcatAssoc(" > ", Numeral(n) + ")", rest);
    ConcatAssoc(Numeral(n), ")", rest);
    ConstantIsRead(row, Number(n), ")" + rest);
    ShowEvaluates(row, x, " > " + last);
    NoBareCase(x, " > " + last);
    AboveIsRead(row, Show(x) + (" > " + last));
    ThenReads(ValueIn(row, x), " > ", last);
    ThenReads(Some(Number(n)), ")", rest);
  }

  lemma {:induction false} CastEvaluates(row: Row, x: Expr, rest: string)
    requires Ends(rest) && ColumnsAreNames(x)
    ensures Evaluate(row, Show(Cast(x)) + rest) == Give(ValueIn(row, Cast(x)), rest)
    decreases Cast(x), 0
  {
    hide Evaluate, Then, CastValue;
    ConcatAssoc("CAST(", Show(x) + " AS text)", rest);
    ConcatAssoc(Show(x), " AS text)", rest);
    ShowEvaluates(row, x, " AS text)" + rest);
    CastIsRead(row, Show(x) + (" AS text)" + rest));
    ThenReads(ValueIn(row, x), " AS text)", rest);
  }

  lemma {:induction false} BackwardsEvaluates(row: Row, x: Expr, rest: string)
    requires Ends(rest) && ColumnsAreNames(x)
    ensures Evaluate(row, Show(Backwards(x)) + rest) == Give(ValueIn(row, Backwards(x)), rest)
    decreases Backwards(x), 0
  {
    hide Evaluate, Then, BackwardsValue;
    ConcatAssoc("reverse(", Show(x) + ")", rest);
    ConcatAssoc(Show(x), ")", rest);
    ShowEvaluates(row, x, ")" + rest);
    BackwardsIsRead(row, Show(x) + (")" + rest));
    ThenReads(ValueIn(row, x), ")", rest);
  }

  lemma {:induction false} PositionEvaluates(row: Row, p: Expr, t: Expr, rest: string)
    requires Ends(rest) && ColumnsAreNames(p) && ColumnsAreNames(t)
    ensures Evaluate(row, Show(Position(p, t)) + rest) == Give(ValueIn(row, Position(p, t)), rest)
    decreases Position(p, t), 0
  {
    hide Evaluate, Then, PositionValue;
    var last := Show(t) + (")" + rest);
    ConcatAssoc("POSITION(", Show(p) + (" IN " + (Show(t) + ")")), rest);
    ConcatAssoc(Show(p), " IN " + (Show(t) + ")"), rest);
    ConcatAssoc(" IN ", Show(t) + ")", rest);
    ConcatAssoc(Show(t), ")", rest);
    ShowEvaluates(row, t, ")" + rest);
    ShowEvaluates(row, p, " IN " + last);
    PositionIsRead(row, Show(p) + (" IN " + last));
    ThenReads(ValueIn(row, p), " IN ", last);
    ThenReads(ValueIn(row, t), ")", rest);
  }

  lemma {:induction false} FieldEvaluates(row: Row, t: Expr, d: Expr, n: nat, rest: string)
    requires Ends(rest) && ColumnsAreNames(t) && ColumnsAreNames(d)
    ensures Evaluate(row, Show(Field(t, d, n)) + rest) == Give(ValueIn(row, Field(t, d, n)), rest)
    decreases Field(t, d, n), 0
  {
    hide Evaluate, Then, FieldValue, Numeral;
    var third := Numeral(n) + (")" + rest);
    var second := Show(d) + (", " + third);
    ConcatAssoc("split_part(", Show(t) + (", " + (Show(d) + (", " + (Numeral(n) + ")")))), rest);
    ConcatAssoc(Show(t), ", " + (Show(d) + (", " + (Numeral(n) + ")"))), rest);
    ConcatAssoc(", ", Show(d) + (", " + (Numeral(n) + ")")), rest);
    ConcatAssoc(Show(d), ", " + (Numeral(n) + ")"), rest);
    ConcatAssoc(", ", Numeral(n) + ")", rest);
    ConcatAssoc(Numeral(n), ")", rest);
    ConstantIsRead(row, Number(n), ")" + rest);
    ShowEvaluates(row, d, ", " + third);
    ShowEvaluates(row, t, ", " + second);
    FieldIsRead(row, Show(t) + (", " + second));
    ThenReads(ValueIn(row, t), ", ", second);
    ThenReads(ValueIn(row, d), ", ", third);
    ThenReads(Some(Number(n)), ")", rest);
  }

  lemma {:induction false} CaseEvaluates(row: Row, c: Expr, y: Expr, n: Expr, rest: string)
    requires Ends(rest) && ColumnsAreNames(c) && ColumnsAreNames(y) && ColumnsAreNames(n)
    ensures Evaluate(row, Show(Case(c, y, n)) + rest) == Give(ValueIn(row, Case(c, y, n)), rest)
    decreases Case(c, y, n), 0
  {
    hide Evaluate, Then, CaseValue;
    var third := Show(n) + (" END)" + rest);
    var second := Show(y) + (" ELSE " + third);
    ConcatAssoc("(CASE WHEN ", Show(c) + (" THEN " + (Show(y) + (" ELSE " + (Show(n) + " END)")))), rest);
    ConcatAssoc(Show(c), " THEN " + (Show(y) + (" ELSE " + (Show(n) + " END)"))), rest);
    ConcatAssoc(" THEN ", Show(y) + (" ELSE " + (Show(n) + " END)")), rest);
    ConcatAssoc(Show(y), " ELSE " + (Show(n) + " END)"), rest);
    ConcatAssoc(" ELSE ", Show(n) + " END)", rest);
    ConcatAssoc(Show(n), " END)", rest);
    ShowEvaluates(row, n, " END)" + rest);
    ShowEvaluates(row, y, " ELSE " + third);
    ShowEvaluates(row, c, " THEN " + second);
    CaseIsRead(row, Show(c) + (" THEN " + second));
    ThenReads(ValueIn(row, c), " THEN ", second);
    ThenReads(ValueIn(row, y), " ELSE ", third);
    ThenReads(ValueIn(row, n), " END)", rest);
  }
}
