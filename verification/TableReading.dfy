/** PostgreSQL reads back, item by item, the table that was meant. */
module TableReading {
  import opened Text
  import opened Decimal
  import opened Literals
  import opened LiteralMeaning
  import opened PostgresDdl
  import opened CreateTable

  // ---------------------------------------------------------------------------------------------------------------
  // Quoted texts

  lemma ReplaceConcat(a: string, b: string)
    ensures ReplaceBackticks(a + b) == ReplaceBackticks(a) + ReplaceBackticks(b)
  {
  }

  lemma ReplaceNothing(s: string)
    requires '`' !in s
    ensures ReplaceBackticks(s) == s
  {
  }

  /** Doubling adds no other character. */
  lemma {:induction false} DoubledChars(q: char, v: string, c: char)
    ensures c in Doubled(q, v) <==> c in v
  {
    if v != "" {
      DoubledChars(q, v[1..], c);
      assert v == [v[0]] + v[1..];
    }
  }

  /** A value that was closed is shorter than its text, the more so if quotes were doubled in it. */
  lemma {:induction false} ClosedBody(q: char, s: string)
    requires PostgresBody(q, s).length < |s|
    ensures PostgresBody(q, s).length > |PostgresBody(q, s).value|
    ensures q in s[..PostgresBody(q, s).length - 1] ==>
            PostgresBody(q, s).length > |PostgresBody(q, s).value| + 1
    decreases s
  {
    if s[0] == q {
      if |s| > 1 && s[1] == q {
        ClosedBody(q, s[2..]);
      }
    } else {
      var r := PostgresBody(q, s[1..]);
      ClosedBody(q, s[1..]);
      assert s[..r.length] == [s[0]] + s[1..][..r.length - 1];
    }
  }

  lemma {:induction false} BodyChars(q: char, s: string, c: char)
    requires c !in s
    ensures c !in PostgresBody(q, s).value
    decreases s
  {
    if s != "" {
      BodyChars(q, s[1..], c);
      if |s| > 1 {
        BodyChars(q, s[2..], c);
      }
    }
  }

  lemma ReadQuoted(v: string, t: string, words: string -> Word)
    requires v != "" && !StartsWith(t, '"')
    ensures ReadOperand(QuoteIdent(v) + t, words) == Some((Named(v), t))
  {
    hide PostgresBody, Doubled;
    var s := QuoteIdent(v) + t;
    ConcatAssoc("\"", Doubled('"', v) + "\"", t);
    ConcatAssoc(Doubled('"', v), "\"", t);
    BodyOfDoubled('"', v, t);
    assert s[1..] == Doubled('"', v) + ("\"" + t);
    assert s[1 + |Doubled('"', v)| + 1..] == t;
  }

  /** A name as it is in a CHECK is read back as itself exactly if it can be: without either kind of name quote in it
      when it was quoted, and a lower-case, ordinary and well begun word when it was not. */
  predicate Portable(name: Ident, words: string -> Word) {
    if name.backquoted then '"' !in name.value && '`' !in name.value
    else
      && name.value != "" && IsWordStart(name.value[0]) && words(name.value) == Ordinary
      && forall k :: 0 <= k < |name.value| ==> !('A' <= name.value[k] <= 'Z')
  }

  /** A name is not empty, and a bare one is a word. */
  predicate IsIdent(name: Ident) {
    name.value != "" && (name.backquoted || forall k :: 0 <= k < |name.value| ==> IsWordChar(name.value[k]))
  }

  lemma NameIsReadBack(name: Ident, t: string, words: string -> Word)
    requires IsIdent(name) && StartsWith(t, ' ') && '`' !in t
    ensures ReadOperand(ReplaceBackticks(Display(name)) + t, words) == Some((Named(name.value), t)) <==>
            Portable(name, words)
  {
    if name.backquoted {
      QuotedNameIsReadBack(name.value, t, words);
    } else {
      ReadBare(name.value, t, words);
      FoldExactly(name.value);
    }
  }

  lemma FoldExactly(v: string)
    ensures ToLower(v) == v <==> forall k :: 0 <= k < |v| ==> !('A' <= v[k] <= 'Z')
  {
    forall k | 0 <= k < |v| ensures ToLower(v)[k] == v[k] <==> !('A' <= v[k] <= 'Z') {
    }
  }

  lemma ReadBare(v: string, t: string, words: string -> Word)
    requires v != "" && (forall k :: 0 <= k < |v| ==> IsWordChar(v[k])) && StartsWith(t, ' ')
    ensures ReadOperand(ReplaceBackticks(v) + t, words) ==
            if !IsWordStart(v[0]) then None
            else match Meaning(ToLower(v), words) case None => None case Some(x) => Some((x, t))
  {
    hide SpanLength, ToLower;
    assert '`' !in v;
    ReplaceNothing(v);
    var s := v + t;
    assert s[|v|] == ' ' && forall k :: 0 <= k < |v| ==> s[k] == v[k];
    SpanIs(IsWordChar, s, |v|);
    assert s[..|v|] == v && s[|v|..] == t && s[0] == v[0];
  }

  /** The name of a column, which is always quoted, comes back as itself exactly if it holds no backtick. */
  lemma ColumnNameIsReadBack(v: string, t: string, words: string -> Word)
    requires v != "" && !StartsWith(t, '"') && '`' !in t
    ensures ReadOperand(ReplaceBackticks(QuoteIdent(v) + t), words) == Some((Named(v), t)) <==> '`' !in v
  {
    hide PostgresBody, Doubled, ReplaceBackticks;
    var s := QuoteIdent(v) + t;
    if '`' in v {
      NoBackticksLeft(s);
      FirstIsKept(s);
      BodyChars('"', ReplaceBackticks(s)[1..], '`');
    } else {
      DoubledChars('"', v, '`');
      ReplaceNothing(s);
      ReadQuoted(v, t, words);
    }
  }

  lemma FirstIsKept(s: string)
    requires s != "" && s[0] == '"'
    ensures ReplaceBackticks(s)[0] == '"'
  {
  }

  lemma BackquotedText(d: string, t: string)
    ensures ReplaceBackticks("`" + (d + "`")) + t == "\"" + (ReplaceBackticks(d) + ("\"" + t))
  {
    ReplaceConcat("`", d + "`");
    ReplaceConcat(d, "`");
    assert ReplaceBackticks("`") == "\"";
    ConcatAssoc("\"", ReplaceBackticks(d) + "\"", t);
    ConcatAssoc(ReplaceBackticks(d), "\"", t);
  }

  lemma NoBackticksLeft(s: string)
    ensures '`' !in ReplaceBackticks(s)
  {
  }

  lemma QuotedNameIsReadBack(v: string, t: string, words: string -> Word)
    requires StartsWith(t, ' ') && '`' !in t
    ensures ReadOperand(ReplaceBackticks("`" + (Doubled('`', v) + "`")) + t, words) == Some((Named(v), t)) <==>
            v != "" && '"' !in v && '`' !in v
  {
    hide PostgresBody, Doubled, ReplaceBackticks;
    var d := Doubled('`', v);
    var inner := ReplaceBackticks(d) + ("\"" + t);
    var s := ReplaceBackticks("`" + (d + "`")) + t;
    var body := PostgresBody('"', inner);
    BackquotedText(d, t);
    assert s[1..] == inner;
    if '`' in v {
      NoBackticksLeft(d);
      BodyChars('"', inner, '`');
    } else {
      NothingToDouble('`', v);
      ReplaceNothing(v);
      UndoubledBody(v, t);
      if '"' !in v {
        assert s[1 + |v| + 1..] == t;
      } else {
        assert |s[1 + body.length..]| == |v| + 1 + |t| - body.length;
      }
    }
  }

  lemma UndoubledBody(v: string, t: string)
    requires StartsWith(t, ' ')
    ensures '"' !in v <==> PostgresBody('"', v + ("\"" + t)) == Quotation(v, |v| + 1)
  {
    hide PostgresBody;
    var inner := v + ("\"" + t);
    var body := PostgresBody('"', inner);
    if '"' !in v {
      NothingToDouble('"', v);
      BodyOfDoubled('"', v, t);
    } else if body.length == |v| + 1 {
      ClosedBody('"', inner);
      assert inner[..|v|] == v;
    }
  }

  // ---------------------------------------------------------------------------------------------------------------
  // CHECK constraints

  /** Names whose quoting survives: no name quote inside a quoted name. */
  predicate IsPlain(name: Ident) {
    IsIdent(name) && (name.backquoted ==> '"' !in name.value && '`' !in name.value)
  }

  /** What a name in a CHECK refers to: bare names are folded; they may mean a value of the session, and nothing if they
      are keywords or badly begun. */
  function RefOf(name: Ident, words: string -> Word): Option<Operand> {
    if name.backquoted then Some(Named(name.value))
    else if name.value == "" || !IsWordStart(name.value[0]) then None
    else Meaning(ToLower(name.value), words)
  }

  lemma RefOfPortable(name: Ident, words: string -> Word)
    requires IsPlain(name)
    ensures RefOf(name, words) == Some(Named(name.value)) <==> Portable(name, words)
  {
    FoldExactly(name.value);
  }

  lemma NameReads(name: Ident, t: string, words: string -> Word)
    requires IsPlain(name) && StartsWith(t, ' ') && '`' !in t
    ensures ReadOperand(ReplaceBackticks(Display(name)) + t, words) ==
            match RefOf(name, words) case None => None case Some(x) => Some((x, t))
  {
    if name.backquoted {
      QuotedNameIsReadBack(name.value, t, words);
    } else {
      ReadBare(name.value, t, words);
    }
  }

  lemma ReplaceAround(p: string, x: string)
    requires '`' !in p
    ensures ReplaceBackticks(p + x) == p + ReplaceBackticks(x)
  {
    ReplaceConcat(p, x);
    ReplaceNothing(p);
  }

  lemma RangeTailReads(name: Ident, max: nat, low: Operand, words: string -> Word)
    requires IsPlain(name)
    ensures var s := ReplaceBackticks(Display(name)) + (" <= " + (Numeral(max) + ")"));
            ReadRange(low, s, words) ==
            match RefOf(name, words) case None => None case Some(x) => Some(Range(low, x, max))
  {
    hide ReadOperand, ReadNumeral, ReplaceBackticks, Decimal.Value, Numeral;
    assert '`' !in " <= " + (Numeral(max) + ")");
    NameReads(name, " <= " + (Numeral(max) + ")"), words);
    ExpectPrefix(" <= ", Numeral(max) + ")");
    NumeralReads(Numeral(max), ")");
    ValueOfNumeral(max);
  }

  lemma RangeReads(name: Ident, max: nat, words: string -> Word)
    requires IsPlain(name)
    ensures ReadItem(ReplaceBackticks(RangeText(Display(name), max)), words) ==
            match RefOf(name, words) case None => None case Some(x) => Some(Range(x, x, max))
  {
    hide ReadOperand, ReadRange, ReplaceBackticks, Display, Numeral;
    var x := ReplaceBackticks(Display(name));
    var end := " <= " + (Numeral(max) + ")");
    var tail := " >= 0 AND " + (x + end);
    assert '`' !in end;
    assert ReplaceBackticks(RangeText(Display(name), max)) == "CHECK (" + (x + tail) by {
      ReplaceAround("CHECK (", Display(name) + (" >= 0 AND " + (Display(name) + end)));
      ReplaceConcat(Display(name), " >= 0 AND " + (Display(name) + end));
      ReplaceAround(" >= 0 AND ", Display(name) + end);
      ReplaceConcat(Display(name), end);
      ReplaceNothing(end);
    }
    NoBackticks(name, end);
    ExpectPrefix("CHECK (", x + tail);
    NameReads(name, tail, words);
    ExpectPrefix(" >= 0 AND ", x + end);
    RangeTailReads(name, max, if RefOf(name, words).Some? then RefOf(name, words).value else Named(""), words);
  }

  lemma NoBackticks(name: Ident, end: string)
    requires '`' !in end
    ensures '`' !in " >= 0 AND " + (ReplaceBackticks(Display(name)) + end)
  {
    assert '`' !in ReplaceBackticks(Display(name));
  }

  // ---------------------------------------------------------------------------------------------------------------
  // ENUM members

  function ReplacedAll(values: seq<string>): (r: seq<string>)
    ensures |r| == |values|
    ensures forall k :: 0 <= k < |values| ==> r[k] == ReplaceBackticks(values[k])
  {
    if values == [] then [] else [ReplaceBackticks(values[0])] + ReplacedAll(values[1..])
  }

  lemma {:induction false} ReplaceDoubled(v: string)
    ensures ReplaceBackticks(Doubled('\'', v)) == Doubled('\'', ReplaceBackticks(v))
  {
    if v != "" {
      ReplaceDoubled(v[1..]);
      var head := if v[0] == '\'' then "\'\'" else [v[0]];
      ReplaceConcat(head, Doubled('\'', v[1..]));
      assert ReplaceBackticks(v)[1..] == ReplaceBackticks(v[1..]);
    }
  }

  lemma StringReads(v: string, t: string)
    requires !StartsWith(t, '\'')
    ensures var s := "'" + (Doubled('\'', v) + ("'" + t));
            var body := PostgresBody('\'', s[1..]);
            body.value == v && 1 + body.length <= |s| && s[1 + body.length..] == t
  {
    hide PostgresBody, Doubled;
    var d := Doubled('\'', v);
    var s := "'" + (d + ("'" + t));
    assert s[1..] == d + ("'" + t);
    BodyOfDoubled('\'', v, t);
    assert s[1 + |d| + 1..] == t;
  }

  /** A string constant in front of the rest of a list. */
  lemma StringThen(m: string, rest: string)
    requires !StartsWith(rest, '\'')
    ensures var s := ("'" + (Doubled('\'', m) + "'")) + rest;
            ReadStrings(s) ==
            match Expect(", ", rest)
            case None => Some(([m], rest))
            case Some(more) =>
              match ReadStrings(more)
              case None => None
              case Some((values, end)) => Some(([m] + values, end))
  {
    hide PostgresBody, Doubled;
    var d := Doubled('\'', m);
    ConcatAssoc("'", d + "'", rest);
    ConcatAssoc(d, "'", rest);
    StringReads(m, rest);
  }

  /** The list comes back with its backticks replaced. */
  lemma {:induction false} StringsRead(members: seq<string>)
    requires members != []
    ensures ReadStrings(ReplaceBackticks(Join(StringTexts(members), ", ")) + "))") ==
            Some((ReplacedAll(members), "))"))
    decreases members
  {
    hide Doubled, ReplaceBackticks, ReplacedAll, ReadStrings, Join, StringTexts;
    var m := ReplaceBackticks(members[0]);
    var first := "'" + (Doubled('\'', members[0]) + "'");
    var read := "'" + (Doubled('\'', m) + "'");
    FirstString(members[0]);
    StringTextsSteps(members);
    ReplacedSteps(members);
    if |members| == 1 {
      StringThen(m, "))");
      assert Expect(", ", "))") == None;
      assert ReplacedAll(members) == [m];
    } else {
      var rest := ReplaceBackticks(Join(StringTexts(members[1..]), ", "));
      StringsRead(members[1..]);
      ReplaceConcat(first + ", ", Join(StringTexts(members[1..]), ", "));
      ReplaceConcat(first, ", ");
      ReplaceNothing(", ");
      ConcatAssoc(read + ", ", rest, "))");
      ConcatAssoc(read, ", ", rest + "))");
      StringThen(m, ", " + (rest + "))"));
      ExpectPrefix(", ", rest + "))");
    }
  }

  lemma FirstString(v: string)
    ensures ReplaceBackticks("'" + (Doubled('\'', v) + "'")) ==
            "'" + (Doubled('\'', ReplaceBackticks(v)) + "'")
  {
    hide Doubled;
    ReplaceAround("'", Doubled('\'', v) + "'");
    ReplaceConcat(Doubled('\'', v), "'");
    ReplaceNothing("'");
    ReplaceDoubled(v);
  }

  lemma StringTextsSteps(members: seq<string>)
    requires members != []
    ensures |members| == 1 ==>
              Join(StringTexts(members), ", ") == "'" + (Doubled('\'', members[0]) + "'")
    ensures |members| > 1 ==>
              Join(StringTexts(members), ", ") ==
              "'" + (Doubled('\'', members[0]) + "'") + ", " + Join(StringTexts(members[1..]), ", ")
  {
    var all := StringTexts(members);
    assert all[1..] == StringTexts(members[1..]);
    if |members| > 1 {
      assert StringTexts(members[1..]) != [];
    }
  }

  lemma ReplacedSteps(members: seq<string>)
    requires members != []
    ensures ReplacedAll(members) == [ReplaceBackticks(members[0])] + ReplacedAll(members[1..])
  {
  }

  lemma EnumReads(name: Ident, members: seq<string>, words: string -> Word)
    requires IsPlain(name) && members != []
    ensures ReadItem(ReplaceBackticks(EnumText(Display(name), members)), words) ==
            match RefOf(name, words) case None => None case Some(x) => Some(OneOf(x, ReplacedAll(members)))
  {
    hide ReadOperand, ReplaceBackticks, Display, StringTexts, ReadStrings, ReplacedAll;
    var x := ReplaceBackticks(Display(name));
    var list := Join(StringTexts(members), ", ");
    var end := ReplaceBackticks(list) + "))";
    var tail := " IN (" + end;
    assert ReplaceBackticks(EnumText(Display(name), members)) == "CHECK (" + (x + tail) by {
      ReplaceAround("CHECK (", Display(name) + (" IN (" + (list + "))")));
      ReplaceConcat(Display(name), " IN (" + (list + "))"));
      ReplaceAround(" IN (", list + "))");
      ReplaceConcat(list, "))");
      ReplaceNothing("))");
    }
    NoBackticksInList(list);
    ExpectPrefix("CHECK (", x + tail);
    NameReads(name, tail, words);
    ExpectPrefix(" IN (", end);
    assert tail[1] == 'I';
    assert Expect(" >= 0 AND ", tail) == None;
    StringsRead(members);
  }

  lemma NoBackticksInList(list: string)
    ensures '`' !in " IN (" + (ReplaceBackticks(list) + "))")
  {
    assert '`' !in ReplaceBackticks(list);
  }
}
