/** The hand-written passes with the parser and the printer between them, as far as literals go: the parser reads a
    literal by MySQL rules, and the printer writes its value with the quotes doubled and backslashes as they are. */
module Printing {
  import opened Text
  import opened Lexer
  import opened Fragments
  import opened Literals
  import opened LiteralMeaning
  import opened LiteralStability
  import opened PrePass
  import opened SqlFunctions
  import opened Placeholders
  import opened NeutralMarks
  import opened Conservation
  import opened ParameterCount
  import opened Passes
  import opened PostgresQuoting
  import opened Masking
  import Booleans

  /** A text with its single-quoted literals printed from their values. */
  function Printed(s: string): string
    decreases |s|
  {
    if s == "" then ""
    else if s[0] == '\'' then
      Encode(MySqlBody('\'', s[1..]).value) + Printed(s[FragmentLength(s)..])
    else if IsQuote(s[0]) then s[..FragmentLength(s)] + Printed(s[FragmentLength(s)..])
    else [s[0]] + Printed(s[1..])
  }

  /** The values of the single-quoted literals are printed without an unpaired backslash before a quote. */
  predicate Printable(s: string)
    decreases |s|
  {
    if s == "" then true
    else if s[0] == '\'' then Unshielded(MySqlBody('\'', s[1..]).value) && Printable(s[FragmentLength(s)..])
    else if IsQuote(s[0]) then Printable(s[FragmentLength(s)..])
    else Printable(s[1..])
  }

  // ---------------------------------------------------------------------------------------------------------------
  // The pre-pass keeps texts printable

  lemma {:induction false} UnshieldedJoin(v: string, w: string)
    requires Unshielded(v) && Unshielded(w)
    ensures Unshielded(v + "'" + w)
  {
    var x := v + "'" + w;
    if v == "" {
      assert x[1..] == w;
    } else {
      var n := if v[0] == '\\' then 2 else 1;
      UnshieldedJoin(v[n..], w);
      assert x[0] == v[0] && x[n..] == v[n..] + "'" + w;
    }
  }

  /** A literal in front of a printable text, whether it runs on into the text's first literal or not. */
  lemma {:induction false} LiteralThen(x: string, v: string, n: nat, t: string)
    requires StartsWith(x, '\'') && n < |x| && x[1 + n..] == t && Unshielded(v) && Printable(t)
    requires MySqlBody('\'', x[1..]) ==
             if StartsWith(t, '\'') then MySqlBody('\'', t[1..]).Prepend(v + "'", n + 1) else Quotation(v, n)
    ensures Printable(x)
  {
    hide MySqlBody, Body, Unshielded;
    SameExtent('\'', x[1..]);
    if StartsWith(t, '\'') {
      var body := MySqlBody('\'', t[1..]);
      SameExtent('\'', t[1..]);
      UnshieldedJoin(v, body.value);
      assert x[1 + n..][1 + body.length..] == x[1 + (n + 1 + body.length)..];
    }
  }

  /** Another fragment in front. */
  lemma {:induction false} FragmentThen(f: string, t: string)
    requires f != "" && IsQuote(f[0]) && f[0] != '\'' && FragmentLength(f) == |f| && FragmentClosed(f)
    requires !StartsWith(t, f[0]) && Printable(t)
    ensures Printable(f + t)
  {
    hide FragmentLength, FragmentClosed;
    Forests.FragmentLengthOf(f, t);
  }

  lemma RequotedStart(s: string, c: char)
    requires !StartsWith(s, c) && c == '`'
    ensures !StartsWith(Requoted(s), c)
  {
    hide MySqlBody, Body;
  }

  lemma {:induction false} PrePassStaysPrintable(st: State, s: string)
    requires st.InCode() && Safe(st, s) && Reach(st, s).InCode() && Passable(s) && Printable(s)
    ensures Printable(Requoted(s))
    decreases |s|
  {
    hide Body, MySqlBody, Safe, After, Encode, Tame, FragmentLength, FragmentClosed, Unshielded;
    if s != "" && IsQuote(s[0]) {
      var n := FragmentLength(s);
      var (f, t) := (s[..n], Requoted(s[n..]));
      SplitAt(s, n);
      ClosedIs(s);
      ReadConcat(IsQuestion, st, f, s[n..]);
      FragmentIsClosed(st, s);
      FragmentReads(st, f);
      PrePassStaysPrintable(Code, s[n..]);
      RequotedByFragment(s);
      if s[0] == '"' {
        EncodedThen(MySqlBody('"', s[1..]).value, t);
      } else if s[0] == '\'' {
        CopiedThen(s, t);
      } else {
        NoSuchQuoteBehind(s);
        RequotedStart(s[n..], '`');
        FragmentThen(f, t);
      }
    } else if s != "" {
      SplitAt(s, 1);
      assert s[..1] == [s[0]];
      SymbolReads(st, s[0], s[1..]);
      OneReads(IsQuestion, st, s[0]);
      ReadConcat(IsQuestion, st, [s[0]], s[1..]);
      PrePassStaysPrintable(Next(st, s[0]), s[1..]);
      assert ([s[0]] + Requoted(s[1..]))[1..] == Requoted(s[1..]);
    }
  }

  lemma ClosedIs(s: string)
    requires s != ""
    ensures FragmentClosed(s) <==> Body(s[0], s[1..]).closed
  {
  }

  lemma NoSuchQuoteBehind(s: string)
    requires s != "" && IsQuote(s[0]) && FragmentClosed(s)
    ensures !StartsWith(s[FragmentLength(s)..], s[0])
  {
    FragmentInLexer(s, FragmentLength(s));
  }

  lemma EncodedThen(v: string, t: string)
    requires Tame(v) && Printable(t)
    ensures Printable(Encode(v) + t)
  {
    hide MySqlBody, Doubled, Tame, Printable;
    var x := Encode(v) + t;
    EncodeTail(v, t);
    MySqlBodyOfTame(v, t);
    TameIsUnshielded(v);
    var n := |Doubled('\'', v)| + 1;
    assert x[1 + n..] == t;
    LiteralThen(x, v, n, t);
  }

  lemma CopiedThen(s: string, t: string)
    requires StartsWith(s, '\'') && Body('\'', s[1..]).closed && Unshielded(MySqlBody('\'', s[1..]).value)
    requires Printable(t)
    ensures Printable(s[..FragmentLength(s)] + t)
  {
    hide MySqlBody, Body, Printable, Unshielded;
    var body := MySqlBody('\'', s[1..]);
    SameExtent('\'', s[1..]);
    ClosedBodyThen(s[1..], t);
    var x := s[..1 + body.length] + t;
    assert x[1..] == s[1..][..body.length] + t;
    LiteralThen(x, body.value, body.length, t);
  }

  // ---------------------------------------------------------------------------------------------------------------
  // Printing keeps the placeholders

  lemma {:induction false} PrintingKeeps(m: char -> bool, st: State, s: string)
    requires NeutralClass(m) && st.InCode() && Reads(m, st, s, Marks(m, st, s)) && Printable(s)
    ensures Reads(m, st, Printed(s), Marks(m, st, s))
    decreases |s|
  {
    hide Body, MySqlBody, Marks, Safe, After, Encode, FragmentLength, FragmentClosed, Unshielded;
    if s == "" {
    } else if IsQuote(s[0]) {
      var n := FragmentLength(s);
      SplitAt(s, n);
      ReadConcat(m, st, s[..n], s[n..]);
      SingleQuotedConcat(st, s[..n], s[n..]);
      FragmentIsClosed(st, s);
      FragmentHasNoMarks(m, st, s[..n]);
      PrintingKeeps(m, Code, s[n..]);
      assert "" + Marks(m, Code, s[n..]) == Marks(m, Code, s[n..]);
      if s[0] == '\'' {
        EncodedReads(m, st, MySqlBody('\'', s[1..]).value);
        ReadsConcat(m, st, Encode(MySqlBody('\'', s[1..]).value), Printed(s[n..]), Marks(m, Code, s[n..]));
      } else {
        ReadsConcat(m, st, s[..n], Printed(s[n..]), Marks(m, Code, s[n..]));
      }
    } else {
      SplitAt(s, 1);
      assert s[..1] == [s[0]];
      SymbolReads(st, s[0], s[1..]);
      OneReads(m, st, s[0]);
      ReadConcat(m, st, [s[0]], s[1..]);
      SingleQuotedConcat(st, [s[0]], s[1..]);
      PrintingKeeps(m, Next(st, s[0]), s[1..]);
      ReadsConcat(m, st, [s[0]], Printed(s[1..]), Marks(m, Next(st, s[0]), s[1..]));
    }
  }

  // ---------------------------------------------------------------------------------------------------------------
  // When the printed text is misread

  /** No quote but those of single-quoted literals stands outside literals. */
  predicate OnlySingleQuoted(s: string)
    decreases |s|
  {
    if s == "" then true
    else if s[0] == '\'' then OnlySingleQuoted(s[FragmentLength(s)..])
    else !IsQuote(s[0]) && OnlySingleQuoted(s[1..])
  }

  /** Reading the doubled form of a value from inside the literal. */
  lemma {:induction false} ShieldedInValue(v: string, t: string)
    ensures ShieldedQuote(Quoted('\''), Doubled('\'', v) + ("'" + t)) <==> !Unshielded(v) || ShieldedQuote(Code, t)
    decreases v
  {
    var x := Doubled('\'', v) + ("'" + t);
    if v == "" {
      assert x == "'" + t && x[1..] == t;
    } else if v[0] == '\\' {
      DoubledTail(v, t);
      if |v| > 1 && v[1] != '\'' {
        DoubledTail(v[1..], t);
        assert x[1..][1..] == Doubled('\'', v[2..]) + ("'" + t);
        ShieldedInValue(v[2..], t);
      }
    } else {
      DoubledTail(v, t);
      ShieldedInValue(v[1..], t);
    }
  }

  lemma DoubledTail(v: string, t: string)
    requires v != ""
    ensures var (x, y) := (Doubled('\'', v) + ("'" + t), Doubled('\'', v[1..]) + ("'" + t));
            && x[0] == v[0] && y != "" && y[0] == (if |v| > 1 then v[1] else '\'')
            && (v[0] != '\'' ==> x[1..] == y)
            && (v[0] == '\'' ==> x[1] == '\'' && x[1..][1..] == y)
  {
    hide Doubled;
    var (head, d, end) := (if v[0] == '\'' then "''" else [v[0]], Doubled('\'', v[1..]), "'" + t);
    DoubledStart(v);
    ConcatAssoc(head, d, end);
    assert (head + (d + end))[|head|..] == d + end;
    assert v[0] == '\'' ==> (head + (d + end))[1..][1..] == d + end;
    FirstOfValue(v[1..], end);
  }

  lemma FirstOfValue(v: string, end: string)
    requires end != ""
    ensures (Doubled('\'', v) + end)[0] == if v == "" then end[0] else v[0]
  {
  }

  lemma DoubledStart(v: string)
    requires v != ""
    ensures Doubled('\'', v) == (if v[0] == '\'' then "''" else [v[0]]) + Doubled('\'', v[1..])
  {
  }

  /** The passes behind the printer, which read by MySQL rules, are misled by what is printed exactly if some literal
      has a value with an unpaired backslash before a quote or at its end. */
  lemma {:induction false} MisledExactly(s: string)
    requires OnlySingleQuoted(s)
    ensures ShieldedQuote(Code, Printed(s)) <==> !Printable(s)
    decreases |s|
  {
    hide MySqlBody, Body, Doubled, Unshielded, FragmentLength;
    if s == "" {
    } else if s[0] == '\'' {
      var v := MySqlBody('\'', s[1..]).value;
      var rest := Printed(s[FragmentLength(s)..]);
      MisledExactly(s[FragmentLength(s)..]);
      EncodeTail(v, rest);
      ShieldedInValue(v, rest);
      OpensLiteral(Encode(v) + rest);
    } else {
      MisledExactly(s[1..]);
      PlainShields(s[0], Printed(s[1..]));
    }
  }

  lemma OpensLiteral(x: string)
    requires x != "" && x[0] == '\''
    ensures ShieldedQuote(Code, x) == ShieldedQuote(Quoted('\''), x[1..])
  {
  }

  lemma PlainShields(c: char, x: string)
    requires !IsQuote(c)
    ensures ShieldedQuote(Code, [c] + x) == ShieldedQuote(Code, x)
  {
    assert ([c] + x)[1..] == x;
  }

  // ---------------------------------------------------------------------------------------------------------------
  // All passes

  /** The pre-pass; the parser and the printer; the replacement of backticks, the boolean pass and the function
      rewrites. */
  function AllPasses(s: string): string {
    RewriteFunctions(Booleans.Cased(Code, CreateTable.ReplaceBackticks(Printed(Requoted(s)))))
  }

  /** The passes together keep the number of placeholders of a comment-free text with closed quotes and no backslash in
      backticks, if its double-quoted values survive a second reading, no name in backticks holds a double quote, and
      no single-quoted value has an unpaired backslash before a quote or at its end. */
  lemma PassesKeepCount(s: string)
    requires Clean(s) && Passable(s) && Printable(s)
    ensures Clean(AllPasses(s)) && CountPlaceholders(AllPasses(s)) == CountPlaceholders(s)
  {
    hide Safe, Marks, Requoted, Printed, SingleQuoted, CreateTable.ReplaceBackticks, Booleans.Cased, RewriteFunctions,
         Passable, Printable, CountFrom, ToUpper;
    var m := IsQuestion;
    assert NeutralClass(m);
    PrePassKeeps(m, Code, s);
    PrePassStaysPrintable(Code, s);
    PrintingKeeps(m, Code, Requoted(s));
    var a := Printed(Requoted(s));
    BackticksKeep(m, Code, a);
    var b := CreateTable.ReplaceBackticks(a);
    var c := Booleans.Cased(Code, b);
    Booleans.OnlyCaseChanges(Code, b);
    SameUpper(c, b);
    CaseKeeps(m, Code, c, b);
    CountIsMarks(Code, s);
    CountIsMarks(Code, c);
    assert Clean(c);
    PlaceholderCountIsConserved(c);
  }

  lemma SameUpper(a: string, b: string)
    requires |a| == |b| && ToUpper(a) == ToUpper(b)
    ensures forall k :: 0 <= k < |a| ==> Upper(a[k]) == Upper(b[k])
  {
    hide ToUpper;
    forall k | 0 <= k < |a| ensures Upper(a[k]) == Upper(b[k]) {
      assert ToUpper(a)[k] == ToUpper(b)[k];
    }
  }

  const EscapedSlashThenMark := "'\\\\', ?"

  lemma EscapedSlashCut()
    ensures var s := EscapedSlashThenMark;
            && s[1..] == "\\\\', ?" && s[1..][1..] == "\\', ?" && s[1..][2..] == "', ?" && s[4..] == ", ?"
            && s[1..][1..][1..] == "', ?" && "', ?"[1..] == ", ?" && ", ?"[1..] == " ?" && " ?"[1..] == "?"
            && "?"[1..] == ""
  {
  }

  lemma EscapedSlashBody()
    ensures MySqlBody('\'', EscapedSlashThenMark[1..]) == Quotation("\\", 3)
    ensures FragmentLength(EscapedSlashThenMark) == 4
  {
    EscapedSlashCut();
    assert Escapable('\\') by { assert '\\' == "0bnrtZ'\"\\"[8]; }
    assert MySqlBody('\'', "', ?") == Quotation("", 1);
    assert Unescape('\\') == "\\";
    SameExtent('\'', EscapedSlashThenMark[1..]);
  }

  /** One character more in front. */
  lemma ReadsOne(st: State, c: char, s: string)
    requires !Next(st, c).InComment() && c != '?' && st != Quoted('`') && Safe(Next(st, c), s)
    ensures Safe(st, [c] + s) && Reach(st, [c] + s) == Reach(Next(st, c), s)
    ensures CountFrom(st, [c] + s) == CountFrom(Next(st, c), s)
  {
    assert ([c] + s)[1..] == s;
  }

  lemma MarkReads()
    ensures Safe(Code, "?") && Reach(Code, "?") == Code && CountFrom(Code, "?") == 1
  {
    assert "?"[1..] == "";
  }

  lemma EscapedSlashReads()
    ensures var s := EscapedSlashThenMark; Clean(s) && CountPlaceholders(s) == 1
  {
    hide Safe, After, CountFrom;
    var (q, e) := (Quoted('\''), Escaped('\''));
    MarkReads();
    ReadsOne(Code, ' ', "?");
    ReadsOne(Code, ',', " ?");
    ReadsOne(q, '\'', ", ?");
    ReadsOne(e, '\\', "', ?");
    ReadsOne(q, '\\', "\\', ?");
    ReadsOne(Code, '\'', "\\\\', ?");
    assert [' '] + "?" == " ?" && [','] + " ?" == ", ?" && ['\''] + ", ?" == "', ?";
    assert ['\\'] + "', ?" == "\\', ?" && ['\\'] + "\\', ?" == "\\\\', ?";
    assert ['\''] + "\\\\', ?" == EscapedSlashThenMark;
  }

  lemma PlainStays(s: string)
    requires forall k :: 0 <= k < |s| ==> !IsQuote(s[k])
    ensures Requoted(s) == s && Printed(s) == s && Passable(s)
    decreases s
  {
    if s != "" {
      assert !IsQuote(s[0]);
      PlainStays(s[1..]);
      assert [s[0]] + s[1..] == s;
    }
  }

  lemma EscapedSlashIsPrinted()
    ensures var s := EscapedSlashThenMark; Passable(s) && Printed(Requoted(s)) == SlashThenMark
  {
    hide MySqlBody, Body, FragmentLength;
    var s := EscapedSlashThenMark;
    EscapedSlashCut();
    EscapedSlashBody();
    PlainStays(", ?");
    SplitAt(s, 4);
    assert Requoted(s) == s[..4] + ", ?" == s;
    assert Encode("\\") == "'\\'" by {
      assert "\\"[1..] == "";
    }
    assert Printed(s) == "'\\'" + ", ?" == SlashThenMark;
  }

  /** The literal that holds just an escaped backslash, and a placeholder: behind the printer the placeholder is not
      counted. */
  lemma PrintingHidesPlaceholder()
    ensures var s := EscapedSlashThenMark;
            && Clean(s) && Passable(s) && CountPlaceholders(s) == 1
            && Printed(Requoted(s)) == SlashThenMark && CountPlaceholders(SlashThenMark) == 0
  {
    hide Clean, Passable, Printed, Requoted, CountFrom, Substituted, IsPrinted;
    PlaceholderIsMissed();
    NumberingIsComplete(SlashThenMark);
    EscapedSlashReads();
    EscapedSlashIsPrinted();
  }
}
