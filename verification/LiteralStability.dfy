/** When a second run of a literal normaliser changes nothing, and why the pre-pass is absorbed by the full one. */
module LiteralStability {
  import opened Text
  import opened Dialects
  import opened Fragments
  import opened Literals
  import opened LiteralMeaning

  // ---------------------------------------------------------------------------------------------------------------
  // Values that survive a second reading

  /** Every backslash stands before an ordinary character, so that reading it again keeps both. */
  predicate Tame(v: string) {
    if v == "" then true
    else if v[0] == '\\' then |v| > 1 && !Escapable(v[1]) && Tame(v[2..])
    else Tame(v[1..])
  }

  predicate AllTame(ts: seq<Token>) {
    forall k :: 0 <= k < |ts| && ts[k].Literal? ==> Tame(ts[k].value)
  }

  lemma {:induction false} NoBackslashIsTame(v: string)
    requires NoBackslash(v)
    ensures Tame(v)
  {
    if v != "" {
      assert v[0] in v;
      NoBackslashIsTame(v[1..]);
    }
  }

  /** How many characters of a value are read in one step. */
  function Piece(v: string): (n: nat)
    requires v != ""
    ensures 0 < n <= |v|
  {
    if v[0] == '\\' && |v| > 1 then 2 else 1
  }

  /** A piece that survives a second reading: one character, or a backslash with an ordinary one. */
  lemma KeptPiece(v: string, rest: string)
    requires v != "" && (v[0] == '\\' ==> |v| > 1 && !Escapable(v[1]))
    ensures MySqlBody('\'', Doubled('\'', v[..Piece(v)]) + rest) ==
            MySqlBody('\'', rest).Prepend(v[..Piece(v)], |Doubled('\'', v[..Piece(v)])|)
  {
    var n := Piece(v);
    assert '\'' == "0bnrtZ'\"\\"[6];
    DoubledPiece(v, n);
    var head := Doubled('\'', v[..n]);
    assert (head + rest)[|head|..] == rest;
    assert n == 2 ==> Unescape(v[1]) == v[..2];
  }

  lemma MySqlClosingQuote(t: string)
    ensures MySqlBody('\'', "'" + t) ==
            if StartsWith(t, '\'') then MySqlBody('\'', t[1..]).Prepend("'", 2) else Quotation("", 1)
  {
    var s := "'" + t;
    assert |s| > 1 ==> s[1] == t[0] && s[2..] == t[1..];
  }

  lemma {:induction false} MySqlBodyOfTame(v: string, t: string)
    requires Tame(v)
    ensures MySqlBody('\'', Doubled('\'', v) + ("'" + t)) ==
            if StartsWith(t, '\'') then MySqlBody('\'', t[1..]).Prepend(v + "'", |Doubled('\'', v)| + 2)
            else Quotation(v, |Doubled('\'', v)| + 1)
    decreases v
  {
    hide MySqlBody;
    if v == "" {
      MySqlClosingQuote(t);
      assert Doubled('\'', v) + ("'" + t) == "'" + t && v + "'" == "'";
    } else {
      var n := Piece(v);
      MySqlBodyOfTame(v[n..], t);
      DoubledSplit(v, n);
      ConcatAssoc(Doubled('\'', v[..n]), Doubled('\'', v[n..]), "'" + t);
      KeptPiece(v, Doubled('\'', v[n..]) + ("'" + t));
      SplitAt(v, n);
      if StartsWith(t, '\'') {
        ConcatAssoc(v[..n], v[n..], "'");
        PrependTwice(MySqlBody('\'', t[1..]), v[..n], |Doubled('\'', v[..n])|,
                     v[n..] + "'", |Doubled('\'', v[n..])| + 2);
      }
    }
  }

  lemma {:induction false} DoubledSplit(v: string, n: nat)
    requires n <= |v|
    ensures Doubled('\'', v) == Doubled('\'', v[..n]) + Doubled('\'', v[n..])
    decreases n
  {
    if n == 0 {
      assert v[..0] == "" && v[0..] == v;
    } else {
      DoubledSplit(v[1..], n - 1);
      assert v[..n][1..] == v[1..][..n - 1];
      ConcatAssoc(if v[0] == '\'' then "''" else [v[0]], Doubled('\'', v[1..][..n - 1]), Doubled('\'', v[n..]));
    }
  }

  lemma DoubledPiece(v: string, n: nat)
    requires 0 < n <= 2 && n <= |v| && (n == 2 ==> v[0] != '\'' && v[1] != '\'')
    ensures Doubled('\'', v[..n]) == if v[0] == '\'' then "''" else v[..n]
  {
    assert v[..1][1..] == "";
    if n == 2 {
      assert v[..2][1..] == [v[1]] && [v[1]][1..] == "";
      assert Doubled('\'', [v[1]]) == [v[1]];
    }
  }

  lemma TokensOfLiteral(s: string, v: string, n: nat)
    requires StartsWith(s, '\'') && MySqlBody('\'', s[1..]) == Quotation(v, n) && 1 + n <= |s|
    ensures MySqlTokens(s) == [Literal(v)] + MySqlTokens(s[1 + n..])
  {
  }

  lemma TameLiteralRunsOn(v: string, t: string)
    requires Tame(v) && StartsWith(t, '\'')
    ensures MySqlTokens(Encode(v) + t) == Glue(v, MySqlTokens(t))
  {
    hide MySqlBody, Doubled, MySqlTokens;
    var s := Encode(v) + t;
    var tail := MySqlBody('\'', t[1..]);
    var ts := MySqlTokens(t[1 + tail.length..]);
    assert MySqlTokens(s) == [Literal(v + "'" + tail.value)] + ts by {
      EncodeTail(v, t);
      MySqlBodyOfTame(v, t);
      TokensOfLiteral(s, v + "'" + tail.value, |Doubled('\'', v)| + 2 + tail.length);
      assert s[1 + |Doubled('\'', v)| + 2 + tail.length..] == t[1 + tail.length..];
    }
    TokensOfLiteral(t, tail.value, tail.length);
    assert MySqlTokens(t)[1..] == ts;
  }

  lemma TameLiteralTokens(v: string, t: string)
    requires Tame(v)
    ensures MySqlTokens(Encode(v) + t) ==
            if StartsWith(t, '"') then [Literal(v)] + MySqlTokens(t) else Glue(v, MySqlTokens(t))
  {
    if StartsWith(t, '\'') {
      TameLiteralRunsOn(v, t);
    } else {
      var s := Encode(v) + t;
      EncodeTail(v, t);
      MySqlBodyOfTame(v, t);
      TokensOfLiteral(s, v, |Doubled('\'', v)| + 1);
      assert s[1 + |Doubled('\'', v)| + 1..] == t;
      assert t != "" && t[0] != '"' ==> MySqlTokens(t)[0] == Plain(t[0]);
    }
  }

  /** A tame literal in front of a text is kept as it is, whatever follows. */
  lemma TameLiteralIsKept(v: string, t: string)
    requires Tame(v)
    ensures Normalized(Encode(v) + t) == Encode(v) + Normalized(t)
  {
    TameLiteralTokens(v, t);
    PrintGlue(v, MySqlTokens(t));
    PrintCons(Literal(v), MySqlTokens(t));
  }

  // ---------------------------------------------------------------------------------------------------------------
  // Adjacent encoded literals are one encoding

  lemma DoubledQuoteThen(w: string)
    ensures Doubled('\'', "'" + w) == "''" + Doubled('\'', w)
  {
    assert ("'" + w)[1..] == w;
  }

  lemma EncodingsJoin(v: string, w: string)
    ensures Encode(v) + Encode(w) == Encode(v + "'" + w)
  {
    hide Doubled;
    var all := v + "'" + w;
    DoubledSplit(all, |v|);
    assert all[..|v|] == v && all[|v|..] == "'" + w;
    DoubledQuoteThen(w);
    var d, e := Doubled('\'', v), Doubled('\'', w);
    assert "'" + d + "'" + ("'" + e + "'") == "'" + (d + ("''" + e)) + "'";
  }

  /** Writing a literal in front of others gives the same text whether or not they are joined first. */
  lemma PrintGlue(v: string, ts: seq<Token>)
    ensures Print(Glue(v, ts)) == Encode(v) + Print(ts)
  {
    if ts != [] && ts[0].Literal? {
      var w := ts[0].value;
      PrintCons(Literal(v + "'" + w), ts[1..]);
      EncodingsJoin(v, w);
      ConcatAssoc(Encode(v), Encode(w), Print(ts[1..]));
    } else {
      PrintCons(Literal(v), ts);
    }
  }

  lemma {:induction false} PrintMerge(ts: seq<Token>)
    ensures Print(Merge(ts)) == Print(ts)
  {
    if ts != [] {
      PrintMerge(ts[1..]);
      if ts[0].Literal? {
        PrintGlue(ts[0].value, Merge(ts[1..]));
      } else {
        PrintCons(ts[0], Merge(ts[1..]));
      }
    }
  }

  // ---------------------------------------------------------------------------------------------------------------
  // A second run: backslashes are only ever lost

  function Backslashes(s: string): nat {
    if s == "" then 0 else (if s[0] == '\\' then 1 else 0) + Backslashes(s[1..])
  }

  lemma {:induction false} BackslashesConcat(a: string, b: string)
    ensures Backslashes(a + b) == Backslashes(a) + Backslashes(b)
    decreases a
  {
    if a == "" {
      assert a + b == b;
    } else {
      assert (a + b)[1..] == a[1..] + b;
      BackslashesConcat(a[1..], b);
    }
  }

  lemma {:induction false} BackslashesEncoded(v: string)
    ensures Backslashes(Encode(v)) == Backslashes(v)
    ensures Backslashes(Doubled('\'', v)) == Backslashes(v)
    decreases v
  {
    var d := Doubled('\'', v);
    if v != "" {
      BackslashesEncoded(v[1..]);
      var head := if v[0] == '\'' then "''" else [v[0]];
      BackslashesConcat(head, Doubled('\'', v[1..]));
      assert head[1..] == if v[0] == '\'' then "'" else "";
    }
    BackslashesConcat("'" + d, "'");
    BackslashesConcat("'", d);
  }

  lemma UnescapeBackslashes(c: char)
    ensures Backslashes(Unescape(c)) <= 1 + (if c == '\\' then 1 else 0)
    ensures Escapable(c) ==> Backslashes(Unescape(c)) <= if c == '\\' then 1 else 0
  {
    var u := Unescape(c);
    assert '\\' == "0bnrtZ'\"\\"[8];
    if Escapable(c) {
      assert |u| == 1 && u[1..] == "";
    } else {
      BackslashesTwo(u);
      assert u[2..] == "";
    }
  }

  lemma {:induction false} BodyLosesBackslashes(q: char, s: string)
    ensures Backslashes(MySqlBody(q, s).value) + Backslashes(s[MySqlBody(q, s).length..]) <= Backslashes(s)
    decreases s
  {
    if s != "" {
      var n := if (s[0] == '\\' && |s| > 1) || (s[0] == q && |s| > 1 && s[1] == q) then 2 else 1;
      BodyLosesBackslashes(q, s[n..]);
      BackslashesTwo(s);
      var rest := MySqlBody(q, s[n..]);
      if s[0] == '\\' && |s| > 1 {
        UnescapeBackslashes(s[1]);
        BackslashesConcat(Unescape(s[1]), rest.value);
      } else {
        BackslashesConcat([s[0]], rest.value);
      }
      assert rest.length <= |s| - n && s[n..][rest.length..] == s[n + rest.length..];
    }
  }

  lemma BackslashesTwo(s: string)
    requires s != ""
    ensures |s| > 1 ==> Backslashes(s) == (if s[0] == '\\' then 1 else 0) + (if s[1] == '\\' then 1 else 0)
                                          + Backslashes(s[2..])
  {
    assert |s| > 1 ==> s[1..][1..] == s[2..];
  }

  /** Normalising never adds a backslash. */
  lemma {:induction false} NormalizingLosesBackslashes(s: string)
    ensures Backslashes(Normalized(s)) <= Backslashes(s)
    decreases s
  {
    if s != "" {
      NormalizedStep(s);
      if s[0] == '\'' || s[0] == '"' {
        var body := MySqlBody(s[0], s[1..]);
        var rest := s[1 + body.length..];
        NormalizingLosesBackslashes(rest);
        BodyLosesBackslashes(s[0], s[1..]);
        assert s[1..][body.length..] == rest;
        BackslashesEncoded(body.value);
        BackslashesConcat(Encode(body.value), Normalized(rest));
      } else {
        NormalizingLosesBackslashes(s[1..]);
        BackslashesConcat([s[0]], Normalized(s[1..]));
      }
    }
  }

  /** Reading back an untame value executes an escape and so loses a backslash. */
  lemma {:induction false} UntameBodyLoses(v: string, t: string)
    requires !Tame(v)
    ensures var s := Doubled('\'', v) + ("'" + t); var body := MySqlBody('\'', s);
            Backslashes(body.value) + Backslashes(s[body.length..]) < Backslashes(s)
    decreases v
  {
    var s := Doubled('\'', v) + ("'" + t);
    if v[0] == '\\' && (|v| == 1 || Escapable(v[1])) {
      UntameHead(v, t);
      var rest := MySqlBody('\'', s[2..]);
      BodyLosesBackslashes('\'', s[2..]);
      UnescapeBackslashes(s[1]);
      BackslashesConcat(Unescape(s[1]), rest.value);
      BackslashesTwo(s);
      assert s[2..][rest.length..] == s[2 + rest.length..];
    } else {
      var n := Piece(v);
      var head, tail := Doubled('\'', v[..n]), Doubled('\'', v[n..]) + ("'" + t);
      DoubledPiece(v, n);
      DoubledSplit(v, n);
      ConcatAssoc(head, Doubled('\'', v[n..]), "'" + t);
      UntameBodyLoses(v[n..], t);
      KeptPiece(v, tail);
      var rest := MySqlBody('\'', tail);
      BackslashesConcat(head, tail);
      BackslashesConcat(v[..n], rest.value);
      BackslashesEncoded(v[..n]);
      assert s[|head| + rest.length..] == tail[rest.length..];
    }
  }

  lemma UntameHead(v: string, t: string)
    requires v != "" && v[0] == '\\' && (|v| == 1 || Escapable(v[1]))
    ensures var s := Doubled('\'', v) + ("'" + t); |s| > 1 && s[0] == '\\' && Escapable(s[1])
  {
    assert Doubled('\'', v) == "\\" + Doubled('\'', v[1..]);
    assert '\'' == "0bnrtZ'\"\\"[6];
  }

  /** The printed form of tokens with an untame literal changes when it is normalised again. */
  lemma {:induction false} UntameTokensLose(ts: seq<Token>)
    requires Proper(ts) && !AllTame(ts)
    ensures Backslashes(Normalized(Print(ts))) < Backslashes(Print(ts))
  {
    var rest := Print(ts[1..]);
    if ts[0].Plain? {
      NormalizedStep([ts[0].c] + rest);
      assert ([ts[0].c] + rest)[1..] == rest;
      UntameTokensLose(ts[1..]);
      BackslashesConcat([ts[0].c], rest);
      BackslashesConcat([ts[0].c], Normalized(rest));
    } else if Tame(ts[0].value) {
      TameLiteralIsKept(ts[0].value, rest);
      UntameTokensLose(ts[1..]);
      BackslashesConcat(Encode(ts[0].value), rest);
      BackslashesConcat(Encode(ts[0].value), Normalized(rest));
    } else {
      UntameLiteralLoses(ts[0].value, rest);
    }
  }

  lemma UntameLiteralLoses(v: string, t: string)
    requires !Tame(v)
    ensures Backslashes(Normalized(Encode(v) + t)) < Backslashes(Encode(v) + t)
  {
    var s := Encode(v) + t;
    EncodeTail(v, t);
    UntameBodyLoses(v, t);
    NormalizedStep(s);
    var body := MySqlBody('\'', s[1..]);
    var rest := s[1 + body.length..];
    assert s[1..][body.length..] == rest;
    NormalizingLosesBackslashes(rest);
    BackslashesEncoded(body.value);
    BackslashesConcat(Encode(body.value), Normalized(rest));
  }

  lemma {:induction false} TameTokensAreKept(ts: seq<Token>)
    requires Proper(ts) && AllTame(ts)
    ensures Normalized(Print(ts)) == Print(ts)
  {
    if ts != [] {
      var rest := Print(ts[1..]);
      TameTokensAreKept(ts[1..]);
      if ts[0].Plain? {
        assert ([ts[0].c] + rest)[1..] == rest;
        NormalizedStep([ts[0].c] + rest);
      } else {
        TameLiteralIsKept(ts[0].value, rest);
      }
    }
  }

  /** Normalising twice is normalising once exactly when every backslash in a literal value stands before an
      ordinary character. */
  lemma {:induction false} NormalizingIsIdempotent(s: string)
    ensures Normalized(Normalized(s)) == Normalized(s) <==> AllTame(MySqlTokens(s))
  {
    TokensAreProper(s);
    if AllTame(MySqlTokens(s)) {
      TameTokensAreKept(MySqlTokens(s));
    } else {
      UntameTokensLose(MySqlTokens(s));
    }
  }

  lemma BackslashAndN()
    ensures MySqlBody('\'', "\\\\n'") == Quotation("\\n", 4)
  {
    assert "\\\\n'"[2..] == "n'" && "n'"[1..] == "'";
  }

  /** The failing input: a value that holds a backslash and an n is read as a line break the second time. */
  lemma EscapedBackslashChanges()
    ensures Normalized(Normalized("'\\\\n'")) != Normalized("'\\\\n'")
  {
    hide MySqlBody, Normalized;
    var s := "'\\\\n'";
    assert s[1..] == "\\\\n'";
    BackslashAndN();
    assert MySqlTokens(s)[0] == Literal("\\n");
    assert !Tame("\\n");
    NormalizingIsIdempotent(s);
  }

  lemma {:induction false} NoBackslashBody(q: char, s: string)
    requires NoBackslash(s) && q != '\\'
    ensures NoBackslash(MySqlBody(q, s).value)
    ensures MySqlBody(q, s).length == Body(q, s).length
    decreases s
  {
    if s != "" {
      assert s[0] in s;
      NoBackslashBody(q, s[1..]);
      if |s| > 1 {
        NoBackslashBody(q, s[2..]);
      }
    }
  }

  lemma {:induction false} NoBackslashTokens(s: string)
    requires NoBackslash(s)
    ensures AllTame(MySqlTokens(s))
    decreases s
  {
    if s != "" {
      if s[0] == '\'' || s[0] == '"' {
        var body := MySqlBody(s[0], s[1..]);
        NoBackslashBody(s[0], s[1..]);
        NoBackslashIsTame(body.value);
        NoBackslashTokens(s[1 + body.length..]);
      } else {
        NoBackslashTokens(s[1..]);
      }
    }
  }

  /** In particular on text without backslashes. */
  lemma NormalizingIsIdempotentWithoutBackslash(s: string)
    requires NoBackslash(s)
    ensures Normalized(Normalized(s)) == Normalized(s)
  {
    NoBackslashTokens(s);
    NormalizingIsIdempotent(s);
  }

  // ---------------------------------------------------------------------------------------------------------------
  // The pre-pass

  /** On text without backslashes a closed single-quoted fragment already is the encoding of its value. */
  lemma {:induction false} ClosedFragmentIsEncoded(s: string)
    requires NoBackslash(s) && Body('\'', s).closed
    ensures s[..Body('\'', s).length] == Doubled('\'', MySqlBody('\'', s).value) + "'"
    decreases s
  {
    assert s[0] in s;
    var e, m := Body('\'', s), MySqlBody('\'', s);
    if s[0] == '\'' && !(|s| > 1 && s[1] == '\'') {
      assert s[..1] == "'";
    } else {
      var n := if s[0] == '\'' then 2 else 1;
      ClosedFragmentIsEncoded(s[n..]);
      NoBackslashBody('\'', s[n..]);
      var v := MySqlBody('\'', s[n..]).value;
      assert s[..e.length] == s[..n] + s[n..][..e.length - n];
      assert m.value == [s[0]] + v && m.value[1..] == v;
      ConcatAssoc(s[..n], Doubled('\'', v), "'");
      assert s[..n] == if s[0] == '\'' then "''" else [s[0]];
    }
  }

  /** The pre-pass never leaves a double quote in front. */
  lemma RequotedHead(s: string)
    ensures !StartsWith(Requoted(s), '"')
  {
  }

  /** How the pre-pass treats a literal: it becomes the encoding of its value, except that an unclosed one in
      single quotes is copied. */
  lemma LiteralThroughPrePass(s: string)
    requires NoBackslash(s) && s != "" && (s[0] == '\'' || s[0] == '"')
    ensures var body := MySqlBody(s[0], s[1..]); var rest := s[1 + body.length..];
            || Requoted(s) == Encode(body.value) + Requoted(rest)
            || (Requoted(s) == s && rest == "" && s[0] == '\'')
  {
    hide MySqlBody, Body, Doubled;
    var body := MySqlBody(s[0], s[1..]);
    NoBackslashBody(s[0], s[1..]);
    if s[0] == '\'' && !Body('\'', s[1..]).closed {
      assert s[..|s|] == s && s[1 + body.length..] == "";
    } else if s[0] == '\'' {
      ClosedFragmentIsEncoded(s[1..]);
      assert s[..1 + body.length] == "'" + s[1..][..body.length];
      ConcatAssoc("'", Doubled('\'', body.value), "'");
    }
  }

  lemma PlainThroughPrePass(s: string)
    requires s != "" && !IsQuote(s[0])
    ensures Requoted(s) == [s[0]] + Requoted(s[1..])
    ensures MySqlTokens(Requoted(s)) == [Plain(s[0])] + MySqlTokens(Requoted(s[1..]))
    ensures Merge(MySqlTokens(s)) == [Plain(s[0])] + Merge(MySqlTokens(s[1..]))
  {
    assert Requoted(s)[1..] == Requoted(s[1..]);
    assert MySqlTokens(s)[1..] == MySqlTokens(s[1..]);
  }

  lemma MergeOfLiteral(s: string)
    requires s != "" && (s[0] == '\'' || s[0] == '"')
    ensures var body := MySqlBody(s[0], s[1..]);
            Merge(MySqlTokens(s)) == Glue(body.value, Merge(MySqlTokens(s[1 + body.length..])))
  {
    hide MySqlBody;
    var body := MySqlBody(s[0], s[1..]);
    assert MySqlTokens(s)[1..] == MySqlTokens(s[1 + body.length..]);
  }

  /** What the normaliser reads after the pre-pass is what it reads before, with touching literals joined. */
  lemma {:induction false} TokensAfterPrePass(s: string)
    requires NoBackslash(s) && '`' !in s
    ensures MySqlTokens(Requoted(s)) == Merge(MySqlTokens(s))
    decreases s
  {
    hide MySqlBody, Encode, Tame, Requoted;
    if s != "" {
      assert s[0] in s;
      if s[0] == '\'' || s[0] == '"' {
        hide MySqlTokens, Merge;
        var body := MySqlBody(s[0], s[1..]);
        var rest := s[1 + body.length..];
        LiteralThroughPrePass(s);
        MergeOfLiteral(s);
        TokensAfterPrePass(rest);
        if Requoted(s) == Encode(body.value) + Requoted(rest) {
          NoBackslashBody(s[0], s[1..]);
          NoBackslashIsTame(body.value);
          RequotedHead(rest);
          TameLiteralTokens(body.value, Requoted(rest));
        } else {
          UnclosedLast(s, body.value);
        }
      } else {
        PlainThroughPrePass(s);
        TokensAfterPrePass(s[1..]);
      }
    } else {
      assert Requoted(s) == "" by { NormalizedNothing(); }
    }
  }

  lemma UnclosedLast(s: string, v: string)
    requires s != "" && s[0] == '\'' && s[1 + MySqlBody(s[0], s[1..]).length..] == ""
    requires v == MySqlBody(s[0], s[1..]).value
    ensures MySqlTokens(s) == [Literal(v)] && Merge(MySqlTokens(s)) == MySqlTokens(s)
  {
    hide MySqlBody;
  }

  /** The full normaliser absorbs the pre-pass on text without backslashes and backticks. */
  lemma PrePassIsAbsorbed(s: string)
    requires NoBackslash(s) && '`' !in s
    ensures Normalized(Requoted(s)) == Normalized(s)
  {
    TokensAfterPrePass(s);
    PrintMerge(MySqlTokens(s));
  }

  /** How the pre-pass treats a text that starts with a copied fragment. */
  lemma RequotedFragment(s: string, n: nat)
    requires s != "" && (s[0] == '\'' || s[0] == '`') && n == FragmentLength(s)
    ensures Requoted(s) == s[..n] + Requoted(s[n..])
  {
  }

  lemma KeptTail(t: string)
    requires t != "" && (t[0] == '\'' || t[0] == '`') && Requoted(t) == t
    ensures Requoted(t[FragmentLength(t)..]) == t[FragmentLength(t)..]
  {
    var m := FragmentLength(t);
    RequotedFragment(t, m);
    assert (t[..m] + Requoted(t[m..]))[m..] == Requoted(t[m..]);
  }

  lemma {:induction false} ClosedFragmentRunsOn(f: string, t: string)
    requires f != "" && (f[0] == '\'' || f[0] == '`')
    requires Body(f[0], f[1..]) == Extent(|f| - 1, true)
    requires StartsWith(t, f[0]) && Requoted(t[FragmentLength(t)..]) == t[FragmentLength(t)..]
    ensures Requoted(f + t) == f + t
  {
    var n := |f| + FragmentLength(t);
    assert FragmentLength(f + t) == n by {
      assert (f + t)[1..] == f[1..] + t;
      BodyRunsOn(f[0], f[1..], t);
    }
    RequotedFragment(f + t, n);
    assert (f + t)[n..] == t[FragmentLength(t)..];
    SplitAt(f + t, n);
  }

  /** A closed fragment in front of a text that the pre-pass keeps is kept too. */
  lemma {:induction false} ClosedFragmentIsKept(f: string, t: string)
    requires f != "" && (f[0] == '\'' || f[0] == '`')
    requires Body(f[0], f[1..]) == Extent(|f| - 1, true)
    requires Requoted(t) == t
    ensures Requoted(f + t) == f + t
  {
    hide Requoted, Body;
    if StartsWith(t, f[0]) {
      KeptTail(t);
      ClosedFragmentRunsOn(f, t);
    } else {
      assert FragmentLength(f + t) == |f| by {
        assert (f + t)[1..] == f[1..] + t;
        BodyOfClosed(f[0], f[1..], t);
      }
      RequotedFragment(f + t, |f|);
      assert (f + t)[|f|..] == t;
    }
  }

  lemma {:induction false} EncodedIsClosed(v: string)
    requires NoBackslash(v)
    ensures Body('\'', Doubled('\'', v) + "'") == Extent(|Doubled('\'', v)| + 1, true)
    decreases v
  {
    if v != "" {
      assert v[0] in v;
      EncodedIsClosed(v[1..]);
      var head, rest := if v[0] == '\'' then "''" else [v[0]], Doubled('\'', v[1..]) + "'";
      ConcatAssoc(head, Doubled('\'', v[1..]), "'");
      assert (head + rest)[|head|..] == rest;
    }
  }

  /** The pre-pass is idempotent on text without backslashes. */
  lemma {:induction false} PrePassIsIdempotent(s: string)
    requires NoBackslash(s)
    ensures Requoted(Requoted(s)) == Requoted(s)
    decreases s
  {
    hide MySqlBody, Body, Doubled;
    if s != "" {
      assert s[0] in s;
      if s[0] == '\'' || s[0] == '`' {
        var n := FragmentLength(s);
        var f := s[..n];
        PrePassIsIdempotent(s[n..]);
        if FragmentClosed(s) {
          BodyOfPrefix(s[0], s[1..]);
          assert f[1..] == s[1..][..n - 1];
          ClosedFragmentIsKept(f, Requoted(s[n..]));
        } else {
          assert f == s && s[n..] == "";
          assert Requoted(s) == s;
        }
      } else if s[0] == '"' {
        var body := MySqlBody('"', s[1..]);
        NoBackslashBody('"', s[1..]);
        PrePassIsIdempotent(s[1 + body.length..]);
        EncodedIsClosed(body.value);
        var f := Encode(body.value);
        ConcatAssoc("'", Doubled('\'', body.value), "'");
        assert f[1..] == Doubled('\'', body.value) + "'";
        ClosedFragmentIsKept(f, Requoted(s[1 + body.length..]));
      } else {
        PrePassIsIdempotent(s[1..]);
        assert Requoted(s)[1..] == Requoted(s[1..]);
      }
    }
  }
}
