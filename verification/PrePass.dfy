/** Exactly when the pre-pass keeps what a MySQL reader sees, apart from joining literals that touch. */
module PrePass {
  import opened Text
  import opened Fragments
  import opened Literals
  import opened LiteralMeaning
  import opened LiteralStability

  /** The value of every double-quoted literal survives a second reading. */
  predicate DoubleQuotedAreTame(s: string)
    decreases s
  {
    if s == "" then true
    else if s[0] == '\'' || s[0] == '"' then
      var body := MySqlBody(s[0], s[1..]);
      (s[0] == '"' ==> Tame(body.value)) && DoubleQuotedAreTame(s[1 + body.length..])
    else DoubleQuotedAreTame(s[1..])
  }

  // ---------------------------------------------------------------------------------------------------------------
  // A copied literal in front of what follows

  /** Two characters that are read together: an escape or a doubled quote. */
  predicate IsPair(x: string) {
    |x| > 1 && (x[0] == '\\' || (x[0] == '\'' && x[1] == '\''))
  }

  function PairValue(x: string): string
    requires IsPair(x)
  {
    if x[0] == '\\' then Unescape(x[1]) else "'"
  }

  lemma PairRead(x: string)
    requires IsPair(x)
    ensures MySqlBody('\'', x) == MySqlBody('\'', x[2..]).Prepend(PairValue(x), 2)
    ensures Body('\'', x).closed <==> Body('\'', x[2..]).closed
  {
  }

  lemma SingleRead(x: string)
    requires x != "" && x[0] != '\\' && x[0] != '\''
    ensures MySqlBody('\'', x) == MySqlBody('\'', x[1..]).Prepend([x[0]], 1)
    ensures Body('\'', x).closed <==> Body('\'', x[1..]).closed
  {
  }

  lemma EndRead(x: string)
    requires Body('\'', x).closed
    ensures x != "" && (x[0] == '\\' ==> IsPair(x))
    ensures x[0] == '\'' && !IsPair(x) ==> MySqlBody('\'', x) == Quotation("", 1)
  {
  }

  lemma HeadSplits(s: string, t: string, n: nat, m: nat)
    requires n <= m <= |s|
    ensures (s[..m] + t)[n..] == s[n..][..m - n] + t
    ensures forall k :: 0 <= k < n ==> (s[..m] + t)[k] == s[k]
  {
  }

  /** A closed body runs on if its quote follows, and is read alone otherwise. */
  lemma {:induction false} ClosedBodyThen(s: string, t: string)
    requires Body('\'', s).closed
    ensures var (body, head) := (MySqlBody('\'', s), s[..MySqlBody('\'', s).length]);
            MySqlBody('\'', head + t) ==
            if StartsWith(t, '\'') then MySqlBody('\'', t[1..]).Prepend(body.value + "'", body.length + 1) else body
    decreases s
  {
    hide MySqlBody, Body, Unescape;
    EndRead(s);
    var (body, head) := (MySqlBody('\'', s), s[..MySqlBody('\'', s).length]);
    var x := head + t;
    if IsPair(s) {
      PairRead(s);
      ClosedBodyThen(s[2..], t);
      HeadSplits(s, t, 2, body.length);
      assert x[0] == s[0] && x[1] == s[1];
      PairRead(x);
      JoinsOn(s[2..], t, PairValue(s), 2);
    } else if s[0] == '\'' {
      assert head == "'";
      MySqlClosingQuote(t);
    } else {
      SingleRead(s);
      ClosedBodyThen(s[1..], t);
      HeadSplits(s, t, 1, body.length);
      assert x[0] == s[0];
      SingleRead(x);
      JoinsOn(s[1..], t, [s[0]], 1);
    }
  }

  lemma {:induction false} JoinsOn(s: string, t: string, piece: string, n: nat)
    ensures var body := MySqlBody('\'', s);
            StartsWith(t, '\'') ==>
              MySqlBody('\'', t[1..]).Prepend(body.value + "'", body.length + 1).Prepend(piece, n) ==
              MySqlBody('\'', t[1..]).Prepend((piece + body.value) + "'", body.length + n + 1)
  {
    hide MySqlBody;
    if StartsWith(t, '\'') {
      var (body, tail) := (MySqlBody('\'', s), MySqlBody('\'', t[1..]));
      ConcatAssoc(body.value, "'", tail.value);
      ConcatAssoc(piece, body.value, "'" + tail.value);
      ConcatAssoc(piece + body.value, "'", tail.value);
    }
  }

  /** A closed single-quoted literal, copied in front of a text that does not begin with a double quote. */
  lemma {:induction false} CopiedLiteralTokens(s: string, t: string)
    requires StartsWith(s, '\'') && Body('\'', s[1..]).closed && !StartsWith(t, '"')
    ensures var body := MySqlBody('\'', s[1..]);
            MySqlTokens(s[..1 + body.length] + t) == Glue(body.value, MySqlTokens(t))
  {
    hide Body, MySqlBody, MySqlTokens;
    var body := MySqlBody('\'', s[1..]);
    var x := s[..1 + body.length] + t;
    ClosedBodyThen(s[1..], t);
    assert x[1..] == s[1..][..body.length] + t;
    if StartsWith(t, '\'') {
      var tail := MySqlBody('\'', t[1..]);
      TokensOfLiteral(x, body.value + "'" + tail.value, body.length + 1 + tail.length);
      assert x[1 + body.length + 1 + tail.length..] == t[1 + tail.length..];
      TokensOfLiteral(t, tail.value, tail.length);
      assert MySqlTokens(t)[1..] == MySqlTokens(t[1 + tail.length..]);
    } else {
      TokensOfLiteral(x, body.value, body.length);
      assert x[1 + body.length..] == t;
      PlainHead(t);
    }
  }

  lemma PlainHead(t: string)
    requires !StartsWith(t, '\'') && !StartsWith(t, '"')
    ensures MySqlTokens(t) != [] ==> !MySqlTokens(t)[0].Literal?
  {
  }

  // ---------------------------------------------------------------------------------------------------------------
  // A value that does not survive

  /** Gluing keeps token sequences apart. */
  lemma GlueApart(v: string, a: seq<Token>, b: seq<Token>)
    ensures Glue(v, a) == Glue(v, b) <==> a == b
  {
    var (x, y) := (Glue(v, a), Glue(v, b));
    if x == y {
      assert |x[0].value| == |y[0].value|;
      if a != [] && a[0].Literal? && b != [] && b[0].Literal? {
        assert (v + "'" + a[0].value)[|v| + 1..] == a[0].value && (v + "'" + b[0].value)[|v| + 1..] == b[0].value;
        assert a == [Literal(a[0].value)] + a[1..] && b == [Literal(b[0].value)] + b[1..];
        assert x[1..] == a[1..] && y[1..] == b[1..];
      } else {
        assert !(a != [] && a[0].Literal?) ==> x[1..] == a;
        assert !(b != [] && b[0].Literal?) ==> y[1..] == b;
      }
    }
  }

  function Slashes(k: nat): (s: string)
    ensures |s| == k && forall i :: 0 <= i < k ==> s[i] == '\\'
  {
    if k == 0 then "" else "\\" + Slashes(k - 1)
  }

  lemma DoubledBackslashes(r: string)
    requires |r| > 1 && r[0] == '\\' && r[1] == '\\'
    ensures r == "\\\\" + r[2..] && Doubled('\'', r) == "\\\\" + Doubled('\'', r[2..])
  {
    assert r[1..][1..] == r[2..];
  }

  lemma BackslashesRead(rest: string)
    ensures MySqlBody('\'', "\\\\" + rest).value == "\\" + MySqlBody('\'', rest).value
  {
    hide MySqlBody;
    PairRead("\\\\" + rest);
    assert ("\\\\" + rest)[2..] == rest;
    assert Escapable('\\') by { assert '\\' == "0bnrtZ'\"\\"[8]; }
  }

  lemma DoubledEscape(r: string)
    requires r != "" && r[0] == '\\' && (|r| == 1 || r[1] != '\\')
    ensures var x := Doubled('\'', r) + "'"; x[0] == '\\' && x[1] == if |r| == 1 then '\'' else r[1]
  {
    assert Doubled('\'', r)[1..] == Doubled('\'', r[1..]);
  }

  /** Reading never yields more backslashes in front than there are. */
  lemma {:induction false} NoFurtherSlash(r: string, t: string, k: nat, g: string)
    requires k > 0
    ensures MySqlBody('\'', Doubled('\'', r) + ("'" + t)).value != Slashes(k) + (r + g)
    decreases r
  {
    hide MySqlBody, Slashes, Doubled;
    var x := Doubled('\'', r) + ("'" + t);
    var target := Slashes(k) + (r + g);
    assert target[0] == '\\';
    if r == "" {
      NothingDoubled();
      assert x == "'" + t;
      MySqlClosingQuote(t);
    } else if r[0] != '\\' {
      DoubledFirst(r);
      assert x[0] == r[0];
      FirstRead(x);
    } else if |r| == 1 || r[1] != '\\' {
      assert target[k] == '\\' && (k > 1 ==> target[1] == '\\');
      DoubledEscape(r);
      assert x == (Doubled('\'', r) + "'") + t;
      assert '\'' == "0bnrtZ'\"\\"[6];
      EscapeRead(x);
    } else {
      var rest := Doubled('\'', r[2..]) + ("'" + t);
      NoFurtherSlash(r[2..], t, k + 1, g);
      DoubledBackslashes(r);
      ConcatAssoc("\\\\", Doubled('\'', r[2..]), "'" + t);
      BackslashesRead(rest);
      SlashesMove(k, r[2..] + g);
      ConcatAssoc("\\\\", r[2..], g);
      SplitEqual("\\", "\\", MySqlBody('\'', rest).value, Slashes(k + 1) + (r[2..] + g));
    }
  }

  lemma NothingDoubled()
    ensures Doubled('\'', "") == ""
  {
  }

  lemma DoubledFirst(r: string)
    requires r != ""
    ensures Doubled('\'', r) != "" && Doubled('\'', r)[0] == r[0]
  {
  }

  lemma {:induction false} SlashesMove(k: nat, rest: string)
    ensures Slashes(k) + ("\\\\" + rest) == "\\" + (Slashes(k + 1) + rest)
  {
    if k == 0 {
      assert Slashes(0) == "" && Slashes(1) == "\\" + "";
    } else {
      SlashesMove(k - 1, rest);
      ConcatAssoc("\\", Slashes(k - 1), "\\\\" + rest);
      ConcatAssoc("\\", Slashes(k), rest);
    }
  }

  /** The first character read, where the text begins with no backslash. */
  lemma FirstRead(x: string)
    requires x != "" && x[0] != '\\'
    ensures MySqlBody('\'', x).value != "" ==> MySqlBody('\'', x).value[0] == x[0]
  {
  }

  /** What an escape reads as. */
  lemma EscapeRead(x: string)
    requires |x| > 1 && x[0] == '\\' && x[1] != '\\'
    ensures var value := MySqlBody('\'', x).value;
            && value != "" && (Escapable(x[1]) ==> value[0] != '\\')
            && (!Escapable(x[1]) ==> |value| > 1 && value[1] == x[1])
  {
    assert Unescape(x[1]) <= MySqlBody('\'', x).value;
  }

  /** An untame value is not read back, neither as it is nor joined with what follows. */
  lemma {:induction false} UntameIsNotReadBack(v: string, t: string, g: string)
    requires !Tame(v)
    ensures MySqlBody('\'', Doubled('\'', v) + ("'" + t)).value != v + g
    decreases v
  {
    hide MySqlBody, Slashes, Doubled;
    var x := Doubled('\'', v) + ("'" + t);
    if v[0] != '\\' || (|v| > 1 && !Escapable(v[1])) {
      var n := Piece(v);
      var rest := Doubled('\'', v[n..]) + ("'" + t);
      UntameIsNotReadBack(v[n..], t, g);
      DoubledSplit(v, n);
      ConcatAssoc(Doubled('\'', v[..n]), Doubled('\'', v[n..]), "'" + t);
      KeptPiece(v, rest);
      SplitAt(v, n);
      ConcatAssoc(v[..n], v[n..], g);
      SplitEqual(v[..n], v[..n], MySqlBody('\'', rest).value, v[n..] + g);
    } else if |v| == 1 || v[1] != '\\' {
      DoubledEscape(v);
      assert x == (Doubled('\'', v) + "'") + t;
      assert '\'' == "0bnrtZ'\"\\"[6];
      EscapeRead(x);
      assert (v + g)[0] == '\\';
    } else {
      var rest := Doubled('\'', v[2..]) + ("'" + t);
      NoFurtherSlash(v[2..], t, 1, g);
      DoubledBackslashes(v);
      ConcatAssoc("\\\\", Doubled('\'', v[2..]), "'" + t);
      BackslashesRead(rest);
      OneSlash();
      ConcatAssoc("\\\\", v[2..], g);
      assert v + g == "\\" + (Slashes(1) + (v[2..] + g));
      SplitEqual("\\", "\\", MySqlBody('\'', rest).value, Slashes(1) + (v[2..] + g));
    }
  }

  lemma OneSlash()
    ensures Slashes(1) == "\\"
  {
  }

  lemma {:induction false} UntameLiteralTokens(v: string, t: string, ts: seq<Token>)
    requires !Tame(v)
    ensures MySqlTokens(Encode(v) + t) != Glue(v, ts)
  {
    hide MySqlBody, Doubled, Tame;
    var s := Encode(v) + t;
    EncodeTail(v, t);
    var body := MySqlBody('\'', s[1..]);
    TokensOfLiteral(s, body.value, body.length);
    var g := if ts != [] && ts[0].Literal? then "'" + ts[0].value else "";
    UntameIsNotReadBack(v, t, g);
    assert v + "" == v;
    ConcatAssoc(v, "'", if ts != [] && ts[0].Literal? then ts[0].value else "");
    assert MySqlTokens(s)[0] == Literal(body.value) && Glue(v, ts)[0] == Literal(v + g);
  }

  // ---------------------------------------------------------------------------------------------------------------
  // Whole texts

  lemma RequotedLiteral(s: string)
    requires StartsWith(s, '\'') || StartsWith(s, '"')
    ensures var body := MySqlBody(s[0], s[1..]); var rest := s[1 + body.length..];
            && (s[0] == '"' ==> Requoted(s) == Encode(body.value) + Requoted(rest))
            && (s[0] == '\'' ==> Requoted(s) == s[..1 + body.length] + Requoted(rest))
            && (s[0] == '\'' && !Body('\'', s[1..]).closed ==> rest == "" && Requoted(s) == s)
  {
    hide MySqlBody, Body, Encode;
    var body := MySqlBody(s[0], s[1..]);
    SameExtent(s[0], s[1..]);
    if s[0] == '\'' && !Body('\'', s[1..]).closed {
      assert s[1 + body.length..] == "" && s[..1 + body.length] == s && Requoted("") == "";
      assert s + "" == s;
    }
  }

  /** On text without backticks, a MySQL reader sees after the pre-pass what it sees before it, with touching literals
      joined, exactly if the value of every double-quoted literal survives a second reading. */
  lemma {:induction false} PrePassKeepsReading(s: string)
    requires '`' !in s
    ensures MySqlTokens(Requoted(s)) == Merge(MySqlTokens(s)) <==> DoubleQuotedAreTame(s)
    decreases s
  {
    hide MySqlBody, Body, Encode, Tame, Requoted, MySqlTokens, Merge, Glue;
    if s == "" {
      NothingRead();
    } else if s[0] == '\'' || s[0] == '"' {
      var body := MySqlBody(s[0], s[1..]);
      var rest := s[1 + body.length..];
      var (after, before) := (MySqlTokens(Requoted(rest)), Merge(MySqlTokens(rest)));
      RequotedLiteral(s);
      MergeOfLiteral(s);
      PrePassKeepsReading(rest);
      RequotedHead(rest);
      GlueApart(body.value, after, before);
      if s[0] == '"' && !Tame(body.value) {
        UntameLiteralTokens(body.value, Requoted(rest), before);
      } else if s[0] == '"' {
        TameLiteralTokens(body.value, Requoted(rest));
      } else if Body('\'', s[1..]).closed {
        CopiedLiteralTokens(s, Requoted(rest));
      } else {
        UnclosedLast(s, body.value);
        NothingRead();
      }
    } else {
      assert s[0] in s;
      PlainThroughPrePass(s);
      PrePassKeepsReading(s[1..]);
      SplitEqual([Plain(s[0])], [Plain(s[0])], MySqlTokens(Requoted(s[1..])), Merge(MySqlTokens(s[1..])));
    }
  }

  lemma NothingRead()
    ensures MySqlTokens(Requoted("")) == Merge(MySqlTokens("")) && DoubleQuotedAreTame("")
  {
  }

  /** So the full normaliser absorbs the pre-pass wherever that holds. */
  lemma PrePassIsAbsorbedIfTame(s: string)
    requires '`' !in s && DoubleQuotedAreTame(s)
    ensures Normalized(Requoted(s)) == Normalized(s)
  {
    PrePassKeepsReading(s);
    PrintMerge(MySqlTokens(s));
  }

  /** The failing input: a double-quoted literal that holds just a backslash. */
  lemma BackslashIsLost()
    ensures MySqlTokens(Requoted("\"\\\\\"")) != Merge(MySqlTokens("\"\\\\\""))
  {
    hide MySqlTokens, Requoted, Merge;
    var s := "\"\\\\\"";
    assert s[1..] == "\\\\\"" && "\\\\\""[2..] == "\"";
    assert MySqlBody('"', s[1..]).value == "\\";
    assert !Tame("\\") && !DoubleQuotedAreTame(s);
    assert '`' !in s;
    PrePassKeepsReading(s);
  }
}
