/** What the literal normalisers mean: the values PostgreSQL reads back, when a second run changes nothing, and why
    the pre-pass is absorbed by the full normaliser. */
module LiteralMeaning {
  import opened Text
  import opened Literals

  // ---------------------------------------------------------------------------------------------------------------
  // Literals that touch become one

  /** A literal in front of tokens: touching literals read back as one value, joined by a quote. */
  function Glue(v: string, ts: seq<Token>): (r: seq<Token>)
    ensures r != [] && r[0].Literal?
  {
    if ts != [] && ts[0].Literal? then [Literal(v + "'" + ts[0].value)] + ts[1..] else [Literal(v)] + ts
  }

  function Merge(ts: seq<Token>): seq<Token> {
    if ts == [] then []
    else if ts[0].Literal? then Glue(ts[0].value, Merge(ts[1..]))
    else [ts[0]] + Merge(ts[1..])
  }

  /** No string literal directly abuts another. */
  predicate NoneAbut(ts: seq<Token>) {
    forall k :: 0 <= k < |ts| - 1 ==> !(ts[k].Literal? && ts[k + 1].Literal?)
  }

  /** Tokens a MySQL reading can yield. */
  predicate Proper(ts: seq<Token>) {
    forall k :: 0 <= k < |ts| ==> !ts[k].Name? && (ts[k].Plain? ==> ts[k].c != '\'' && ts[k].c != '"')
  }

  lemma {:induction false} TokensAreProper(s: string)
    ensures Proper(MySqlTokens(s))
    decreases s
  {
    if s != "" {
      if s[0] == '\'' || s[0] == '"' {
        TokensAreProper(s[1 + MySqlBody(s[0], s[1..]).length..]);
      } else {
        TokensAreProper(s[1..]);
      }
    }
  }

  /** Merging is the identity exactly on token sequences in which no literals touch; otherwise tokens are lost. */
  lemma {:induction false} MergeIdentity(ts: seq<Token>)
    ensures |Merge(ts)| <= |ts|
    ensures Merge(ts) != [] ==> ts != [] && (Merge(ts)[0].Literal? <==> ts[0].Literal?)
    ensures ts != [] ==> Merge(ts) != []
    ensures NoneAbut(ts) <==> |Merge(ts)| == |ts|
    ensures NoneAbut(ts) ==> Merge(ts) == ts
  {
    if ts != [] {
      var rest := ts[1..];
      MergeIdentity(rest);
      if NoneAbut(ts) {
        forall k | 0 <= k < |rest| - 1 ensures !(rest[k].Literal? && rest[k + 1].Literal?) {
          assert rest[k] == ts[k + 1] && rest[k + 1] == ts[k + 2];
        }
        assert |ts| > 1 ==> !(ts[0].Literal? && ts[1].Literal?);
      }
    }
  }

  // ---------------------------------------------------------------------------------------------------------------
  // Reading back what was encoded

  lemma {:induction false} ClosingQuote(t: string)
    ensures PostgresBody('\'', "'" + t) ==
            if StartsWith(t, '\'') then PostgresBody('\'', t[1..]).Prepend("'", 2) else Quotation("", 1)
  {
    var s := "'" + t;
    assert |s| > 1 ==> s[1] == t[0] && s[2..] == t[1..];
  }

  lemma PostgresPiece(c: char, rest: string)
    ensures PostgresBody('\'', (if c == '\'' then "''" else [c]) + rest) ==
            PostgresBody('\'', rest).Prepend([c], if c == '\'' then 2 else 1)
  {
    var head := if c == '\'' then "''" else [c];
    assert (head + rest)[|head|..] == rest;
  }

  lemma {:induction false} PostgresBodyOfEncoded(v: string, t: string)
    ensures PostgresBody('\'', Doubled('\'', v) + ("'" + t)) ==
            if StartsWith(t, '\'') then PostgresBody('\'', t[1..]).Prepend(v + "'", |Doubled('\'', v)| + 2)
            else Quotation(v, |Doubled('\'', v)| + 1)
    decreases v
  {
    hide PostgresBody;
    if v == "" {
      ClosingQuote(t);
      assert Doubled('\'', v) + ("'" + t) == "'" + t && v + "'" == "'";
    } else {
      PostgresBodyOfEncoded(v[1..], t);
      var head := if v[0] == '\'' then "''" else [v[0]];
      ConcatAssoc(head, Doubled('\'', v[1..]), "'" + t);
      PostgresPiece(v[0], Doubled('\'', v[1..]) + ("'" + t));
      assert [v[0]] + v[1..] == v;
      if StartsWith(t, '\'') {
        ConcatAssoc([v[0]], v[1..], "'");
        PrependTwice(PostgresBody('\'', t[1..]), [v[0]], |head|, v[1..] + "'", |Doubled('\'', v[1..])| + 2);
      }
    }
  }

  /** What follows the opening quote of an encoded literal. */
  lemma EncodeTail(v: string, t: string)
    ensures Encode(v) + t == "'" + (Doubled('\'', v) + ("'" + t))
    ensures (Encode(v) + t)[1..] == Doubled('\'', v) + ("'" + t)
  {
    ConcatAssoc("'" + Doubled('\'', v), "'", t);
    ConcatAssoc("'", Doubled('\'', v), "'" + t);
    assert ("'" + (Doubled('\'', v) + ("'" + t)))[1..] == Doubled('\'', v) + ("'" + t);
  }

  lemma PostgresTokensOfLiteral(s: string, v: string, n: nat)
    requires StartsWith(s, '\'') && PostgresBody('\'', s[1..]) == Quotation(v, n) && 1 + n <= |s|
    ensures PostgresTokens(s) == [Literal(v)] + PostgresTokens(s[1 + n..])
  {
    hide PostgresBody;
  }

  lemma PostgresTokensNoLiteral(t: string)
    requires !StartsWith(t, '\'')
    ensures PostgresTokens(t) != [] ==> !PostgresTokens(t)[0].Literal?
  {
  }

  lemma PostgresTokensOfEncoded(v: string, t: string)
    ensures PostgresTokens(Encode(v) + t) == Glue(v, PostgresTokens(t))
  {
    hide PostgresBody, PostgresTokens, Doubled;
    var s := Encode(v) + t;
    EncodeTail(v, t);
    PostgresBodyOfEncoded(v, t);
    if StartsWith(t, '\'') {
      var tail := PostgresBody('\'', t[1..]);
      PostgresTokensOfLiteral(s, v + "'" + tail.value, |Doubled('\'', v)| + 2 + tail.length);
      assert s[1 + |Doubled('\'', v)| + 2 + tail.length..] == t[1 + tail.length..];
      PostgresTokensOfLiteral(t, tail.value, tail.length);
      assert PostgresTokens(t)[1..] == PostgresTokens(t[1 + tail.length..]);
    } else {
      PostgresTokensOfLiteral(s, v, |Doubled('\'', v)| + 1);
      assert s[1 + |Doubled('\'', v)| + 1..] == t;
      PostgresTokensNoLiteral(t);
    }
  }

  lemma {:induction false} PostgresReadsPrinted(ts: seq<Token>)
    requires Proper(ts)
    ensures PostgresTokens(Print(ts)) == Merge(ts)
  {
    if ts != [] {
      var rest := Print(ts[1..]);
      PostgresReadsPrinted(ts[1..]);
      if ts[0].Literal? {
        PostgresTokensOfEncoded(ts[0].value, rest);
      } else {
        assert ([ts[0].c] + rest)[1..] == rest;
      }
    }
  }

  /** What PostgreSQL reads in the output is what MySQL rules read in the input, with touching literals joined.
      This holds of every text, unterminated final literals included. */
  lemma {:induction false} MeaningUpToMerging(s: string)
    ensures PostgresTokens(Normalized(s)) == Merge(MySqlTokens(s))
  {
    TokensAreProper(s);
    PostgresReadsPrinted(MySqlTokens(s));
  }

  /** The meaning of a text is kept exactly when none of its literals abut. */
  lemma {:induction false} MeaningPreserved(s: string)
    ensures PostgresTokens(Normalized(s)) == MySqlTokens(s) <==> NoneAbut(MySqlTokens(s))
  {
    MeaningUpToMerging(s);
    MergeIdentity(MySqlTokens(s));
  }

  /** The failing family is real: two touching literals of different quotes change meaning. */
  lemma AbuttingLiteralsMerge()
    ensures MySqlTokens("'a'\"b\"") == [Literal("a"), Literal("b")]
    ensures PostgresTokens(Normalized("'a'\"b\"")) == [Literal("a'b")]
  {
    var s := "'a'\"b\"";
    assert s[1..] == "a'\"b\"" && s[1..][1..] == "'\"b\"" && s[3..] == "\"b\"";
    assert s[3..][1..] == "b\"" && s[3..][1..][1..] == "\"" && s[3..][3..] == "";
    assert MySqlBody('\'', "'\"b\"") == Quotation("", 1);
    assert MySqlBody('\'', "a'\"b\"") == Quotation("a", 2);
    assert MySqlBody('"', "\"") == Quotation("", 1);
    assert MySqlBody('"', "b\"") == Quotation("b", 2);
    assert MySqlTokens("\"b\"") == [Literal("b")];
    MeaningUpToMerging(s);
    assert [Literal("a"), Literal("b")][1..] == [Literal("b")];
    assert Merge([Literal("b")]) == [Literal("b")];
    assert "a" + "'" + "b" == "a'b";
  }

  // ---------------------------------------------------------------------------------------------------------------
  // Double quotes survive only inside literals

  function QuoteCount(s: string): nat {
    if s == "" then 0 else (if s[0] == '\'' then 1 else 0) + QuoteCount(s[1..])
  }

  lemma {:induction false} QuoteCountConcat(a: string, b: string)
    ensures QuoteCount(a + b) == QuoteCount(a) + QuoteCount(b)
    decreases a
  {
    if a == "" {
      assert a + b == b;
    } else {
      assert (a + b)[1..] == a[1..] + b;
      QuoteCountConcat(a[1..], b);
    }
  }

  /** Inside an encoded value every other character is preceded by an even number of quotes, so after the opening
      quote by an odd one. */
  lemma {:induction false} DoubledIsEven(v: string, k: nat)
    requires k <= |Doubled('\'', v)|
    ensures k < |Doubled('\'', v)| && Doubled('\'', v)[k] != '\'' ==> QuoteCount(Doubled('\'', v)[..k]) % 2 == 0
    ensures QuoteCount(Doubled('\'', v)) % 2 == 0
    decreases v
  {
    hide QuoteCount;
    CountOfHead();
    if v != "" {
      var head := if v[0] == '\'' then "''" else [v[0]];
      var rest := Doubled('\'', v[1..]);
      var d := head + rest;
      assert d == Doubled('\'', v);
      DoubledIsEven(v[1..], if k >= |head| then k - |head| else 0);
      QuoteCountConcat(head, rest);
      if k >= |head| {
        assert d[..k] == head + rest[..k - |head|];
        QuoteCountConcat(head, rest[..k - |head|]);
      } else if k == 0 {
        assert d[..0] == "";
      } else {
        assert d[1] == '\'';
      }
    }
  }

  lemma CountOfHead()
    ensures QuoteCount("") == 0 && QuoteCount("''") == 2
    ensures forall c: char :: c != '\'' ==> QuoteCount([c]) == 0
  {
    assert "''"[1..] == "'" && "'"[1..] == "";
    forall c: char | c != '\'' ensures QuoteCount([c]) == 0 {
      assert [c][1..] == "";
    }
  }

  lemma EncodedQuotes(v: string, k: nat)
    requires k < |Encode(v)|
    ensures Encode(v)[k] == '"' ==> QuoteCount(Encode(v)[..k]) % 2 == 1
    ensures QuoteCount(Encode(v)) % 2 == 0
  {
    var d := Doubled('\'', v);
    DoubledIsEven(v, if 0 < k <= |d| then k - 1 else 0);
    QuoteCountConcat("'" + d, "'");
    QuoteCountConcat("'", d);
    if 0 < k <= |d| {
      assert Encode(v)[..k] == "'" + d[..k - 1];
      QuoteCountConcat("'", d[..k - 1]);
    }
  }

  lemma {:induction false} PrintedDoubleQuotes(ts: seq<Token>, k: nat)
    requires Proper(ts) && k < |Print(ts)| && Print(ts)[k] == '"'
    ensures QuoteCount(Print(ts)[..k]) % 2 == 1
    decreases ts
  {
    hide Encode;
    var head := if ts[0].Plain? then [ts[0].c] else Encode(ts[0].value);
    var rest := Print(ts[1..]);
    if ts[0].Plain? {
      assert QuoteCount(head) == 0;
    } else {
      EncodedQuotes(ts[0].value, if k < |head| then k else 0);
    }
    if k < |head| {
      assert Print(ts)[..k] == head[..k];
    } else {
      PrintedDoubleQuotes(ts[1..], k - |head|);
      assert Print(ts)[..k] == head + rest[..k - |head|];
      QuoteCountConcat(head, rest[..k - |head|]);
    }
  }

  /** With no side condition: every double quote left in the output has an odd number of single quotes before it,
      that is, it lies inside a literal and opens no PostgreSQL name. */
  lemma DoubleQuotesAreInside(s: string, k: nat)
    requires k < |Normalized(s)| && Normalized(s)[k] == '"'
    ensures QuoteCount(Normalized(s)[..k]) % 2 == 1
  {
    TokensAreProper(s);
    PrintedDoubleQuotes(MySqlTokens(s), k);
  }

  // ---------------------------------------------------------------------------------------------------------------
  // A doubled value by itself

  lemma {:induction false} BodyOfDoubled(q: char, v: string, t: string)
    requires !StartsWith(t, q)
    ensures PostgresBody(q, Doubled(q, v) + ([q] + t)) == Quotation(v, |Doubled(q, v)| + 1)
    decreases v
  {
    if v == "" {
      assert Doubled(q, v) + ([q] + t) == [q] + t;
      assert |t| > 0 ==> ([q] + t)[1] == t[0];
    } else {
      BodyOfDoubled(q, v[1..], t);
      var head := if v[0] == q then [q, q] else [v[0]];
      var tail := Doubled(q, v[1..]) + ([q] + t);
      ConcatAssoc(head, Doubled(q, v[1..]), [q] + t);
      BodyPiece(q, v[0], tail);
      assert v == [v[0]] + v[1..];
    }
  }

  lemma BodyPiece(q: char, c: char, tail: string)
    ensures PostgresBody(q, (if c == q then [q, q] else [c]) + tail) ==
            PostgresBody(q, tail).Prepend([c], if c == q then 2 else 1)
  {
    var head := if c == q then [q, q] else [c];
    assert (head + tail)[|head|..] == tail;
  }
}
