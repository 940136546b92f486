/** `rewrite_boolean_literals`: the unquoted words TRUE and FALSE in upper case. */
module Booleans {
  import opened Text
  import opened Lexer
  import opened Dialects
  import opened Calls

  function CaseWord(w: string): string {
    if EqIgnoreCase(w, "true") then "TRUE" else if EqIgnoreCase(w, "false") then "FALSE" else w
  }

  function Cased(st: State, s: string): string
    decreases |s|
  {
    if s == "" then ""
    else if st.InCode() && IsIdentifierChar(s[0]) then
      CaseWord(s[..WordLength(s)]) + Cased(Code, s[WordLength(s)..])
    else [s[0]] + Cased(Step(BooleanDialect, st, s[0]), s[1..])
  }

  lemma CasedStep(sql: string, idx: nat, st: State, out: string)
    requires idx < |sql| && !(st.InCode() && IsIdentifierChar(sql[idx]))
    ensures out + Cased(st, sql[idx..]) == out + [sql[idx]] + Cased(Step(BooleanDialect, st, sql[idx]), sql[idx + 1..])
  {
    SuffixSteps(sql, idx);
    ConcatAssoc(out, [sql[idx]], Cased(Step(BooleanDialect, st, sql[idx]), sql[idx + 1..]));
  }

  lemma {:induction false} CasedWord(sql: string, idx: nat, st: State, out: string, end: nat)
    requires idx < |sql| && st.InCode() && IsIdentifierChar(sql[idx]) && end == idx + WordLength(sql[idx..])
    ensures end <= |sql|
    ensures out + Cased(st, sql[idx..]) == out + CaseWord(sql[idx..end]) + Cased(Code, sql[end..])
  {
    hide WordLength, CaseWord;
    var s := sql[idx..];
    assert s[..end - idx] == sql[idx..end] && s[end - idx..] == sql[end..];
    ConcatAssoc(out, CaseWord(sql[idx..end]), Cased(Code, sql[end..]));
  }

  /** `rewrite_boolean_literals`. */
  method RewriteBooleanLiterals(sql: string) returns (out: string)
    ensures out == Cased(Code, sql)
  {
    hide Cased, WordLength, EqIgnoreCase;
    out := "";
    var idx := 0;
    var quote: Option<char> := None;
    ghost var st := Code;
    assert sql[0..] == sql && "" + Cased(Code, sql) == Cased(Code, sql);
    while idx < |sql|
      invariant idx <= |sql|
      invariant st == if quote.Some? then Quoted(quote.value) else Code
      invariant quote.Some? ==> IsQuote(quote.value)
      invariant out + Cased(st, sql[idx..]) == Cased(Code, sql)
    {
      var ch := sql[idx];
      if quote.Some? {
        CasedStep(sql, idx, st, out);
        st := Step(BooleanDialect, st, ch);
        out := out + [ch];
        idx := idx + 1;
        if ch == quote.value {
          if idx < |sql| && sql[idx] == quote.value {
            CasedStep(sql, idx, st, out);
            st := Step(BooleanDialect, st, sql[idx]);
            out := out + [sql[idx]];
            idx := idx + 1;
          } else {
            quote := None;
          }
        }
        continue;
      }
      if IsQuote(ch) {
        CasedStep(sql, idx, st, out);
        st := Step(BooleanDialect, st, ch);
        quote := Some(ch);
        out := out + [ch];
        idx := idx + 1;
        continue;
      }
      if IsIdentifierChar(ch) {
        var end, _ := ScanWord(sql, idx);
        CasedWord(sql, idx, st, out, end);
        var token := sql[idx..end];
        if EqIgnoreCase(token, "true") {
          out := out + "TRUE";
        } else if EqIgnoreCase(token, "false") {
          out := out + "FALSE";
        } else {
          out := out + token;
        }
        idx := end;
        continue;
      }
      CasedStep(sql, idx, st, out);
      out := out + [ch];
      idx := idx + 1;
    }
    CasedEnds(sql, st, out);
  }

  lemma CasedEnds(sql: string, st: State, out: string)
    ensures out + Cased(st, sql[|sql|..]) == out
  {
    assert out + "" == out;
  }

  // ---------------------------------------------------------------------------------------------------------------
  // What the pass changes

  lemma CaseWordFacts(w: string)
    ensures |CaseWord(w)| == |w| && ToUpper(CaseWord(w)) == ToUpper(w)
    ensures CaseWord(CaseWord(w)) == CaseWord(w)
    ensures (forall k :: 0 <= k < |w| ==> IsIdentifierChar(w[k])) ==>
              forall k :: 0 <= k < |w| ==> IsIdentifierChar(CaseWord(w)[k])
  {
    UpperOfWords();
    assert |ToUpper(w)| == |w|;
  }

  lemma UpperOfWords()
    ensures ToUpper("true") == "TRUE" == ToUpper("TRUE")
    ensures ToUpper("false") == "FALSE" == ToUpper("FALSE")
  {
  }

  /** Length and letters are kept, case aside. */
  lemma {:induction false} OnlyCaseChanges(st: State, s: string)
    ensures |Cased(st, s)| == |s| && ToUpper(Cased(st, s)) == ToUpper(s)
    decreases |s|
  {
    hide WordLength, CaseWord, ToUpper;
    if s != "" {
      if st.InCode() && IsIdentifierChar(s[0]) {
        var n := WordLength(s);
        OnlyCaseChanges(Code, s[n..]);
        CaseWordFacts(s[..n]);
        UpperConcat(CaseWord(s[..n]), Cased(Code, s[n..]));
        UpperConcat(s[..n], s[n..]);
        SplitAt(s, n);
      } else {
        var next := Step(BooleanDialect, st, s[0]);
        OnlyCaseChanges(next, s[1..]);
        UpperConcat([s[0]], Cased(next, s[1..]));
        UpperConcat([s[0]], s[1..]);
        SplitAt(s, 1);
        assert s[..1] == [s[0]];
      }
    }
  }

  /** No word runs across the cut between `a` and `b`. */
  predicate CutBetweenWords(st: State, a: string, b: string) {
    a == "" || b == "" || !After(BooleanDialect, st, a).InCode()
    || !IsIdentifierChar(a[|a| - 1]) || !IsIdentifierChar(b[0])
  }

  lemma WordLengthFull(a: string)
    ensures forall k :: 0 <= k < WordLength(a) ==> IsIdentifierChar(a[k])
    ensures WordLength(a) < |a| ==> !IsIdentifierChar(a[WordLength(a)])
  {
  }

  lemma WordLengthCut(a: string, b: string)
    requires WordLength(a) < |a| || b == "" || !IsIdentifierChar(b[0])
    ensures WordLength(a + b) == WordLength(a)
  {
    WordLengthFull(a);
    SpanIs(IsIdentifierChar, a + b, WordLength(a));
  }

  lemma {:induction false} WordReads(st: State, w: string)
    requires st.InCode() && IsWord(w)
    ensures After(BooleanDialect, st, w) == Code
    decreases w
  {
    assert IsIdentifierChar(w[0]);
    assert Step(BooleanDialect, st, w[0]) == Code;
    if |w| > 1 {
      WordReads(Code, w[1..]);
    } else {
      assert w[1..] == "" && After(BooleanDialect, Code, "") == Code;
    }
  }

  /** The pass works piece by piece wherever no word is cut. */
  lemma {:induction false} CasedConcat(st: State, a: string, b: string)
    requires CutBetweenWords(st, a, b)
    ensures Cased(st, a + b) == Cased(st, a) + Cased(After(BooleanDialect, st, a), b)
    decreases |a|
  {
    hide WordLength, CaseWord;
    if a == "" {
      assert a + b == b;
    } else if st.InCode() && IsIdentifierChar(a[0]) {
      var n := WordLength(a);
      WordLengthFull(a);
      WordReads(st, a[..n]);
      SplitAt(a, n);
      AfterConcat(BooleanDialect, st, a[..n], a[n..]);
      assert n == |a| ==> a[n - 1] == a[|a| - 1] && a[n..] == "" && a[..n] == a;
      WordLengthCut(a, b);
      assert (a + b)[..n] == a[..n] && (a + b)[n..] == a[n..] + b;
      CasedConcat(Code, a[n..], b);
      ConcatAssoc(CaseWord(a[..n]), Cased(Code, a[n..]), Cased(After(BooleanDialect, st, a), b));
    } else {
      assert (a + b)[1..] == a[1..] + b;
      CasedConcat(Step(BooleanDialect, st, a[0]), a[1..], b);
      ConcatAssoc([a[0]], Cased(Step(BooleanDialect, st, a[0]), a[1..]), Cased(After(BooleanDialect, st, a), b));
    }
  }

  /** A whole word in code, between any texts: TRUE and FALSE, however they are spelled, come out in upper case, and any
      other word as it is. */
  lemma {:induction false} WholeWord(a: string, w: string, b: string)
    requires After(BooleanDialect, Code, a).InCode() && IsWord(w)
    requires a == "" || !IsIdentifierChar(a[|a| - 1])
    requires b == "" || !IsIdentifierChar(b[0])
    ensures var r := if ToUpper(w) == "TRUE" then "TRUE" else if ToUpper(w) == "FALSE" then "FALSE" else w;
            Cased(Code, a + (w + b)) == Cased(Code, a) + (r + Cased(Code, b))
  {
    hide Cased, After, CaseWord;
    CasedByUpper(w);
    var st := After(BooleanDialect, Code, a);
    CasedConcat(Code, a, w + b);
    WordReads(st, w);
    CasedConcat(st, w, b);
    OneWord(st, w);
  }

  lemma CasedByUpper(w: string)
    ensures CaseWord(w) == if ToUpper(w) == "TRUE" then "TRUE" else if ToUpper(w) == "FALSE" then "FALSE" else w
  {
    UpperOfWords();
  }

  lemma {:induction false} OneWord(st: State, w: string)
    requires st.InCode() && IsWord(w)
    ensures Cased(st, w) == CaseWord(w)
  {
    hide WordLength, CaseWord;
    WordLengthFull(w);
    assert w[..|w|] == w && w[|w|..] == "";
    assert CaseWord(w) + "" == CaseWord(w);
  }

  /** Inside the first word every character stands in code and is a word character. */
  lemma InFirstWord(st: State, s: string, k: nat)
    requires st.InCode() && s != "" && IsIdentifierChar(s[0]) && k < WordLength(s)
    ensures After(BooleanDialect, st, s[..k]).InCode() && IsIdentifierChar(s[k])
  {
    hide WordLength;
    WordLengthFull(s);
    if k > 0 {
      assert forall j :: 0 <= j < k ==> s[..k][j] == s[j];
      WordReads(st, s[..k]);
    }
  }

  lemma BehindFirstWord(st: State, s: string, k: nat)
    requires st.InCode() && s != "" && IsIdentifierChar(s[0]) && WordLength(s) <= k <= |s|
    ensures After(BooleanDialect, st, s[..k]) == After(BooleanDialect, Code, s[WordLength(s)..][..k - WordLength(s)])
  {
    hide WordLength;
    var n := WordLength(s);
    WordLengthFull(s);
    WordReads(st, s[..n]);
    assert s[..k] == s[..n] + s[n..][..k - n];
    AfterConcat(BooleanDialect, st, s[..n], s[n..][..k - n]);
  }

  /** Nothing else is touched: a character inside quotes, or that belongs to no word, stays. */
  lemma {:induction false} OthersStay(st: State, s: string, k: nat)
    requires k < |s|
    requires !After(BooleanDialect, st, s[..k]).InCode() || !IsIdentifierChar(s[k])
    ensures |Cased(st, s)| == |s| && Cased(st, s)[k] == s[k]
    decreases |s|
  {
    hide WordLength, CaseWord, After;
    OnlyCaseChanges(st, s);
    if st.InCode() && IsIdentifierChar(s[0]) {
      var n := WordLength(s);
      if k < n {
        InFirstWord(st, s, k);
        assert false;
      }
      CaseWordFacts(s[..n]);
      BehindFirstWord(st, s, k);
      OthersStay(Code, s[n..], k - n);
    } else if k > 0 {
      AfterPrefix(BooleanDialect, st, s, k);
      OthersStay(Step(BooleanDialect, st, s[0]), s[1..], k - 1);
    }
  }

  lemma {:induction false} CasedFirst(st: State, s: string)
    requires s != ""
    ensures Cased(st, s) != "" && (IsIdentifierChar(Cased(st, s)[0]) <==> IsIdentifierChar(s[0]))
  {
    hide WordLength, CaseWord;
    if st.InCode() && IsIdentifierChar(s[0]) {
      WordLengthFull(s);
      CaseWordFacts(s[..WordLength(s)]);
    }
  }

  /** A second run changes nothing. */
  lemma {:induction false} CasingIsIdempotent(st: State, s: string)
    ensures Cased(st, Cased(st, s)) == Cased(st, s)
    decreases |s|
  {
    hide WordLength, CaseWord;
    if s != "" {
      if st.InCode() && IsIdentifierChar(s[0]) {
        var n := WordLength(s);
        var (w, rest) := (CaseWord(s[..n]), Cased(Code, s[n..]));
        WordLengthFull(s);
        CaseWordFacts(s[..n]);
        CasingIsIdempotent(Code, s[n..]);
        if s[n..] != "" {
          CasedFirst(Code, s[n..]);
        }
        WordReads(st, w);
        CasedConcat(st, w, rest);
        OneWord(st, w);
      } else {
        var next := Step(BooleanDialect, st, s[0]);
        CasingIsIdempotent(next, s[1..]);
        assert ([s[0]] + Cased(next, s[1..]))[1..] == Cased(next, s[1..]);
      }
    }
  }
}
