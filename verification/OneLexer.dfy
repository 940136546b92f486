/** All scanners behave as one lexer. The placeholder scan, the masker and the boolean pass are specified by the
    lexer itself; here the literal normaliser, the splitter, the call rewriter and the pre-pass are tied to it over
    whole texts, and the dialects are compared. */
module OneLexer {
  import opened Text
  import opened Lexer
  import opened Dialects
  import opened Fragments
  import opened Forests
  import opened Literals
  import Csv

  /** The characters read in code, quotes aside. */
  function CodeText(d: Dialect, st: State, s: string): string
    decreases s
  {
    if s == "" then ""
    else (if st.InCode() && s[0] !in d.quotes then [s[0]] else "") + CodeText(d, Step(d, st, s[0]), s[1..])
  }

  /** The plain characters among tokens. */
  function PlainText(ts: seq<Token>): string {
    if ts == [] then "" else (if ts[0].Plain? then [ts[0].c] else "") + PlainText(ts[1..])
  }

  lemma {:induction false} BodyHasNoCode(q: char, s: string)
    requires q == '\'' || q == '"'
    ensures CodeText(LiteralDialect, Quoted(q), s) == CodeText(LiteralDialect, Code, s[MySqlBody(q, s).length..])
    decreases s
  {
    if s != "" {
      var n := MySqlBody(q, s).length;
      var st := Step(LiteralDialect, Quoted(q), s[0]);
      assert CodeText(LiteralDialect, Quoted(q), s) == CodeText(LiteralDialect, st, s[1..]);
      if |s| > 1 && (s[0] == '\\' || (s[0] == q && s[1] == q)) {
        BodyHasNoCode(q, s[2..]);
        assert s[1..][0] == s[1] && s[1..][1..] == s[2..];
        assert CodeText(LiteralDialect, st, s[1..]) == CodeText(LiteralDialect, Step(LiteralDialect, st, s[1]), s[2..]);
        assert s[2..][n - 2..] == s[n..];
      } else if s[0] != '\\' && s[0] != q {
        BodyHasNoCode(q, s[1..]);
        assert s[1..][n - 1..] == s[n..];
      } else {
        assert s[1..] == s[n..];
      }
    }
  }

  /** The normaliser's plain characters are the characters the lexer reads in code. */
  lemma {:induction false} NormalizerFollowsLexer(s: string)
    ensures PlainText(MySqlTokens(s)) == CodeText(LiteralDialect, Code, s)
    decreases s
  {
    hide MySqlBody;
    if s != "" {
      if s[0] == '\'' || s[0] == '"' {
        var body := MySqlBody(s[0], s[1..]);
        var rest := s[1 + body.length..];
        BodyHasNoCode(s[0], s[1..]);
        assert s[1..][body.length..] == rest;
        NormalizerFollowsLexer(rest);
        assert MySqlTokens(s)[1..] == MySqlTokens(rest);
        assert Step(LiteralDialect, Code, s[0]) == Quoted(s[0]);
      } else {
        NormalizerFollowsLexer(s[1..]);
        assert MySqlTokens(s)[1..] == MySqlTokens(s[1..]);
        assert Step(LiteralDialect, Code, s[0]) == Code;
      }
    }
  }

  /** The splitter's state is the lexer's. */
  lemma {:induction false} SplitterFollowsLexer(st: State, depth: nat, s: string)
    ensures Csv.End(st, depth, s).0 == After(CsvDialect, st, s)
    decreases s
  {
    if s != "" {
      SplitterFollowsLexer(Step(CsvDialect, st, s[0]), Csv.Deeper(st, depth, s[0]), s[1..]);
    }
  }

  // ---------------------------------------------------------------------------------------------------------------
  // The scanners that skip whole fragments

  /** Which characters of a text belong to quoted fragments, quotes included. */
  function Quotedness(d: Dialect, st: State, s: string): (r: seq<bool>)
    ensures |r| == |s|
    decreases s
  {
    if s == "" then []
    else [st.InQuote() || (st.InCode() && s[0] in d.quotes)] + Quotedness(d, Step(d, st, s[0]), s[1..])
  }

  lemma {:induction false} QuotednessAt(d: Dialect, st: State, s: string, k: nat)
    requires k < |s|
    ensures var at := After(d, st, s[..k]);
            Quotedness(d, st, s)[k] <==> at.InQuote() || (at.InCode() && s[k] in d.quotes)
    decreases s
  {
    if k > 0 {
      AfterPrefix(d, st, s, k);
      QuotednessAt(d, Step(d, st, s[0]), s[1..], k - 1);
    } else {
      assert s[..0] == "" && After(d, st, "") == st;
    }
  }

  function Flags(quoted: bool, n: nat): (r: seq<bool>)
    ensures |r| == n
  {
    seq(n, _ => quoted)
  }

  lemma FlagsAdd(quoted: bool, m: nat, n: nat)
    ensures Flags(quoted, m + n) == Flags(quoted, m) + Flags(quoted, n)
  {
  }

  /** The characters that are passed over when every quoted fragment is skipped. */
  function Skipped(s: string): seq<bool>
    decreases |s|
  {
    if s == "" then []
    else if IsQuote(s[0]) then Flags(true, FragmentLength(s)) + Skipped(s[FragmentLength(s)..])
    else [false] + Skipped(s[1..])
  }

  lemma OneStep(d: Dialect, st: State, s: string)
    requires st.InQuote() && s != ""
    ensures Quotedness(d, st, s) == Flags(true, 1) + Quotedness(d, Step(d, st, s[0]), s[1..])
  {
    assert Flags(true, 1) == [true];
  }

  lemma {:induction false} BodyIsQuoted(q: char, s: string)
    requires IsQuote(q)
    ensures var n := Body(q, s).length;
            Quotedness(CallDialect, Quoted(q), s) == Flags(true, n) + Quotedness(CallDialect, Code, s[n..])
    decreases s
  {
    hide Flags, Quotedness;
    var n := Body(q, s).length;
    if s == "" {
      NothingQuoted(q);
    } else {
      var st := Step(CallDialect, Quoted(q), s[0]);
      OneStep(CallDialect, Quoted(q), s);
      if |s| > 1 && s[0] == '\\' {
        BodyIsQuoted(q, s[2..]);
        OneStep(CallDialect, st, s[1..]);
        TwoSteps(n, Quotedness(CallDialect, Code, s[n..]));
        assert s[1..][1..] == s[2..] && s[2..][n - 2..] == s[n..];
      } else if |s| > 1 && s[0] == q && s[1] == q {
        BodyIsQuoted(q, s[2..]);
        ClosingStep(q, s[1..]);
        TwoSteps(n, Quotedness(CallDialect, Code, s[n..]));
        assert s[1..][1..] == s[2..] && s[2..][n - 2..] == s[n..];
      } else if s[0] != '\\' && s[0] != q {
        BodyIsQuoted(q, s[1..]);
        FlagsAdd(true, 1, n - 1);
        ConcatAssoc(Flags(true, 1), Flags(true, n - 1), Quotedness(CallDialect, Code, s[n..]));
        assert s[1..][n - 1..] == s[n..];
      } else {
        assert s[1..] == s[n..];
        if s[0] == '\\' {
          NothingQuoted(q);
        }
      }
    }
  }

  lemma TwoSteps(n: nat, rest: seq<bool>)
    requires n >= 2
    ensures Flags(true, 1) + (Flags(true, 1) + (Flags(true, n - 2) + rest)) == Flags(true, n) + rest
  {
  }

  /** A quote in code opens a fragment. */
  lemma ClosingStep(q: char, s: string)
    requires IsQuote(q) && s != "" && s[0] == q
    ensures Quotedness(CallDialect, Code, s) == Flags(true, 1) + Quotedness(CallDialect, Quoted(q), s[1..])
  {
    assert Flags(true, 1) == [true];
  }

  lemma NothingQuoted(q: char)
    ensures Quotedness(CallDialect, Quoted(q), "") == Quotedness(CallDialect, Escaped(q), "") == []
    ensures Quotedness(CallDialect, Code, "") == [] && Flags(true, 0) == []
  {
  }

  /** Skipping passes over exactly the characters that the lexer reads in fragments, in every text. */
  lemma {:induction false} SkippedIsQuoted(s: string)
    ensures Skipped(s) == Quotedness(CallDialect, Code, s)
    decreases |s|
  {
    hide Body;
    if s != "" {
      if IsQuote(s[0]) {
        var n := Body(s[0], s[1..]).length;
        BodyIsQuoted(s[0], s[1..]);
        assert s[1..][n..] == s[1 + n..];
        SkippedIsQuoted(s[1 + n..]);
        FlagsAdd(true, 1, n);
        assert Step(CallDialect, Code, s[0]) == Quoted(s[0]) && Flags(true, 1) == [true];
      } else {
        SkippedIsQuoted(s[1..]);
        assert Step(CallDialect, Code, s[0]) == Code;
      }
    }
  }

  /** Which characters of the print of a forest belong to its fragments. */
  function InFragments(f: Forest): seq<bool> {
    match f
    case Nil => []
    case Word(text, next) => Flags(false, |text|) + InFragments(next)
    case Fragment(text, next) => Flags(true, |text|) + InFragments(next)
    case Symbol(_, next) => [false] + InFragments(next)
    case Group(inner, next) => [false] + (InFragments(inner) + ([false] + InFragments(next)))
  }

  lemma {:induction false} PlainIsNotSkipped(p: string, t: string)
    requires forall k :: 0 <= k < |p| ==> !IsQuote(p[k])
    ensures Skipped(p + t) == Flags(false, |p|) + Skipped(t)
    decreases p
  {
    if p == "" {
      assert p + t == t;
    } else {
      assert !IsQuote(p[0]) && (p + t)[1..] == p[1..] + t;
      PlainIsNotSkipped(p[1..], t);
      FlagsAdd(false, 1, |p| - 1);
      assert Flags(false, 1) == [false];
    }
  }

  lemma FragmentIsSkipped(f: Forest, top: bool, rest: string)
    requires WellFormed(f, top) && Follows(top, rest) && f.Fragment?
    ensures Skipped(Forests.Print(f) + rest) == Flags(true, |f.text|) + Skipped(Forests.Print(f.next) + rest)
  {
    hide FragmentLength;
    var t := Forests.Print(f.next) + rest;
    ConcatAssoc(f.text, Forests.Print(f.next), rest);
    if FragmentClosed(f.text) {
      NextIsNoSuchQuote(f, top, rest);
      FragmentLengthOf(f.text, t);
    } else {
      assert t == "" && f.text + t == f.text;
    }
  }

  lemma {:induction false} SkippedForest(f: Forest, top: bool, rest: string)
    requires WellFormed(f, top) && Follows(top, rest)
    ensures Skipped(Forests.Print(f) + rest) == InFragments(f) + Skipped(rest)
    decreases f
  {
    hide Skipped, FragmentLength, FragmentClosed, Flags;
    match f
    case Nil =>
      assert Forests.Print(f) + rest == rest && InFragments(f) + Skipped(rest) == Skipped(rest);
    case Word(text, next) =>
      ConcatAssoc(text, Forests.Print(next), rest);
      PlainIsNotSkipped(text, Forests.Print(next) + rest);
      SkippedForest(next, top, rest);
      ConcatAssoc(Flags(false, |text|), InFragments(next), Skipped(rest));
    case Fragment(text, next) =>
      FragmentIsSkipped(f, top, rest);
      if FragmentClosed(text) {
        SkippedForest(next, top, rest);
      } else {
        NothingSkipped();
        assert next.Nil? && Forests.Print(next) + rest == "";
      }
      ConcatAssoc(Flags(true, |text|), InFragments(next), Skipped(rest));
    case Symbol(c, next) =>
      OneFlag();
      ConcatAssoc([c], Forests.Print(next), rest);
      PlainIsNotSkipped([c], Forests.Print(next) + rest);
      SkippedForest(next, top, rest);
      ConcatAssoc([false], InFragments(next), Skipped(rest));
    case Group(inner, next) =>
      var t := Forests.Print(next) + rest;
      OneFlag();
      GroupThen(inner, next, rest);
      PlainIsNotSkipped("(", Forests.Print(inner) + (")" + t));
      SkippedForest(inner, false, ")" + t);
      PlainIsNotSkipped(")", t);
      SkippedForest(next, top, rest);
      ConcatAssoc([false], InFragments(next), Skipped(rest));
      ConcatAssoc(InFragments(inner), [false] + InFragments(next), Skipped(rest));
      ConcatAssoc([false], InFragments(inner) + ([false] + InFragments(next)), Skipped(rest));
  }

  lemma OneFlag()
    ensures Flags(false, 1) == [false]
  {
  }

  /** The call rewriter over a whole text: the fragments of the tree it works on, at all levels, are position by
      position what the lexer reads in quotes. */
  lemma RewriterFollowsLexer(s: string)
    ensures Forests.Print(ParseAll(s)) == s
    ensures InFragments(ParseAll(s)) == Quotedness(CallDialect, Code, s)
  {
    hide Skipped, Forests.Print, WellFormed;
    ParseAllIsFaithful(s);
    SkippedForest(ParseAll(s), true, "");
    SkippedIsQuoted(s);
    NothingSkipped();
    assert s + "" == s && InFragments(ParseAll(s)) + [] == InFragments(ParseAll(s));
  }

  lemma NothingSkipped()
    ensures Skipped("") == []
  {
  }

  /** A text cut into its fragments and the single characters between them. */
  function Stretches(s: string): seq<string>
    decreases |s|
  {
    if s == "" then []
    else
      var n := if IsQuote(s[0]) then FragmentLength(s) else 1;
      [s[..n]] + Stretches(s[n..])
  }

  function Flat(parts: seq<string>): string {
    if parts == [] then "" else parts[0] + Flat(parts[1..])
  }

  /** Which characters stand in stretches that are fragments. */
  function InQuotedStretches(parts: seq<string>): seq<bool> {
    if parts == [] then []
    else Flags(parts[0] != "" && IsQuote(parts[0][0]), |parts[0]|) + InQuotedStretches(parts[1..])
  }

  /** What the pre-pass makes of one stretch. */
  function Requote(part: string): string {
    if StartsWith(part, '"') then Encode(MySqlBody('"', part[1..]).value) else part
  }

  function RequoteAll(parts: seq<string>): string {
    if parts == [] then "" else Requote(parts[0]) + RequoteAll(parts[1..])
  }

  lemma FirstStretch(s: string)
    requires StartsWith(s, '"')
    ensures 1 + MySqlBody('"', s[1..]).length == FragmentLength(s)
    ensures Requote(s[..FragmentLength(s)]) == Encode(MySqlBody('"', s[1..]).value)
  {
    hide Body, MySqlBody, Encode;
    SameExtent('"', s[1..]);
    assert s[..FragmentLength(s)][1..] == s[1..][..FragmentLength(s) - 1];
  }

  lemma OtherStretch(part: string)
    requires !StartsWith(part, '"')
    ensures Requote(part) == part
  {
  }

  /** The pre-pass over a whole text: it works on each stretch by itself, and the stretches that are fragments are
      position by position what the lexer reads in quotes. */
  lemma {:induction false} PrePassFollowsLexer(s: string)
    ensures Flat(Stretches(s)) == s
    ensures InQuotedStretches(Stretches(s)) == Quotedness(CallDialect, Code, s)
    ensures Requoted(s) == RequoteAll(Stretches(s))
    decreases |s|
  {
    hide FragmentLength, MySqlBody, Quotedness, Encode, Requote, Flags;
    SkippedIsQuoted(s);
    if s != "" {
      var n := if IsQuote(s[0]) then FragmentLength(s) else 1;
      var rest := s[n..];
      PrePassFollowsLexer(rest);
      SkippedIsQuoted(rest);
      SplitAt(s, n);
      OneFlag();
      assert Stretches(s)[0] == s[..n] && Stretches(s)[1..] == Stretches(rest);
      if s[0] == '"' {
        FirstStretch(s);
      } else {
        OtherStretch(s[..n]);
      }
      assert !IsQuote(s[0]) ==> s[..n] == [s[0]];
    }
  }

  // ---------------------------------------------------------------------------------------------------------------
  // The dialects compared

  /** States that lead to the same classification of everything behind them. */
  lemma {:induction false} SameCodeText(d: Dialect, e: Dialect, s: string, k: nat)
    requires KnownDialect(d) && KnownDialect(e) && k <= |s|
    requires NoBackslash(s) && NoCommentOpener(s)
    requires d.quotes == e.quotes || '`' !in s
    ensures CodeText(d, At(d, s, k), s[k..]) == CodeText(e, At(e, s, k), s[k..])
    decreases |s| - k
  {
    hide After;
    DialectsAgree(d, e, s, k);
    if k < |s| {
      SuffixSteps(s, k);
      AtStep(d, s, k);
      AtStep(e, s, k);
      SameCodeText(d, e, s, k + 1);
      assert s[k] in s;
    }
  }

  /** On text without backslashes and comment openers, all scanners read the same characters in code: those that know
      the same quotes on any such text, all of them on text without backticks. */
  lemma ScannersAgree(d: Dialect, e: Dialect, s: string)
    requires KnownDialect(d) && KnownDialect(e)
    requires NoBackslash(s) && NoCommentOpener(s)
    requires d.quotes == e.quotes || '`' !in s
    ensures CodeText(d, Code, s) == CodeText(e, Code, s)
  {
    SameCodeText(d, e, s, 0);
    AtStart(d, s);
    AtStart(e, s);
    assert s[0..] == s;
  }
}
