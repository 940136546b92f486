/** `mask_quoted_sql_fragments` and the rejection of unsupported statements that looks at the masked text only. */
module Masking {
  import opened Text
  import opened Lexer
  import opened Dialects

  predicate IsStringQuote(c: char) {
    c == '\'' || c == '"'
  }

  /** Blank inside quotes and at the quotes themselves, unchanged elsewhere. */
  function Masked(st: State, s: string): (r: string)
    ensures |r| == |s|
    decreases s
  {
    if s == "" then ""
    else [if st.InQuote() || IsStringQuote(s[0]) then ' ' else s[0]] + Masked(Step(LiteralDialect, st, s[0]), s[1..])
  }

  function Mask(s: string): string {
    Masked(Code, s)
  }

  lemma MaskStep(sql: string, i: nat, st: State, out: string)
    requires i < |sql|
    ensures out + Masked(st, sql[i..]) ==
            out + [if st.InQuote() || IsStringQuote(sql[i]) then ' ' else sql[i]]
            + Masked(Step(LiteralDialect, st, sql[i]), sql[i + 1..])
  {
    SuffixSteps(sql, i);
    ConcatAssoc(out, [if st.InQuote() || IsStringQuote(sql[i]) then ' ' else sql[i]],
                Masked(Step(LiteralDialect, st, sql[i]), sql[i + 1..]));
  }

  lemma MaskEnds(sql: string, st: State, out: string)
    ensures out + Masked(st, sql[|sql|..]) == out
  {
    assert out + "" == out;
  }

  /** `mask_quoted_sql_fragments`. */
  method MaskQuotedFragments(sql: string) returns (masked: string)
    ensures masked == Mask(sql)
  {
    hide Masked;
    masked := "";
    var i := 0;
    assert sql[0..] == sql && "" + Mask(sql) == Mask(sql);
    while i < |sql|
      invariant i <= |sql|
      invariant masked + Masked(Code, sql[i..]) == Mask(sql)
    {
      var ch := sql[i];
      MaskStep(sql, i, Code, masked);
      i := i + 1;
      if !IsStringQuote(ch) {
        masked := masked + [ch];
        continue;
      }
      masked := masked + " ";
      ghost var st := Quoted(ch);
      while i < |sql|
        invariant i <= |sql|
        invariant st == Quoted(ch)
        invariant masked + Masked(st, sql[i..]) == Mask(sql)
      {
        var inner := sql[i];
        MaskStep(sql, i, st, masked);
        st := Step(LiteralDialect, st, inner);
        masked := masked + " ";
        i := i + 1;
        if inner == '\\' {
          if i < |sql| {
            MaskStep(sql, i, st, masked);
            st := Step(LiteralDialect, st, sql[i]);
            masked := masked + " ";
            i := i + 1;
          } else {
            MaskEnds(sql, st, masked);
            st := Quoted(ch);
            MaskEnds(sql, st, masked);
          }
          continue;
        }
        if inner == ch {
          if i < |sql| && sql[i] == ch {
            MaskStep(sql, i, st, masked);
            st := Step(LiteralDialect, st, sql[i]);
            masked := masked + " ";
            i := i + 1;
            continue;
          }
          break;
        }
      }
      if i == |sql| {
        MaskEnds(sql, st, masked);
        MaskEnds(sql, Code, masked);
      }
    }
    MaskEnds(sql, Code, masked);
  }

  // ---------------------------------------------------------------------------------------------------------------
  // What the mask shows

  /** Position by position: the mask keeps exactly the characters that the specification lexer reads in code and that
      are no quotes. */
  lemma {:induction false} MaskedAt(st: State, s: string, k: nat)
    requires k < |s|
    ensures Masked(st, s)[k] ==
            if After(LiteralDialect, st, s[..k]).InQuote() || IsStringQuote(s[k]) then ' ' else s[k]
    decreases s
  {
    if k == 0 {
      assert s[..0] == "";
    } else {
      AfterPrefix(LiteralDialect, st, s, k);
      MaskedAt(Step(LiteralDialect, st, s[0]), s[1..], k - 1);
    }
  }

  lemma {:induction false} MaskHasNoQuotes(st: State, s: string, k: nat)
    requires k < |s|
    ensures !IsStringQuote(Masked(st, s)[k])
  {
    MaskedAt(st, s, k);
  }

  lemma {:induction false} MaskOfUnquoted(s: string)
    requires forall k :: 0 <= k < |s| ==> !IsStringQuote(s[k])
    ensures Mask(s) == s
    decreases s
  {
    if s != "" {
      assert !IsStringQuote(s[0]);
      MaskOfUnquoted(s[1..]);
      assert [s[0]] + s[1..] == s;
    }
  }

  lemma MaskIsIdempotent(s: string)
    ensures Mask(Mask(s)) == Mask(s)
  {
    hide Masked;
    forall k | 0 <= k < |Mask(s)| ensures !IsStringQuote(Mask(s)[k]) {
      MaskHasNoQuotes(Code, s, k);
    }
    MaskOfUnquoted(Mask(s));
  }

  // ---------------------------------------------------------------------------------------------------------------
  // Literal contents do not matter

  lemma {:induction false} MaskedConcat(st: State, a: string, b: string)
    ensures Masked(st, a + b) == Masked(st, a) + Masked(After(LiteralDialect, st, a), b)
    decreases a
  {
    if a == "" {
      assert a + b == b;
    } else {
      assert (a + b)[1..] == a[1..] + b;
      MaskedConcat(Step(LiteralDialect, st, a[0]), a[1..], b);
      ConcatAssoc([if st.InQuote() || IsStringQuote(a[0]) then ' ' else a[0]],
                  Masked(Step(LiteralDialect, st, a[0]), a[1..]), Masked(After(LiteralDialect, st, a), b));
    }
  }

  /** What may stand between the quotes of a closed literal. */
  predicate Content(q: char, v: string) {
    if v == "" then true
    else if v[0] == '\\' || v[0] == q then |v| > 1 && (v[0] == q ==> v[1] == q) && Content(q, v[2..])
    else Content(q, v[1..])
  }

  function Spaces(n: nat): (s: string)
    ensures |s| == n
  {
    if n == 0 then "" else " " + Spaces(n - 1)
  }

  lemma {:induction false} MaskedContent(q: char, v: string)
    requires IsStringQuote(q) && Content(q, v)
    ensures After(LiteralDialect, Quoted(q), v) == Quoted(q) && Masked(Quoted(q), v) == Spaces(|v|)
    decreases v
  {
    if v != "" {
      if v[0] == '\\' || v[0] == q {
        MaskedContent(q, v[2..]);
        var st := Step(LiteralDialect, Quoted(q), v[0]);
        assert v[1..][1..] == v[2..] && v[1..] != "";
        assert Step(LiteralDialect, st, v[1]) == Quoted(q);
        assert After(LiteralDialect, st, v[1..]) == After(LiteralDialect, Quoted(q), v[2..]);
        assert Masked(st, v[1..]) == " " + Spaces(|v| - 2);
      } else {
        MaskedContent(q, v[1..]);
      }
    }
  }

  /** A text as a list of unquoted stretches and closed literals. */
  datatype Segment = Stretch(text: string) | Literal(quote: char, content: string) {
    predicate Valid() {
      match this
      case Stretch(text) => forall k :: 0 <= k < |text| ==> !IsStringQuote(text[k])
      case Literal(q, v) => IsStringQuote(q) && Content(q, v)
    }

    function Write(): string {
      match this
      case Stretch(text) => text
      case Literal(q, v) => [q] + (v + [q])
    }

    function Blank(): string {
      match this
      case Stretch(text) => text
      case Literal(_, v) => Spaces(|v| + 2)
    }
  }

  function WriteAll(segments: seq<Segment>): string {
    if segments == [] then "" else segments[0].Write() + WriteAll(segments[1..])
  }

  function BlankAll(segments: seq<Segment>): string {
    if segments == [] then "" else segments[0].Blank() + BlankAll(segments[1..])
  }

  predicate AllValid(segments: seq<Segment>) {
    forall k :: 0 <= k < |segments| ==> segments[k].Valid()
  }

  lemma {:induction false} StretchReads(text: string)
    requires forall k :: 0 <= k < |text| ==> !IsStringQuote(text[k])
    ensures After(LiteralDialect, Code, text) == Code
    decreases text
  {
    if text != "" {
      assert !IsStringQuote(text[0]);
      StretchReads(text[1..]);
    }
  }

  lemma LiteralReads(q: char, v: string)
    requires IsStringQuote(q) && Content(q, v)
    ensures After(LiteralDialect, Code, [q] + (v + [q])) == Code
    ensures Mask([q] + (v + [q])) == Spaces(|v| + 2)
  {
    MaskedContent(q, v);
    var s := [q] + (v + [q]);
    assert s[1..] == v + [q];
    AfterConcat(LiteralDialect, Quoted(q), v, [q]);
    MaskedConcat(Quoted(q), v, [q]);
    assert [q][1..] == "";
    assert After(LiteralDialect, Quoted(q), [q]) == After(LiteralDialect, Code, [q][1..]);
    assert Masked(Quoted(q), [q]) == [' '] + Masked(Code, [q][1..]);
    SpacesSnoc(|v|);
  }

  lemma {:induction false} SpacesSnoc(n: nat)
    ensures Spaces(n) + " " == Spaces(n + 1)
  {
    if n > 0 {
      SpacesSnoc(n - 1);
      ConcatAssoc(" ", Spaces(n - 1), " ");
    }
  }

  lemma {:induction false} MaskOfSegments(segments: seq<Segment>)
    requires AllValid(segments)
    ensures Mask(WriteAll(segments)) == BlankAll(segments)
    decreases |segments|
  {
    hide Masked, Content;
    if segments == [] {
      MaskEnds("", Code, "");
      assert "" + Masked(Code, ""[|""|..]) == Masked(Code, "");
    } else {
      var (first, rest) := (segments[0], segments[1..]);
      assert first.Valid();
      assert AllValid(rest) by {
        forall k | 0 <= k < |rest| ensures rest[k].Valid() {
          assert rest[k] == segments[k + 1];
        }
      }
      MaskOfSegments(rest);
      MaskedConcat(Code, first.Write(), WriteAll(rest));
      match first
      case Stretch(text) =>
        StretchReads(text);
        MaskOfUnquoted(text);
      case Literal(q, v) =>
        LiteralReads(q, v);
    }
  }

  /** The same stretches, and literals in the same places with contents of the same lengths. */
  predicate SameShape(a: seq<Segment>, b: seq<Segment>) {
    && |a| == |b|
    && forall k :: 0 <= k < |a| ==> a[k] == b[k] || (a[k].Literal? && b[k].Literal? && |a[k].content| == |b[k].content|)
  }

  lemma {:induction false} SameShapeBlanks(a: seq<Segment>, b: seq<Segment>)
    requires SameShape(a, b)
    ensures BlankAll(a) == BlankAll(b)
    decreases |a|
  {
    if a != [] {
      forall k | 0 <= k < |a[1..]|
        ensures a[1..][k] == b[1..][k] ||
                (a[1..][k].Literal? && b[1..][k].Literal? && |a[1..][k].content| == |b[1..][k].content|)
      {
        assert a[1..][k] == a[k + 1] && b[1..][k] == b[k + 1];
      }
      SameShapeBlanks(a[1..], b[1..]);
    }
  }

  /** `reject_unsupported`: the message of the first pattern that matches the masked text. The patterns stand for
      the regular expressions of the source. */
  function RejectionOf(patterns: seq<(string -> bool, string)>, sql: string): Option<string> {
    FirstMatch(patterns, Mask(sql))
  }

  function FirstMatch(patterns: seq<(string -> bool, string)>, masked: string): Option<string> {
    if patterns == [] then None
    else if patterns[0].0(masked) then Some(patterns[0].1)
    else FirstMatch(patterns[1..], masked)
  }

  lemma {:induction false} FirstMatchIsLeast(patterns: seq<(string -> bool, string)>, masked: string, k: nat)
    ensures FirstMatch(patterns, masked) == None <==>
            forall i :: 0 <= i < |patterns| ==> !patterns[i].0(masked)
    ensures k < |patterns| && patterns[k].0(masked) && (forall i :: 0 <= i < k ==> !patterns[i].0(masked)) ==>
              FirstMatch(patterns, masked) == Some(patterns[k].1)
  {
    if patterns != [] {
      var rest := patterns[1..];
      FirstMatchIsLeast(rest, masked, if k > 0 then k - 1 else 0);
      assert forall i :: 0 <= i < |rest| ==> rest[i] == patterns[i + 1];
      assert (forall i :: 0 <= i < |patterns| ==> !patterns[i].0(masked)) <==>
             !patterns[0].0(masked) && forall i :: 0 <= i < |rest| ==> !rest[i].0(masked) by {
        if forall i :: 0 <= i < |patterns| ==> !patterns[i].0(masked) {
          forall i | 0 <= i < |rest| ensures !rest[i].0(masked) {
            assert rest[i] == patterns[i + 1];
          }
        }
        if !patterns[0].0(masked) && forall i :: 0 <= i < |rest| ==> !rest[i].0(masked) {
          forall i | 0 <= i < |patterns| ensures !patterns[i].0(masked) {
            assert i > 0 ==> patterns[i] == rest[i - 1];
          }
        }
      }
    }
  }

  /** A statement passes exactly if no pattern matches its mask; else it gets the message of the first that does. */
  lemma RejectedExactly(patterns: seq<(string -> bool, string)>, sql: string, k: nat)
    ensures RejectionOf(patterns, sql) == None <==>
            forall i :: 0 <= i < |patterns| ==> !patterns[i].0(Mask(sql))
    ensures k < |patterns| && patterns[k].0(Mask(sql)) && (forall i :: 0 <= i < k ==> !patterns[i].0(Mask(sql))) ==>
              RejectionOf(patterns, sql) == Some(patterns[k].1)
  {
    hide Mask, FirstMatch;
    FirstMatchIsLeast(patterns, Mask(sql), k);
  }

  /** `reject_unsupported`: the loop over the patterns. */
  method RejectUnsupported(patterns: seq<(string -> bool, string)>, sql: string) returns (message: Option<string>)
    ensures message == RejectionOf(patterns, sql)
  {
    hide Mask, FirstMatch;
    var masked := MaskQuotedFragments(sql);
    for k := 0 to |patterns|
      invariant forall i :: 0 <= i < k ==> !patterns[i].0(masked)
    {
      if patterns[k].0(masked) {
        RejectedExactly(patterns, sql, k);
        return Some(patterns[k].1);
      }
    }
    RejectedExactly(patterns, sql, 0);
    return None;
  }

  /** Whatever the patterns are, the contents of closed literals cannot change the verdict. */
  lemma ContentsDoNotMatter(patterns: seq<(string -> bool, string)>, a: seq<Segment>, b: seq<Segment>)
    requires AllValid(a) && AllValid(b) && SameShape(a, b)
    ensures Mask(WriteAll(a)) == Mask(WriteAll(b))
    ensures RejectionOf(patterns, WriteAll(a)) == RejectionOf(patterns, WriteAll(b))
  {
    hide Mask, BlankAll, WriteAll;
    MaskOfSegments(a);
    MaskOfSegments(b);
    SameShapeBlanks(a, b);
  }

  // ---------------------------------------------------------------------------------------------------------------
  // The masked text is PostgreSQL text

  /** PostgreSQL quoting: a backslash is an ordinary character. */
  const PostgresDialect := Dialect(StringQuotes, {}, false)

  /** An unpaired backslash right before a quote of the kind that opened the fragment. */
  predicate ShieldedQuote(st: State, s: string)
    decreases s
  {
    s != "" &&
    ((st.Quoted? && s[0] == '\\' && |s| > 1 && s[1] == st.quote)
     || ShieldedQuote(Step(LiteralDialect, st, s[0]), s[1..]))
  }

  predicate SameSide(a: State, b: State) {
    a.InQuote() <==> b.InQuote()
  }

  /** The masker reads its MySQL backslash rule into PostgreSQL text. It sees every position on the same side of the
      quotes as PostgreSQL exactly when no unpaired backslash stands right before a closing quote. */
  lemma MaskAgreesWithPostgres(s: string)
    ensures (forall k: nat :: k <= |s| ==> SameSide(At(LiteralDialect, s, k), At(PostgresDialect, s, k))) <==>
            !ShieldedQuote(Code, s)
  {
    hide After;
    if ShieldedQuote(Code, s) {
      var k := SidesPart(Code, Code, s);
      assert !SameSide(At(LiteralDialect, s, k), At(PostgresDialect, s, k));
    } else {
      forall k: nat | k <= |s| ensures SameSide(At(LiteralDialect, s, k), At(PostgresDialect, s, k)) {
        SidesAgree(Code, Code, s, k);
      }
    }
  }

  /** The masker stands where PostgreSQL stands, or just behind a backslash. */
  predicate InStep(mask: State, postgres: State) {
    || (mask == postgres && (mask.Code? || (mask.Quoted? && IsStringQuote(mask.quote))))
    || (mask.Escaped? && IsStringQuote(mask.quote) && postgres == Quoted(mask.quote))
  }

  lemma {:induction false} SidesAgree(mask: State, postgres: State, s: string, k: nat)
    requires InStep(mask, postgres) && k <= |s| && !ShieldedQuote(mask, s)
    requires mask.Escaped? ==> !StartsWith(s, mask.quote)
    ensures SameSide(After(LiteralDialect, mask, s[..k]), After(PostgresDialect, postgres, s[..k]))
    decreases s
  {
    if k > 0 {
      AfterPrefix(LiteralDialect, mask, s, k);
      AfterPrefix(PostgresDialect, postgres, s, k);
      SidesAgree(Step(LiteralDialect, mask, s[0]), Step(PostgresDialect, postgres, s[0]), s[1..], k - 1);
    } else {
      assert s[..0] == "";
    }
  }

  lemma {:induction false} SidesPart(mask: State, postgres: State, s: string) returns (k: nat)
    requires InStep(mask, postgres) && ShieldedQuote(mask, s)
    requires mask.Escaped? ==> !StartsWith(s, mask.quote)
    ensures k <= |s|
    ensures !SameSide(After(LiteralDialect, mask, s[..k]), After(PostgresDialect, postgres, s[..k]))
    decreases s
  {
    var m, p := Step(LiteralDialect, mask, s[0]), Step(PostgresDialect, postgres, s[0]);
    if mask.Quoted? && s[0] == '\\' && |s| > 1 && s[1] == mask.quote {
      k := 2;
      AfterPrefix(LiteralDialect, mask, s, 2);
      AfterPrefix(PostgresDialect, postgres, s, 2);
      assert s[2..][..0] == "";
    } else {
      assert ShieldedQuote(m, s[1..]);
      k := SidesPart(m, p, s[1..]);
      k := k + 1;
      AfterPrefix(LiteralDialect, mask, s, k);
      AfterPrefix(PostgresDialect, postgres, s, k);
      assert s[1..][..k - 1] == s[1..k];
    }
  }
}
