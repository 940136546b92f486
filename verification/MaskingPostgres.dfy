/** The mask of PostgreSQL text: where the masker's backslash rule does no harm, literal contents do not matter. */
module MaskingPostgres {
  import opened Text
  import opened Lexer
  import opened Dialects
  import opened Literals
  import opened Masking

  /** What the mask would be by PostgreSQL's quoting. */
  function PostgresMasked(st: State, s: string): (r: string)
    ensures |r| == |s|
    decreases s
  {
    if s == "" then ""
    else
      [if st.InQuote() || IsStringQuote(s[0]) then ' ' else s[0]]
      + PostgresMasked(Step(PostgresDialect, st, s[0]), s[1..])
  }

  lemma {:induction false} MasksAgree(mask: State, postgres: State, s: string)
    requires InStep(mask, postgres) && !ShieldedQuote(mask, s)
    requires mask.Escaped? ==> !StartsWith(s, mask.quote)
    ensures Masked(mask, s) == PostgresMasked(postgres, s)
    decreases s
  {
    if s != "" {
      MasksAgree(Step(LiteralDialect, mask, s[0]), Step(PostgresDialect, postgres, s[0]), s[1..]);
    }
  }

  lemma {:induction false} PostgresMaskedConcat(st: State, a: string, b: string)
    ensures PostgresMasked(st, a + b) == PostgresMasked(st, a) + PostgresMasked(After(PostgresDialect, st, a), b)
    decreases a
  {
    if a == "" {
      assert a + b == b;
    } else {
      assert (a + b)[1..] == a[1..] + b;
      PostgresMaskedConcat(Step(PostgresDialect, st, a[0]), a[1..], b);
    }
  }

  /** A PostgreSQL literal: its value with every quote doubled, between quotes. */
  ghost predicate IsPostgres(segment: Segment) {
    match segment
    case Stretch(_) => segment.Valid()
    case Literal(q, content) => IsStringQuote(q) && exists value :: content == Doubled(q, value)
  }

  lemma {:induction false} DoubledReads(q: char, value: string)
    requires IsStringQuote(q)
    ensures After(PostgresDialect, Quoted(q), Doubled(q, value)) == Quoted(q)
    ensures PostgresMasked(Quoted(q), Doubled(q, value)) == Spaces(|Doubled(q, value)|)
    decreases value
  {
    if value != "" {
      var (d, rest) := (Doubled(q, value), Doubled(q, value[1..]));
      DoubledReads(q, value[1..]);
      if value[0] == q {
        assert d[1..][1..] == rest && d[0] == q && d[1] == q;
        assert After(PostgresDialect, Code, d[1..]) == After(PostgresDialect, Quoted(q), rest);
        assert PostgresMasked(Code, d[1..]) == " " + Spaces(|rest|);
      } else {
        assert d[1..] == rest;
      }
    }
  }

  lemma {:induction false} PostgresLiteralReads(q: char, value: string)
    requires IsStringQuote(q)
    ensures After(PostgresDialect, Code, [q] + (Doubled(q, value) + [q])) == Code
    ensures PostgresMasked(Code, [q] + (Doubled(q, value) + [q])) == Spaces(|Doubled(q, value)| + 2)
  {
    hide Doubled;
    var v := Doubled(q, value);
    DoubledReads(q, value);
    var s := [q] + (v + [q]);
    assert s[1..] == v + [q];
    AfterConcat(PostgresDialect, Quoted(q), v, [q]);
    PostgresMaskedConcat(Quoted(q), v, [q]);
    assert [q][1..] == "";
    assert After(PostgresDialect, Quoted(q), [q]) == After(PostgresDialect, Code, [q][1..]);
    assert PostgresMasked(Quoted(q), [q]) == [' '] + PostgresMasked(Code, [q][1..]);
    SpacesSnoc(|v|);
  }

  lemma {:induction false} PostgresStretchReads(text: string)
    requires forall k :: 0 <= k < |text| ==> !IsStringQuote(text[k])
    ensures After(PostgresDialect, Code, text) == Code && PostgresMasked(Code, text) == text
    decreases text
  {
    if text != "" {
      assert !IsStringQuote(text[0]);
      PostgresStretchReads(text[1..]);
      assert [text[0]] + text[1..] == text;
    }
  }

  lemma {:induction false} PostgresMaskOfSegments(segments: seq<Segment>)
    requires forall k :: 0 <= k < |segments| ==> IsPostgres(segments[k])
    ensures PostgresMasked(Code, WriteAll(segments)) == BlankAll(segments)
    decreases |segments|
  {
    hide PostgresMasked, Doubled;
    if segments == [] {
      NothingMasked();
    } else {
      var (first, rest) := (segments[0], segments[1..]);
      assert IsPostgres(first);
      forall k | 0 <= k < |rest| ensures IsPostgres(rest[k]) {
        assert rest[k] == segments[k + 1];
      }
      PostgresMaskOfSegments(rest);
      PostgresMaskedConcat(Code, first.Write(), WriteAll(rest));
      match first
      case Stretch(text) =>
        PostgresStretchReads(text);
      case Literal(q, content) =>
        var value :| content == Doubled(q, value);
        PostgresLiteralReads(q, value);
    }
  }

  lemma NothingMasked()
    ensures PostgresMasked(Code, "") == ""
  {
  }

  /** The text that is checked is PostgreSQL's: the contents of its literals cannot change the verdict either, as long
      as no unpaired backslash stands right before a quote of the kind that opened the literal. */
  lemma {:induction false} PostgresContentsDoNotMatter(patterns: seq<(string -> bool, string)>, a: seq<Segment>,
                                                       b: seq<Segment>)
    requires (forall k :: 0 <= k < |a| ==> IsPostgres(a[k])) && (forall k :: 0 <= k < |b| ==> IsPostgres(b[k]))
    requires SameShape(a, b)
    requires !ShieldedQuote(Code, WriteAll(a)) && !ShieldedQuote(Code, WriteAll(b))
    ensures Mask(WriteAll(a)) == Mask(WriteAll(b))
    ensures RejectionOf(patterns, WriteAll(a)) == RejectionOf(patterns, WriteAll(b))
  {
    hide WriteAll, BlankAll, ShieldedQuote, IsPostgres, Masked, PostgresMasked;
    MasksAgree(Code, Code, WriteAll(a));
    MasksAgree(Code, Code, WriteAll(b));
    PostgresMaskOfSegments(a);
    PostgresMaskOfSegments(b);
    SameShapeBlanks(a, b);
  }

  /** Where one does, contents can matter: the literal that holds just a backslash does not end for the masker. */
  lemma ShieldedContentsMatter()
    ensures Mask("'a'x") == "   x" && Mask("'\\'x") == "    "
    ensures ShieldedQuote(Code, "'\\'x") && !ShieldedQuote(Code, "'a'x")
    ensures PostgresMasked(Code, "'\\'x") == PostgresMasked(Code, "'a'x") == "   x"
  {
    var (s, t) := ("'a'x", "'\\'x");
    assert s[1..] == "a'x" && "a'x"[1..] == "'x" && "'x"[1..] == "x" && "x"[1..] == "";
    assert t[1..] == "\\'x" && "\\'x"[1..] == "'x";
  }
}
