/** The hand-written passes one after the other: what they together keep of the placeholders. */
module Passes {
  import opened Text
  import opened Lexer
  import opened Fragments
  import opened Literals
  import opened LiteralStability
  import opened Placeholders
  import opened NeutralMarks
  import opened Conservation
  import CreateTable

  // ---------------------------------------------------------------------------------------------------------------
  // Reading a text that has at most single quotes and backquoted names

  /** A double quote is only read inside a single-quoted literal. */
  predicate SingleQuoted(st: State, s: string)
    decreases s
  {
    s != "" ==>
      && (s[0] == '"' ==> st == Quoted('\'') || st == Escaped('\''))
      && SingleQuoted(Next(st, s[0]), s[1..])
  }

  /** What two passes have to agree on: the text is safe, ends outside quotes, and holds these marks. */
  predicate Reads(m: char -> bool, st: State, s: string, marks: string) {
    Safe(st, s) && Reach(st, s).InCode() && Marks(m, st, s) == marks && SingleQuoted(st, s)
  }

  lemma {:induction false} SingleQuotedConcat(st: State, a: string, b: string)
    ensures SingleQuoted(st, a + b) <==> SingleQuoted(st, a) && SingleQuoted(Reach(st, a), b)
    decreases a
  {
    if a == "" {
      assert a + b == b;
    } else {
      assert (a + b)[1..] == a[1..] + b;
      SingleQuotedConcat(Next(st, a[0]), a[1..], b);
    }
  }

  lemma {:induction false} ReadsConcat(m: char -> bool, st: State, a: string, b: string, marks: string)
    requires Safe(st, a) && SingleQuoted(st, a) && Reads(m, Reach(st, a), b, marks)
    ensures Reads(m, st, a + b, Marks(m, st, a) + marks)
  {
    hide Safe, Marks, SingleQuoted, Reach;
    ReadConcat(m, st, a, b);
    SingleQuotedConcat(st, a, b);
  }

  // ---------------------------------------------------------------------------------------------------------------
  // The pre-pass

  /** Double-quoted values survive a second reading, and no name in backticks holds a double quote. */
  predicate Passable(s: string)
    decreases |s|
  {
    if s == "" then true
    else if IsQuote(s[0]) then
      && (s[0] == '"' ==> Tame(MySqlBody('"', s[1..]).value))
      && (s[0] == '`' ==> '"' !in s[..FragmentLength(s)])
      && Passable(s[FragmentLength(s)..])
    else Passable(s[1..])
  }

  /** A fragment that is never closed is never left. */
  lemma {:induction false} UnclosedStays(q: char, s: string)
    requires IsQuote(q) && !Body(q, s).closed && Safe(Quoted(q), s)
    ensures Reach(Quoted(q), s).InQuote()
    decreases s
  {
    if s != "" {
      var st := Next(Quoted(q), s[0]);
      if |s| > 1 && (s[0] == '\\' || (s[0] == q && s[1] == q)) {
        assert s[1..][1..] == s[2..] && Safe(st, s[1..]) && Next(st, s[1]) == Quoted(q);
        UnclosedStays(q, s[2..]);
        assert Reach(st, s[1..]) == Reach(Quoted(q), s[2..]);
      } else if s[0] == '\\' {
        assert s[1..] == "" && After(PrepareDialect, st, "") == st;
      } else {
        UnclosedStays(q, s[1..]);
      }
    }
  }

  /** The inside of a fragment holds no marks, and if it is single-quoted or a name without double quotes, it is single
      quoted in the above sense. */
  lemma {:induction false} BodyHasNoMarks(m: char -> bool, q: char, s: string)
    requires NeutralClass(m) && IsQuote(q) && Body(q, s) == Extent(|s|, true) && Safe(Quoted(q), s)
    ensures Marks(m, Quoted(q), s) == ""
    ensures q == '\'' || (q == '`' && '"' !in s) ==> SingleQuoted(Quoted(q), s)
    decreases s
  {
    assert s != "" && (m(q) ==> Neutral(q));
    var st := Next(Quoted(q), s[0]);
    if s[0] == '\\' || (s[0] == q && |s| > 1 && s[1] == q) {
      assert s[1..][0] == s[1] && s[1..][1..] == s[2..] && s[1..] != "";
      assert Safe(st, s[1..]) && Next(st, s[1]) == Quoted(q);
      BodyHasNoMarks(m, q, s[2..]);
      assert Marks(m, st, s[1..]) == Marks(m, Quoted(q), s[2..]);
      assert q == '\'' || (q == '`' && '"' !in s) ==> SingleQuoted(st, s[1..]);
    } else if s[0] == q {
      assert s[1..] == "" && Marks(m, st, "") == "" && SingleQuoted(st, "");
    } else {
      BodyHasNoMarks(m, q, s[1..]);
    }
  }

  /** A closed fragment. */
  lemma {:induction false} FragmentHasNoMarks(m: char -> bool, st: State, f: string)
    requires NeutralClass(m) && st.InCode() && f != "" && IsQuote(f[0])
    requires FragmentLength(f) == |f| && FragmentClosed(f) && Safe(st, f)
    ensures Marks(m, st, f) == "" && Reach(st, f) == Code
    ensures f[0] == '\'' || (f[0] == '`' && '"' !in f) ==> SingleQuoted(st, f)
  {
    hide Body;
    FragmentReads(st, f);
    BodyHasNoMarks(m, f[0], f[1..]);
    assert m(f[0]) ==> Neutral(f[0]);
    assert '"' !in f ==> '"' !in f[1..];
  }

  /** No unpaired backslash stands before a quote, or at the end where the closing quote will stand. */
  predicate Unshielded(v: string) {
    if v == "" then true
    else if v[0] == '\\' then |v| > 1 && v[1] != '\'' && Unshielded(v[2..])
    else Unshielded(v[1..])
  }

  lemma {:induction false} TameIsUnshielded(v: string)
    requires Tame(v)
    ensures Unshielded(v)
  {
    assert '\'' == "0bnrtZ'\"\\"[6];
    if v != "" {
      TameIsUnshielded(v[if v[0] == '\\' then 2 else 1..]);
    }
  }

  /** The doubled form of such a value, up to its closing quote. */
  lemma {:induction false} UnshieldedReads(m: char -> bool, v: string)
    requires NeutralClass(m) && Unshielded(v)
    ensures var s := Doubled('\'', v) + "'";
            && Safe(Quoted('\''), s) && Reach(Quoted('\''), s) == Code
            && Marks(m, Quoted('\''), s) == "" && SingleQuoted(Quoted('\''), s)
    decreases v
  {
    var q := Quoted('\'');
    assert m('\'') ==> Neutral('\'');
    if v == "" {
      QuoteReads(m);
      assert Doubled('\'', v) + "'" == "'";
    } else {
      var n := Piece(v);
      var rest := Doubled('\'', v[n..]) + "'";
      UnshieldedReads(m, v[n..]);
      DoubledSplit(v, n);
      DoubledPiece(v, n);
      ConcatAssoc(Doubled('\'', v[..n]), Doubled('\'', v[n..]), "'");
      PieceReads(m, Doubled('\'', v[..n]));
      ReadConcat(m, q, Doubled('\'', v[..n]), rest);
      SingleQuotedConcat(q, Doubled('\'', v[..n]), rest);
    }
  }

  lemma {:induction false} QuoteReads(m: char -> bool)
    requires NeutralClass(m)
    ensures Safe(Quoted('\''), "'") && Reach(Quoted('\''), "'") == Code
    ensures Marks(m, Quoted('\''), "'") == "" && SingleQuoted(Quoted('\''), "'")
  {
    assert "'"[1..] == "";
    assert After(PrepareDialect, Code, "") == Code && Safe(Code, "") && Marks(m, Code, "") == "";
  }

  /** One step of such a value: a doubled quote, a backslash with an ordinary character, or another character. */
  lemma {:induction false} PieceReads(m: char -> bool, p: string)
    requires NeutralClass(m)
    requires p == "''" || (|p| == 2 && p[0] == '\\') || (|p| == 1 && p[0] != '\\' && p[0] != '\'')
    ensures Safe(Quoted('\''), p) && Reach(Quoted('\''), p) == Quoted('\'')
    ensures Marks(m, Quoted('\''), p) == "" && SingleQuoted(Quoted('\''), p)
  {
    var q := Quoted('\'');
    var st := Next(q, p[0]);
    assert m('\'') ==> Neutral('\'');
    if |p| == 1 {
      assert p[1..] == "" && st == q;
    } else {
      assert p[1..] == [p[1]] && p[1..][1..] == "" && Next(st, p[1]) == q;
      assert Reach(st, p[1..]) == Reach(q, p[1..][1..]);
    }
    assert After(PrepareDialect, q, "") == q && Safe(q, "") && Marks(m, q, "") == "" && SingleQuoted(q, "");
  }

  lemma {:induction false} EncodedReads(m: char -> bool, st: State, v: string)
    requires NeutralClass(m) && Unshielded(v) && st.InCode()
    ensures Safe(st, Encode(v)) && Reach(st, Encode(v)) == Code
    ensures Marks(m, st, Encode(v)) == "" && SingleQuoted(st, Encode(v))
  {
    hide Doubled, Unshielded;
    UnshieldedReads(m, v);
    ConcatAssoc("'", Doubled('\'', v), "'");
    assert Encode(v)[1..] == Doubled('\'', v) + "'";
    assert m('\'') ==> Neutral('\'');
  }

  lemma {:induction false} PrePassKeeps(m: char -> bool, st: State, s: string)
    requires NeutralClass(m) && st.InCode() && Safe(st, s) && Reach(st, s).InCode() && Passable(s)
    ensures Reads(m, st, Requoted(s), Marks(m, st, s))
    decreases |s|
  {
    hide Body, MySqlBody, Marks, Safe, After, Encode, Tame, FragmentLength, FragmentClosed;
    if s == "" {
      NothingReads(m, st);
    } else if IsQuote(s[0]) {
      var n := FragmentLength(s);
      SplitAt(s, n);
      ReadConcat(m, st, s[..n], s[n..]);
      FragmentIsClosed(st, s);
      FragmentHasNoMarks(m, st, s[..n]);
      PrePassKeeps(m, Code, s[n..]);
      assert "" + Marks(m, Code, s[n..]) == Marks(m, Code, s[n..]);
      RequotedByFragment(s);
      if s[0] == '"' {
        TameIsUnshielded(MySqlBody('"', s[1..]).value);
        EncodedReads(m, st, MySqlBody('"', s[1..]).value);
        ReadsConcat(m, st, Encode(MySqlBody('"', s[1..]).value), Requoted(s[n..]), Marks(m, Code, s[n..]));
      } else {
        ReadsConcat(m, st, s[..n], Requoted(s[n..]), Marks(m, Code, s[n..]));
      }
    } else {
      SplitAt(s, 1);
      assert s[..1] == [s[0]];
      SymbolReads(st, s[0], s[1..]);
      OneReads(m, st, s[0]);
      ReadConcat(m, st, [s[0]], s[1..]);
      PrePassKeeps(m, Next(st, s[0]), s[1..]);
      ReadsConcat(m, st, [s[0]], Requoted(s[1..]), Marks(m, Next(st, s[0]), s[1..]));
    }
  }

  lemma {:induction false} NothingReads(m: char -> bool, st: State)
    requires st.InCode()
    ensures Requoted("") == "" && Reads(m, st, "", Marks(m, st, ""))
  {
  }

  lemma {:induction false} OneReads(m: char -> bool, st: State, c: char)
    requires c != '"'
    ensures Reach(st, [c]) == Next(st, c) && SingleQuoted(st, [c])
  {
    AfterOne(st, c);
    assert [c][1..] == "";
  }

  lemma {:induction false} RequotedByFragment(s: string)
    requires s != "" && IsQuote(s[0])
    ensures var n := FragmentLength(s);
            Requoted(s) == (if s[0] == '"' then Encode(MySqlBody('"', s[1..]).value) else s[..n]) + Requoted(s[n..])
  {
    hide Body, MySqlBody, Encode;
    SameExtent('"', s[1..]);
  }

  /** In a text that ends outside quotes every fragment is closed. */
  lemma {:induction false} FragmentIsClosed(st: State, s: string)
    requires st.InCode() && s != "" && IsQuote(s[0]) && Safe(st, s) && Reach(st, s).InCode()
    ensures FragmentClosed(s)
    ensures var f := s[..FragmentLength(s)]; FragmentLength(f) == |f| && FragmentClosed(f)
  {
    hide Body;
    if FragmentClosed(s) {
      BodyOfPrefix(s[0], s[1..]);
      assert s[..FragmentLength(s)][1..] == s[1..][..FragmentLength(s) - 1];
    } else {
      UnclosedStays(s[0], s[1..]);
    }
  }

  // ---------------------------------------------------------------------------------------------------------------
  // Backticks and case

  /** Names that were quoted by backticks are quoted by double quotes. */
  function Renamed(st: State): State {
    if st == Quoted('`') then Quoted('"') else st
  }

  lemma {:induction false} BackticksKeep(m: char -> bool, st: State, s: string)
    requires NeutralClass(m) && Safe(st, s) && SingleQuoted(st, s)
    requires st.Quoted? || st.Escaped? ==> st in {Quoted('\''), Escaped('\''), Quoted('`')}
    ensures var t := CreateTable.ReplaceBackticks(s);
            && Safe(Renamed(st), t) && Marks(m, Renamed(st), t) == Marks(m, st, s)
            && Reach(Renamed(st), t) == Renamed(Reach(st, s))
    decreases s
  {
    var t := CreateTable.ReplaceBackticks(s);
    if s != "" {
      assert t[1..] == CreateTable.ReplaceBackticks(s[1..]);
      assert (m('`') ==> Neutral('`')) && (m('"') ==> Neutral('"'));
      BackticksKeep(m, Next(st, s[0]), s[1..]);
      assert Next(Renamed(st), t[0]) == Renamed(Next(st, s[0]));
    }
  }

  lemma {:induction false} CaseKeeps(m: char -> bool, st: State, a: string, b: string)
    requires NeutralClass(m) && |a| == |b| && forall k :: 0 <= k < |a| ==> Upper(a[k]) == Upper(b[k])
    requires st.InQuote() ==> IsQuote(st.quote)
    ensures Safe(st, a) <==> Safe(st, b)
    ensures Marks(m, st, a) == Marks(m, st, b) && Reach(st, a) == Reach(st, b)
    decreases a
  {
    if a != "" {
      assert Upper(a[0]) == Upper(b[0]);
      assert a[0] == b[0] || (IsIdentifierChar(a[0]) && IsIdentifierChar(b[0]));
      assert m(a[0]) ==> Neutral(a[0]);
      assert m(b[0]) ==> Neutral(b[0]);
      forall k | 0 <= k < |a[1..]| ensures Upper(a[1..][k]) == Upper(b[1..][k]) {
        assert Upper(a[k + 1]) == Upper(b[k + 1]);
      }
      assert Next(st, a[0]) == Next(st, b[0]);
      CaseKeeps(m, Next(st, a[0]), a[1..], b[1..]);
    }
  }
}
