/** Rewriting the calls of a clean text keeps its marks. */
module Conservation {
  import opened Text
  import opened Lexer
  import opened Fragments
  import opened Calls
  import opened Forests
  import opened Placeholders
  import opened NeutralMarks
  import opened Renderings

  // ---------------------------------------------------------------------------------------------------------------
  // The split arguments of a clean group are clean and hold its marks

  /** The splitter's state and the scanner's state over the same safe text. */
  predicate Related(csv: State, st: State) {
    || (csv == Code && st.InCode())
    || (csv == st && st.InQuote() && IsQuote(st.quote) && (st.Escaped? ==> st.quote != '`'))
  }

  lemma {:induction false} SplitterAgrees(csv: State, depth: nat, st: State, s: string)
    requires Related(csv, st) && Safe(st, s)
    ensures Related(Csv.End(csv, depth, s).0, Reach(st, s))
    decreases s
  {
    if s != "" {
      assert Related(Step(CsvDialect, csv, s[0]), Next(st, s[0]));
      SplitterAgrees(Step(CsvDialect, csv, s[0]), Csv.Deeper(csv, depth, s[0]), Next(st, s[0]), s[1..]);
    }
  }

  lemma ClosedPieceIsClean(p: string)
    requires Safe(Code, p) && Csv.Closed(p)
    ensures Clean(p)
  {
    hide Safe, After, Csv.End;
    SplitterAgrees(Code, 0, Code, p);
  }

  predicate AllClean(ps: seq<string>) {
    forall k :: 0 <= k < |ps| ==> Clean(ps[k])
  }

  lemma CommaReads(m: char -> bool, st: State, rest: string)
    requires NeutralClass(m) && st.InCode()
    ensures Reach(st, "," + rest) == Reach(Code, rest)
    ensures Safe(st, "," + rest) <==> Safe(Code, rest)
    ensures Marks(m, st, "," + rest) == Marks(m, Code, rest)
  {
    assert ("," + rest)[1..] == rest;
    assert m(',') ==> Neutral(',');
  }

  lemma {:induction false} PiecesAreClean(m: char -> bool, ps: seq<string>)
    requires NeutralClass(m) && ps != [] && Clean(Join(ps, ","))
    requires forall k :: 0 <= k < |ps| - 1 ==> Csv.Closed(ps[k])
    ensures AllClean(ps)
    ensures MarksOf(m, ps) == Marks(m, Code, Join(ps, ","))
    decreases |ps|
  {
    hide Marks, Safe, After, Csv.End;
    var p := ps[0];
    if |ps| == 1 {
      assert Marks(m, Code, p) + "" == Marks(m, Code, p) && ps[1..] == [];
    } else {
      var rest := Join(ps[1..], ",");
      ConcatAssoc(p, ",", rest);
      ReadConcat(m, Code, p, "," + rest);
      assert Csv.Closed(ps[0]);
      ClosedPieceIsClean(p);
      CommaReads(m, Reach(Code, p), rest);
      forall k | 0 <= k < |ps[1..]| - 1 ensures Csv.Closed(ps[1..][k]) {
        assert ps[1..][k] == ps[k + 1];
      }
      PiecesAreClean(m, ps[1..]);
      forall k | 0 <= k < |ps| ensures Clean(ps[k]) {
        assert k > 0 ==> ps[k] == ps[1..][k - 1];
      }
    }
  }

  /** Trailing blanks neither close a quote nor open a comment. */
  lemma {:induction false} BlanksRead(m: char -> bool, st: State, s: string)
    requires NeutralClass(m) && AllSpace(s) && !st.InComment() && (st.InQuote() ==> IsQuote(st.quote))
    ensures Marks(m, st, s) == ""
    ensures Reach(st, s).InCode() ==> st.InCode()
    ensures st == Code ==> Reach(st, s) == Code
    decreases s
  {
    if s != "" {
      assert IsSpace(s[0]) && (m(s[0]) ==> Neutral(s[0]));
      BlanksRead(m, Next(st, s[0]), s[1..]);
    }
  }

  lemma TrimKeepsClean(m: char -> bool, p: string)
    requires NeutralClass(m) && Clean(p)
    ensures Clean(Trim(p)) && Marks(m, Code, Trim(p)) == Marks(m, Code, p)
  {
    hide Marks, Safe, After, Csv.End, Trim;
    var lead, trail := TrimSplits(p);
    var t := Trim(p);
    ReadConcat(m, Code, lead, t + trail);
    BlanksRead(m, Code, lead);
    ReadConcat(m, Code, t, trail);
    SplitterAgrees(Code, 0, Code, t);
    BlanksRead(m, Reach(Code, t), trail);
    assert "" + (Marks(m, Code, t) + "") == Marks(m, Code, t);
  }

  lemma {:induction false} TrimAllKeepsClean(m: char -> bool, ps: seq<string>)
    requires NeutralClass(m) && AllClean(ps)
    ensures CleanParts(Csv.TrimAll(ps)) && MarksOf(m, Csv.TrimAll(ps)) == MarksOf(m, ps)
  {
    hide Marks, Safe, After, Trim, Clean;
    if ps != [] {
      var rest := ps[1..];
      forall k | 0 <= k < |rest| ensures Clean(rest[k]) {
        assert rest[k] == ps[k + 1];
      }
      TrimAllKeepsClean(m, rest);
      assert Clean(ps[0]);
      TrimKeepsClean(m, ps[0]);
      var lead, trail := TrimSplits(ps[0]);
      var all := Csv.TrimAll(ps);
      assert all[1..] == Csv.TrimAll(rest);
      forall k | 0 <= k < |all| ensures Clean(all[k]) && Trimmed(all[k]) {
        assert k > 0 ==> all[k] == Csv.TrimAll(rest)[k - 1];
      }
    }
  }

  /** A clean argument text that splits gives clean parts with its marks. */
  lemma {:induction false} ArgumentsKeepMarks(m: char -> bool, args: string)
    requires NeutralClass(m) && Clean(args) && Csv.Split(args).Ok?
    ensures CleanParts(Csv.Split(args).value)
    ensures MarksOf(m, Csv.Split(args).value) == Marks(m, Code, args)
  {
    hide Marks, Safe, After, Trim, Clean, Csv.End, Csv.Outcome, Csv.Pieces, Csv.TrimAll, MarksOf, CleanParts;
    var ps := Csv.Pieces(Code, 0, args);
    Csv.OutcomeOfPieces(ps);
    Csv.PiecesJoinToText(Code, 0, args);
    forall k | 0 <= k < |ps| - 1 ensures Csv.Closed(ps[k]) {
      Csv.PiecesAreWhole(Code, 0, args, k);
    }
    PiecesAreClean(m, ps);
    TrimAllKeepsClean(m, ps);
  }

  // ---------------------------------------------------------------------------------------------------------------
  // Forests

  /** A closed fragment without backslash in backticks is left in code. */
  lemma {:induction false} ClosedBodyReads(q: char, s: string)
    requires IsQuote(q) && Body(q, s) == Extent(|s|, true) && Safe(Quoted(q), s)
    ensures Reach(Quoted(q), s) == Code
    decreases s
  {
    assert s != "";
    if s[0] == '\\' || (s[0] == q && |s| > 1 && s[1] == q) {
      assert s[1..][1..] == s[2..] && s[1..] != "";
      var st := Next(Quoted(q), s[0]);
      assert Safe(st, s[1..]);
      assert Next(st, s[1]) == Quoted(q);
      ClosedBodyReads(q, s[2..]);
      assert Reach(st, s[1..]) == Reach(Quoted(q), s[2..]);
    } else if s[0] == q {
      assert s[1..] == "" && After(PrepareDialect, Code, "") == Code;
    } else {
      ClosedBodyReads(q, s[1..]);
    }
  }

  lemma {:induction false} FragmentReads(st: State, text: string)
    requires st.InCode() && text != "" && IsQuote(text[0]) && FragmentLength(text) == |text| && FragmentClosed(text)
    requires Safe(st, text)
    ensures Reach(st, text) == Code
  {
    hide Body;
    ClosedBodyReads(text[0], text[1..]);
  }

  /** Inside a group every forest ends in code. */
  lemma {:induction false} InnerEndsInCode(m: char -> bool, f: Forest, st: State)
    requires NeutralClass(m) && WellFormed(f, false) && st.InCode() && Safe(st, Print(f))
    ensures Reach(st, Print(f)).InCode()
    decreases f
  {
    hide Body, Marks;
    match f
    case Nil =>
    case Word(text, next) =>
      ReadConcat(m, st, text, Print(next));
      WordIsCode(st, text);
      InnerEndsInCode(m, next, Code);
    case Fragment(text, next) =>
      ReadConcat(m, st, text, Print(next));
      FragmentReads(st, text);
      InnerEndsInCode(m, next, Code);
    case Symbol(c, next) =>
      SymbolReads(st, c, Print(next));
      InnerEndsInCode(m, next, Next(st, c));
    case Group(inner, next) =>
      GroupReads(m, st, Print(inner), Print(next));
      InnerEndsInCode(m, inner, Code);
      InnerEndsInCode(m, next, Code);
  }

  lemma {:induction false} SymbolReads(st: State, c: char, rest: string)
    requires st.InCode() && !IsQuote(c) && Safe(st, [c] + rest)
    ensures Next(st, c).InCode() && Safe(Next(st, c), rest)
    ensures Reach(st, [c] + rest) == Reach(Next(st, c), rest)
  {
    assert ([c] + rest)[1..] == rest;
  }

  /** A parenthesised text in front of another. */
  lemma {:induction false} GroupReads(m: char -> bool, st: State, inner: string, rest: string)
    requires NeutralClass(m) && st.InCode()
    ensures var s := "(" + (inner + (")" + rest));
            && (Safe(st, s) ==> Safe(Code, inner))
            && (Reach(Code, inner).InCode() ==>
                  && (Safe(st, s) <==> Safe(Code, inner) && Safe(Code, rest))
                  && Reach(st, s) == Reach(Code, rest)
                  && Marks(m, st, s) == Marks(m, Code, inner) + Marks(m, Code, rest))
  {
    hide Marks, Safe, After;
    ParenthesisReads(m, st, '(', inner + (")" + rest));
    ReadConcat(m, Code, inner, ")" + rest);
    if Reach(Code, inner).InCode() {
      ParenthesisReads(m, Reach(Code, inner), ')', rest);
    }
  }

  lemma {:induction false} ParenthesisReads(m: char -> bool, st: State, c: char, rest: string)
    requires NeutralClass(m) && st.InCode() && (c == '(' || c == ')')
    ensures Reach(st, [c] + rest) == Reach(Code, rest)
    ensures Safe(st, [c] + rest) <==> Safe(Code, rest)
    ensures Marks(m, st, [c] + rest) == Marks(m, Code, rest)
  {
    assert ([c] + rest)[1..] == rest;
    assert m(c) ==> Neutral(c);
  }

  // ---------------------------------------------------------------------------------------------------------------
  // The transform keeps the marks

  /** `b` may stand in for `a`: it is as safe, leaves the scanner in the same state and holds the same marks. */
  predicate Kept(m: char -> bool, ordered: bool, st: State, a: string, b: string) {
    Safe(st, b) && Reach(st, b) == Reach(st, a) && SameMarks(ordered, Marks(m, st, b), Marks(m, st, a))
  }

  lemma {:induction false} KeptConcat(m: char -> bool, ordered: bool, st: State, a: string, b: string,
                                      a': string, b': string)
    requires Kept(m, ordered, st, a, b) && Kept(m, ordered, Reach(st, a), a', b')
    ensures Kept(m, ordered, st, a + a', b + b')
  {
    hide Marks, Safe, After;
    ReadConcat(m, st, a, a');
    ReadConcat(m, st, b, b');
  }

  lemma {:induction false} KeptSelf(m: char -> bool, ordered: bool, st: State, a: string)
    requires Safe(st, a)
    ensures Kept(m, ordered, st, a, a)
  {
  }

  lemma {:induction false} BlanksBefore(f: Forest) returns (blanks: string)
    ensures Print(f) == blanks + Print(SkipBlanks(f)) && AllSpace(blanks)
  {
    if f.Symbol? && IsSpace(f.c) {
      blanks := BlanksBefore(f.next);
      ConcatAssoc([f.c], blanks, Print(SkipBlanks(f.next)));
      blanks := [f.c] + blanks;
    } else {
      blanks := "";
    }
  }

  /** A rendered call: its source text, and that the replacement may stand in for it. */
  lemma {:induction false} CallKeeps(m: char -> bool, ordered: bool, name: string, render: Renderer, f: Forest,
                                     top: bool, st: State)
      returns (call: string)
    requires NeutralClass(m) && Keeps(m, render, ordered) && st.InCode()
    requires f.Word? && IsWord(f.text) && WellFormed(SkipBlanks(f.next), top) && Safe(st, Print(f))
    ensures CallOf(name, render, f).Some? ==>
              && Print(f) == call + Print(SkipBlanks(f.next).next)
              && Reach(st, call) == Code && Kept(m, ordered, st, call, CallOf(name, render, f).value)
    ensures CallOf(name, render, f).Some? ==>
              var parts := Csv.Split(Print(SkipBlanks(f.next).inner));
              && parts.Ok? && CleanParts(parts.value) && render(parts.value) == CallOf(name, render, f)
              && Marks(m, st, call) == MarksOf(m, parts.value)
  {
    hide Body, Marks, Safe, After, Csv.Split, WellFormed, SkipBlanks, Print, Solid;
    call := "";
    if CallOf(name, render, f).Some? {
      var target := SkipBlanks(f.next);
      var args := Print(target.inner);
      var after := Print(target.next);
      var blanks := BlanksBefore(f.next);
      var open := f.text + blanks + "(";
      call := open + (args + ")");
      CallText(f, target, blanks);
      GroupIsWellFormed(target);
      assert AllInert(open);
      InertReads(m, st, open);
      ReadConcat(m, st, open, args + (")" + after));
      ReadConcat(m, Code, args, ")" + after);
      InnerEndsInCode(m, target.inner, Code);
      var replacement := CallOf(name, render, f).value;
      SolidInert(m, ")");
      SolidSegment(m, open, args, ")", "");
      SolidFromAnyCode(m, st, call, Marks(m, Code, args) + "");
      assert Marks(m, Code, args) + "" == Marks(m, Code, args);
      ArgumentsKeepMarks(m, args);
      var parts := Csv.Split(args).value;
      assert CleanParts(parts) && render(parts) == Some(replacement);
      var marks :| Solid(m, render(parts).value, marks) && SameMarks(ordered, marks, MarksOf(m, parts));
      SolidFromAnyCode(m, st, replacement, marks);
    }
  }

  lemma {:induction false} GroupIsWellFormed(target: Forest)
    requires target.Group? && (WellFormed(target, true) || WellFormed(target, false))
    ensures WellFormed(target.inner, false)
  {
  }

  lemma {:induction false} CallText(f: Forest, target: Forest, blanks: string)
    requires f.Word? && target.Group? && Print(f.next) == blanks + Print(target)
    ensures Print(f) == (f.text + blanks + "(") + (Print(target.inner) + (")" + Print(target.next)))
    ensures Print(f) == (f.text + blanks + "(") + (Print(target.inner) + ")") + Print(target.next)
  {
    var (i, n) := (Print(target.inner), Print(target.next));
    ConcatAssoc(blanks, "(", i + (")" + n));
    ConcatAssoc(f.text, blanks + "(", i + (")" + n));
    ConcatAssoc(f.text, blanks, "(");
    ConcatAssoc(i, ")", n);
    ConcatAssoc(f.text + blanks + "(", i + ")", n);
  }

  lemma {:induction false} TransformKeeps(m: char -> bool, ordered: bool, name: string, render: Renderer, f: Forest,
                                          top: bool, st: State)
    requires NeutralClass(m) && Keeps(m, render, ordered)
    requires WellFormed(f, top) && st.InCode() && Safe(st, Print(f)) && Reach(st, Print(f)).InCode()
    ensures Kept(m, ordered, st, Print(f), Emit(name, render, f).0)
    decreases f
  {
    hide Body, Marks, CallOf, Kept;
    match f
    case Nil =>
      KeptSelf(m, ordered, st, "");
    case Word(text, next) =>
      BlanksKeepWellFormed(next, top);
      if CallOf(name, render, f).Some? {
        var call := CallKeeps(m, ordered, name, render, f, top, st);
        var after := SkipBlanks(next).next;
        ReadConcat(m, st, call, Print(after));
        TransformKeeps(m, ordered, name, render, after, top, Code);
        KeptConcat(m, ordered, st, call, CallOf(name, render, f).value, Print(after), Emit(name, render, after).0);
      } else {
        ReadConcat(m, st, text, Print(next));
        WordIsCode(st, text);
        TransformKeeps(m, ordered, name, render, next, top, Code);
        KeptSelf(m, ordered, st, text);
        KeptConcat(m, ordered, st, text, text, Print(next), Emit(name, render, next).0);
      }
    case Fragment(text, next) =>
      ReadConcat(m, st, text, Print(next));
      if FragmentClosed(text) {
        FragmentReads(st, text);
        TransformKeeps(m, ordered, name, render, next, top, Code);
        KeptSelf(m, ordered, st, text);
        KeptConcat(m, ordered, st, text, text, Print(next), Emit(name, render, next).0);
      } else {
        assert Print(f) == text && Emit(name, render, f).0 == text;
        KeptSelf(m, ordered, st, text);
      }
    case Symbol(c, next) =>
      SymbolReads(st, c, Print(next));
      ReadConcat(m, st, [c], Print(next));
      AfterOne(st, c);
      TransformKeeps(m, ordered, name, render, next, top, Next(st, c));
      KeptSelf(m, ordered, st, [c]);
      KeptConcat(m, ordered, st, [c], [c], Print(next), Emit(name, render, next).0);
    case Group(inner, next) =>
      GroupReads(m, st, Print(inner), Print(next));
      InnerEndsInCode(m, inner, Code);
      TransformKeeps(m, ordered, name, render, inner, false, Code);
      TransformKeeps(m, ordered, name, render, next, top, Code);
      KeptGroup(m, ordered, st, Print(inner), Print(next), Emit(name, render, inner).0, Emit(name, render, next).0);
  }

  lemma {:induction false} KeptGroup(m: char -> bool, ordered: bool, st: State, inner: string, next: string,
                                     inner': string, next': string)
    requires NeutralClass(m) && st.InCode() && Reach(Code, inner).InCode()
    requires Kept(m, ordered, Code, inner, inner') && Kept(m, ordered, Code, next, next')
    ensures Kept(m, ordered, st, "(" + (inner + (")" + next)), "(" + (inner' + (")" + next')))
  {
    hide Marks, Safe, After;
    GroupReads(m, st, inner, next);
    GroupReads(m, st, inner', next');
  }

  lemma {:induction false} BlanksKeepWellFormed(f: Forest, top: bool)
    requires WellFormed(f, top)
    ensures WellFormed(SkipBlanks(f), top)
  {
    if f.Symbol? && IsSpace(f.c) {
      BlanksKeepWellFormed(f.next, top);
    }
  }

  // ---------------------------------------------------------------------------------------------------------------
  // Texts

  /** Rewriting the calls of a clean text keeps it clean and keeps its marks. */
  lemma {:induction false} RewritingKeeps(m: char -> bool, ordered: bool, name: string, render: Renderer, s: string)
    requires NeutralClass(m) && Keeps(m, render, ordered) && Clean(s)
    ensures Clean(Rewritten(name, render, s).0)
    ensures SameMarks(ordered, Marks(m, Code, Rewritten(name, render, s).0), Marks(m, Code, s))
  {
    hide Marks, Safe, After, Rewritten, Emit, Print, WellFormed, ParseAll, Keeps;
    var f := ParseAll(s);
    ParseAllIsFaithful(s);
    RewriterOnText(name, render, s);
    TransformKeeps(m, ordered, name, render, f, true, Code);
  }
}
