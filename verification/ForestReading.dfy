/** A well-formed forest is the only reading of its print, and the arguments of a call are its top-level
    comma-separated pieces. */
module ForestReading {
  import opened Text
  import opened Lexer
  import opened Dialects
  import opened Fragments
  import opened Calls
  import opened Forests

  // ---------------------------------------------------------------------------------------------------------------
  // One reading only

  lemma ParseWord(text: string, t: string)
    requires IsWord(text) && (t != "" ==> !IsIdentifierChar(t[0]))
    ensures Parse(text + t) == (Word(text, Parse(t).0), Parse(t).1)
    ensures ParseAll(text + t) == Word(text, ParseAll(t))
  {
    hide WordLength;
    WordLengthOf(text, t);
    assert (text + t)[..|text|] == text && (text + t)[|text|..] == t;
    assert IsIdentifierChar(text[0]);
  }

  lemma {:induction false} ParseFragment(text: string, t: string)
    requires text != "" && IsQuote(text[0]) && FragmentLength(text) == |text|
    requires if FragmentClosed(text) then !StartsWith(t, text[0]) else t == ""
    ensures Parse(text + t) == (Fragment(text, Parse(t).0), Parse(t).1)
    ensures ParseAll(text + t) == Fragment(text, ParseAll(t))
  {
    hide Body;
    if FragmentClosed(text) {
      FragmentLengthOf(text, t);
    } else {
      assert text + t == text;
    }
    assert (text + t)[..|text|] == text && (text + t)[|text|..] == t;
  }

  lemma ParseSymbol(c: char, t: string)
    requires !IsIdentifierChar(c) && !IsQuote(c) && c != '('
    ensures c != ')' ==> Parse([c] + t) == (Symbol(c, Parse(t).0), Parse(t).1)
    ensures ParseAll([c] + t) == Symbol(c, ParseAll(t))
  {
    assert ([c] + t)[1..] == t;
  }

  lemma ParseGroup(inner: Forest, t: string)
    requires Parse(Print(inner) + (")" + t)) == (inner, ")" + t)
    ensures var s := "(" + (Print(inner) + (")" + t));
            && Parse(s) == (Group(inner, Parse(t).0), Parse(t).1)
            && ParseAll(s) == Group(inner, ParseAll(t))
  {
    var s := "(" + (Print(inner) + (")" + t));
    assert s[1..] == Print(inner) + (")" + t);
    assert (")" + t)[1..] == t;
  }

  lemma ParseStray(inner: Forest)
    requires Parse(Print(inner)) == (inner, "")
    ensures Parse("(" + Print(inner)) == (Symbol('(', inner), "")
    ensures ParseAll("(" + Print(inner)) == Symbol('(', inner)
  {
    assert ("(" + Print(inner))[1..] == Print(inner);
  }

  /** Inside a group, and at the top once no closing parenthesis can be unmatched any more. */
  lemma {:induction false} ParseOfPrint(f: Forest, top: bool, rest: string)
    requires WellFormed(f, top) && Follows(top, rest) && (top ==> NoStrayClose(f))
    ensures Parse(Print(f) + rest) == (f, rest)
    decreases f
  {
    hide Body, WordLength, Parse;
    FirstOf(f, top, rest);
    match f
    case Nil =>
      ParseOfRest(rest);
    case Word(text, next) =>
      ConcatAssoc(text, Print(next), rest);
      FirstOf(next, top, rest);
      ParseOfPrint(next, top, rest);
      ParseWord(text, Print(next) + rest);
    case Fragment(text, next) =>
      ConcatAssoc(text, Print(next), rest);
      if FragmentClosed(text) {
        NextIsNoSuchQuote(f, top, rest);
      }
      ParseOfPrint(next, top, rest);
      ParseFragment(text, Print(next) + rest);
    case Symbol(c, next) =>
      ConcatAssoc([c], Print(next), rest);
      ParseOfPrint(next, top, rest);
      if c == '(' {
        assert Print(next) + rest == Print(next);
        ParseStray(next);
      } else {
        ParseSymbol(c, Print(next) + rest);
      }
    case Group(inner, next) =>
      var t := Print(next) + rest;
      GroupThen(inner, next, rest);
      ParseOfPrint(inner, false, ")" + t);
      ParseOfPrint(next, top, rest);
      ParseGroup(inner, t);
  }

  lemma ParseOfRest(rest: string)
    requires rest == "" || rest[0] == ')'
    ensures "" + rest == rest && Parse(rest) == (Nil, rest)
  {
  }

  /** Printing and parsing undo each other: with `ParseAllIsFaithful`, well-formed forests and texts correspond one to
      one. */
  lemma {:induction false} ParseAllOfPrint(f: Forest)
    requires WellFormed(f, true)
    ensures ParseAll(Print(f)) == f
    decreases f
  {
    hide Body, WordLength, ParseAll;
    assert Print(f) + "" == Print(f);
    match f
    case Nil =>
      ParseAllOfNothing();
    case Word(text, next) =>
      assert Print(next) + "" == Print(next);
      FirstOf(next, true, "");
      ParseAllOfPrint(next);
      ParseWord(text, Print(next));
    case Fragment(text, next) =>
      assert Print(next) + "" == Print(next);
      if FragmentClosed(text) {
        NextIsNoSuchQuote(f, true, "");
      }
      ParseAllOfPrint(next);
      ParseFragment(text, Print(next));
    case Symbol(c, next) =>
      if c == '(' {
        assert Print(next) + "" == Print(next);
        ParseOfPrint(next, true, "");
        ParseStray(next);
      } else {
        ParseAllOfPrint(next);
        ParseSymbol(c, Print(next));
      }
    case Group(inner, next) =>
      ParseOfPrint(inner, false, ")" + Print(next));
      ParseAllOfPrint(next);
      ParseGroup(inner, Print(next));
  }

  lemma ParseAllOfNothing()
    ensures ParseAll("") == Nil
  {
  }

  // ---------------------------------------------------------------------------------------------------------------
  // The arguments of a call

  /** No backslash inside backticks, at any level: there the splitter and the copier read alike. */
  predicate PlainBackticks(f: Forest) {
    match f
    case Nil => true
    case Word(_, next) => PlainBackticks(next)
    case Symbol(_, next) => PlainBackticks(next)
    case Fragment(text, next) => (StartsWith(text, '`') ==> NoBackslash(text)) && PlainBackticks(next)
    case Group(inner, next) => PlainBackticks(inner) && PlainBackticks(next)
  }

  /** The prints between the commas among the siblings; commas inside groups and fragments do not count. */
  function ArgumentPieces(f: Forest): (ps: seq<string>)
    ensures ps != []
  {
    match f
    case Nil => [""]
    case Word(text, next) => Csv.Onto(text, ArgumentPieces(next))
    case Fragment(text, next) => Csv.Onto(text, ArgumentPieces(next))
    case Symbol(c, next) => if c == ',' then [""] + ArgumentPieces(next) else Csv.Onto([c], ArgumentPieces(next))
    case Group(inner, next) => Csv.Onto("(" + (Print(inner) + ")"), ArgumentPieces(next))
  }

  /** Read from code at a depth, the text holds no separator and comes back to where it began. */
  ghost predicate Balanced(depth: nat, s: string) {
    Csv.Whole(Code, depth, s) && Csv.End(Code, depth, s) == (Code, depth)
  }

  lemma BalancedConcat(depth: nat, a: string, b: string)
    requires Balanced(depth, a) && Balanced(depth, b)
    ensures Balanced(depth, a + b)
  {
    hide Csv.Whole, Csv.End;
    Csv.WholeConcat(Code, depth, a, b);
  }

  lemma {:induction false} WordIsBalanced(depth: nat, text: string)
    requires forall k :: 0 <= k < |text| ==> IsIdentifierChar(text[k])
    ensures Balanced(depth, text)
    decreases text
  {
    if text != "" {
      assert IsIdentifierChar(text[0]);
      WordIsBalanced(depth, text[1..]);
    }
  }

  lemma {:induction false} BodyIsBalanced(depth: nat, q: char, s: string)
    requires IsQuote(q) && Body(q, s) == Extent(|s|, true) && (q == '`' ==> NoBackslash(s))
    ensures Csv.Whole(Quoted(q), depth, s) && Csv.End(Quoted(q), depth, s) == (Code, depth)
    decreases s
  {
    assert s != "" && (q == '`' ==> s[0] in s);
    if s[0] == '\\' || (s[0] == q && |s| > 1 && s[1] == q) {
      BodyIsBalanced(depth, q, s[2..]);
      var st := Step(CsvDialect, Quoted(q), s[0]);
      assert s[1..][0] == s[1] && s[1..][1..] == s[2..];
      assert Step(CsvDialect, st, s[1]) == Quoted(q) && s[1..] != "";
      assert Csv.End(st, depth, s[1..]) == Csv.End(Quoted(q), depth, s[2..]);
      assert Csv.Whole(st, depth, s[1..]);
    } else if s[0] == q {
      assert s[1..] == "";
      assert Csv.End(Code, depth, s[1..]) == (Code, depth);
    } else {
      BodyIsBalanced(depth, q, s[1..]);
    }
  }

  lemma FragmentIsBalanced(depth: nat, text: string)
    requires text != "" && IsQuote(text[0]) && FragmentLength(text) == |text| && FragmentClosed(text)
    requires StartsWith(text, '`') ==> NoBackslash(text)
    ensures Balanced(depth, text)
  {
    hide Body;
    BodyIsBalanced(depth, text[0], text[1..]);
  }

  lemma SymbolIsBalanced(depth: nat, c: char)
    requires !IsQuote(c) && c != '(' && c != ')' && (c == ',' ==> depth > 0)
    ensures Balanced(depth, [c])
  {
    assert [c][1..] == "";
    assert Csv.End(Code, depth, [c][1..]) == (Code, depth) && Csv.Whole(Code, depth, [c][1..]);
  }

  lemma GroupIsBalanced(depth: nat, inner: string)
    requires Balanced(depth + 1, inner)
    ensures Balanced(depth, "(" + (inner + ")"))
  {
    var s := "(" + (inner + ")");
    assert s[1..] == inner + ")";
    Csv.WholeConcat(Code, depth + 1, inner, ")");
    assert ")"[1..] == "";
    assert Csv.End(Code, depth, ")"[1..]) == (Code, depth) && Csv.Whole(Code, depth, ")"[1..]);
  }

  /** Below the top level a forest has no separators at all. */
  lemma {:induction false} ForestIsBalanced(depth: nat, f: Forest)
    requires WellFormed(f, false) && PlainBackticks(f) && depth > 0
    ensures Balanced(depth, Print(f))
    decreases f
  {
    hide Body, Balanced;
    match f
    case Nil =>
      WordIsBalanced(depth, "");
    case Word(text, next) =>
      ForestIsBalanced(depth, next);
      WordIsBalanced(depth, text);
      BalancedConcat(depth, text, Print(next));
    case Fragment(text, next) =>
      ForestIsBalanced(depth, next);
      FragmentIsBalanced(depth, text);
      BalancedConcat(depth, text, Print(next));
    case Symbol(c, next) =>
      ForestIsBalanced(depth, next);
      SymbolIsBalanced(depth, c);
      BalancedConcat(depth, [c], Print(next));
    case Group(inner, next) =>
      ForestIsBalanced(depth + 1, inner);
      ForestIsBalanced(depth, next);
      GroupIsBalanced(depth, Print(inner));
      BalancedConcat(depth, "(" + (Print(inner) + ")"), Print(next));
      ConcatAssoc(Print(inner), ")", Print(next));
      ConcatAssoc("(", Print(inner) + ")", Print(next));
  }

  /** A text without separators in front of another goes onto its first piece. */
  lemma {:induction false} PiecesBehindWhole(st: State, depth: nat, a: string, b: string)
    requires Csv.Whole(st, depth, a)
    ensures Csv.Pieces(st, depth, a + b) ==
            Csv.Onto(a, Csv.Pieces(Csv.End(st, depth, a).0, Csv.End(st, depth, a).1, b))
    decreases a
  {
    if a == "" {
      assert a + b == b;
      Csv.OntoNothing(Csv.Pieces(st, depth, b));
    } else {
      assert (a + b)[1..] == a[1..] + b;
      PiecesBehindWhole(Step(CsvDialect, st, a[0]), Csv.Deeper(st, depth, a[0]), a[1..], b);
      Csv.OntoTwice([a[0]], a[1..], Csv.Pieces(Csv.End(st, depth, a).0, Csv.End(st, depth, a).1, b));
      assert [a[0]] + a[1..] == a;
    }
  }

  lemma PiecesBehindBalanced(a: string, b: string)
    requires Balanced(0, a)
    ensures Csv.Pieces(Code, 0, a + b) == Csv.Onto(a, Csv.Pieces(Code, 0, b))
  {
    hide Csv.Whole, Csv.End, Csv.Pieces;
    PiecesBehindWhole(Code, 0, a, b);
  }

  lemma PiecesBehindComma(b: string)
    ensures Csv.Pieces(Code, 0, [','] + b) == [""] + Csv.Pieces(Code, 0, b)
  {
    assert ([','] + b)[1..] == b;
  }

  /** The text split of an argument list cuts exactly at the commas that the forest shows at its top level. */
  lemma {:induction false} SplitFollowsForest(f: Forest)
    requires WellFormed(f, false) && PlainBackticks(f)
    ensures Csv.Pieces(Code, 0, Print(f)) == ArgumentPieces(f)
    decreases f
  {
    hide Body, Balanced, Csv.Pieces;
    match f
    case Nil =>
      Csv.PiecesOfNothing(Code, 0, "");
    case Word(text, next) =>
      SplitFollowsForest(next);
      WordIsBalanced(0, text);
      PiecesBehindBalanced(text, Print(next));
    case Fragment(text, next) =>
      SplitFollowsForest(next);
      FragmentIsBalanced(0, text);
      PiecesBehindBalanced(text, Print(next));
    case Symbol(c, next) =>
      SplitFollowsForest(next);
      if c == ',' {
        PiecesBehindComma(Print(next));
      } else {
        SymbolIsBalanced(0, c);
        PiecesBehindBalanced([c], Print(next));
      }
    case Group(inner, next) =>
      SplitFollowsForest(next);
      ForestIsBalanced(1, inner);
      GroupIsBalanced(0, Print(inner));
      PiecesBehindBalanced("(" + (Print(inner) + ")"), Print(next));
      ConcatAssoc(Print(inner), ")", Print(next));
      ConcatAssoc("(", Print(inner) + ")", Print(next));
  }

  /** What a call is rendered from: the trimmed top-level pieces of its group, unless one of them is blank. */
  lemma {:induction false} CallArguments(render: Renderer, inner: Forest)
    requires WellFormed(inner, false) && PlainBackticks(inner)
    ensures RenderArgs(render, Print(inner)) ==
            match Csv.Outcome(ArgumentPieces(inner))
            case Err(_) => None
            case Ok(parts) => render(parts)
  {
    hide Csv.Outcome, Csv.Pieces, Print;
    SplitFollowsForest(inner);
  }
}
