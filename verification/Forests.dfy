/** SQL text as a bracketed structure, and what `rewrite_function_calls` does to it.

    A forest is a text cut into words, quoted fragments, single symbols and parenthesised groups. Every text is the
    print of exactly one well-formed forest, so a statement about all well-formed forests is one about all texts. */
module Forests {
  import opened Text
  import opened Fragments
  import opened Calls

  datatype Forest =
    | Nil
    | Word(text: string, next: Forest)
    | Fragment(text: string, next: Forest)
    | Symbol(c: char, next: Forest)
    | Group(inner: Forest, next: Forest)

  function Print(f: Forest): string {
    match f
    case Nil => ""
    case Word(text, next) => text + Print(next)
    case Fragment(text, next) => text + Print(next)
    case Symbol(c, next) => [c] + Print(next)
    case Group(inner, next) => "(" + (Print(inner) + (")" + Print(next)))
  }

  /** No unmatched closing parenthesis among the siblings. */
  predicate NoStrayClose(f: Forest) {
    match f
    case Nil => true
    case Symbol(c, next) => c != ')' && NoStrayClose(next)
    case Word(_, next) => NoStrayClose(next)
    case Fragment(_, next) => NoStrayClose(next)
    case Group(_, next) => NoStrayClose(next)
  }

  /** Words and fragments are maximal, groups are balanced. Only at the top may parentheses stay unmatched, closing
      ones before opening ones, and may a last fragment stay open. */
  predicate WellFormed(f: Forest, top: bool) {
    match f
    case Nil => true
    case Word(text, next) => IsWord(text) && !next.Word? && WellFormed(next, top)
    case Fragment(text, next) =>
      && text != "" && IsQuote(text[0]) && FragmentLength(text) == |text|
      && (if FragmentClosed(text)
          then !(next.Fragment? && StartsWith(next.text, text[0])) && WellFormed(next, top)
          else top && next.Nil?)
    case Symbol(c, next) =>
      && !IsIdentifierChar(c) && !IsQuote(c)
      && (c == '(' ==> top && NoStrayClose(next))
      && (c == ')' ==> top)
      && WellFormed(next, top)
    case Group(inner, next) => WellFormed(inner, false) && WellFormed(next, top)
  }

  // ---------------------------------------------------------------------------------------------------------------
  // The transform

  /** The forest after leading blanks. */
  function SkipBlanks(f: Forest): (r: Forest)
    ensures r == f || r < f
  {
    if f.Symbol? && IsSpace(f.c) then SkipBlanks(f.next) else f
  }

  /** The replacement of the call that the word at the head of `f` makes, if it makes one that renders. */
  function CallOf(name: string, render: Renderer, f: Forest): (r: Option<string>)
    requires f.Word?
    ensures r.Some? ==> SkipBlanks(f.next).Group?
  {
    var target := SkipBlanks(f.next);
    if EqIgnoreCase(f.text, name) && target.Group? then RenderArgs(render, Print(target.inner)) else None
  }

  /** The text in which exactly the outermost renderable calls are replaced: nothing inside a replacement is looked
      at again, and calls that are not rendered are descended into. Second, whether anything was replaced. */
  function Emit(name: string, render: Renderer, f: Forest): (string, bool) {
    match f
    case Nil => ("", false)
    case Word(text, next) =>
      (match CallOf(name, render, f)
       case Some(replacement) =>
         (replacement + Emit(name, render, SkipBlanks(next).next).0, true)
       case None => Before(text, Emit(name, render, next)))
    case Fragment(text, next) => Before(text, Emit(name, render, next))
    case Symbol(c, next) => Before([c], Emit(name, render, next))
    case Group(inner, next) =>
      var (i, n) := (Emit(name, render, inner), Emit(name, render, next));
      ("(" + (i.0 + (")" + n.0)), i.1 || n.1)
  }

  // ---------------------------------------------------------------------------------------------------------------
  // Reading the print of a forest

  /** What may follow the print of a forest: nothing at the top, a closing parenthesis inside a group. */
  predicate Follows(top: bool, rest: string) {
    if top then rest == "" else StartsWith(rest, ')')
  }

  /** The first character of a print tells the kind of the first node. */
  lemma FirstOf(f: Forest, top: bool, rest: string)
    requires WellFormed(f, top) && Follows(top, rest)
    ensures var s := Print(f) + rest;
            && (f.Nil? ==> s == rest)
            && (f.Word? ==> s != "" && IsIdentifierChar(s[0]) && s[0] == f.text[0])
            && (f.Fragment? ==> s != "" && IsQuote(s[0]) && s[0] == f.text[0])
            && (f.Symbol? ==> s != "" && s[0] == f.c)
            && (f.Group? ==> s != "" && s[0] == '(')
  {
  }

  lemma WordLengthOf(text: string, rest: string)
    requires IsWord(text) && (rest != "" ==> !IsIdentifierChar(rest[0]))
    ensures WordLength(text + rest) == |text|
  {
    SpanIs(IsIdentifierChar, text + rest, |text|);
  }

  lemma {:induction false} BlanksSkipped(f: Forest, top: bool, rest: string)
    requires WellFormed(f, top) && Follows(top, rest)
    ensures var s := Print(f) + rest;
            && s[SpaceLength(s)..] == Print(SkipBlanks(f)) + rest
            && WellFormed(SkipBlanks(f), top)
            && (NoStrayClose(f) ==> NoStrayClose(SkipBlanks(f)))
  {
    FirstOf(f, top, rest);
    if f.Symbol? && IsSpace(f.c) {
      BlanksSkipped(f.next, top, rest);
      var s, t := Print(f) + rest, Print(f.next) + rest;
      ConcatAssoc([f.c], Print(f.next), rest);
      assert s[1..] == t;
      assert s[1 + SpaceLength(t)..] == t[SpaceLength(t)..];
    } else {
      var s := Print(f) + rest;
      assert SkipBlanks(f) == f;
      assert s != "" ==> !IsSpace(s[0]);
      assert SpaceLength(s) == 0 && s[0..] == s;
    }
  }

  /** A closed fragment reads back as itself in front of what may follow it. */
  lemma FragmentLengthOf(text: string, rest: string)
    requires text != "" && IsQuote(text[0]) && FragmentLength(text) == |text| && FragmentClosed(text)
    requires !StartsWith(rest, text[0])
    ensures FragmentLength(text + rest) == |text|
    ensures (text + rest)[|text|..] == rest
  {
    assert (text + rest)[1..] == text[1..] + rest;
    BodyOfClosed(text[0], text[1..], rest);
  }

  lemma NextIsNoSuchQuote(f: Forest, top: bool, rest: string)
    requires WellFormed(f, top) && Follows(top, rest) && f.Fragment? && FragmentClosed(f.text)
    ensures !StartsWith(Print(f.next) + rest, f.text[0])
  {
    FirstOf(f.next, top, rest);
  }

  lemma FurtherTwice(n: nat, m: nat, r: Option<nat>)
    ensures Further(n, Further(m, r)) == Further(n + m, r)
  {
  }

  lemma CloseOfSymbol(c: char, t: string, depth: nat)
    requires !IsQuote(c) && c != '(' && c != ')'
    ensures CloseOffset([c] + t, depth) == Further(1, CloseOffset(t, depth))
  {
    assert ([c] + t)[1..] == t;
  }

  lemma CloseOfFragment(text: string, t: string, depth: nat)
    requires text != "" && IsQuote(text[0]) && FragmentLength(text) == |text| && FragmentClosed(text)
    requires !StartsWith(t, text[0])
    ensures CloseOffset(text + t, depth) == Further(|text|, CloseOffset(t, depth))
  {
    hide Body;
    FragmentLengthOf(text, t);
  }

  lemma CloseJoins(piece: string, next: string, rest: string, depth: nat, end: Option<nat>)
    requires CloseOffset(piece + (next + rest), depth) == Further(|piece|, CloseOffset(next + rest, depth))
    requires CloseOffset(next + rest, depth) == Further(|next|, end)
    ensures CloseOffset((piece + next) + rest, depth) == Further(|piece + next|, end)
  {
    hide CloseOffset;
    ConcatAssoc(piece, next, rest);
    FurtherTwice(|piece|, |next|, end);
  }

  /** Inside a group the closing parenthesis is looked for behind the print of the inner forest. */
  lemma {:induction false} CloseBehind(f: Forest, rest: string, depth: nat)
    requires WellFormed(f, false) && Follows(false, rest) && depth >= 1
    ensures CloseOffset(Print(f) + rest, depth) == Further(|Print(f)|, CloseOffset(rest, depth))
    decreases f
  {
    hide FragmentLength, FragmentClosed, CloseOffset;
    var end := CloseOffset(rest, depth);
    match f
    case Nil =>
      assert "" + rest == rest && Further(0, end) == end;
    case Word(text, next) =>
      CloseBehind(next, rest, depth);
      CloseSkipsWord(text, Print(next) + rest, depth);
      CloseJoins(text, Print(next), rest, depth, end);
    case Fragment(text, next) =>
      NextIsNoSuchQuote(f, false, rest);
      CloseOfFragment(text, Print(next) + rest, depth);
      CloseBehind(next, rest, depth);
      CloseJoins(text, Print(next), rest, depth, end);
    case Symbol(c, next) =>
      CloseOfSymbol(c, Print(next) + rest, depth);
      CloseBehind(next, rest, depth);
      CloseJoins([c], Print(next), rest, depth, end);
    case Group(inner, next) =>
      var t := Print(next) + rest;
      GroupThen(inner, next, rest);
      CloseBehind(inner, ")" + t, depth + 1);
      CloseBehind(next, rest, depth);
      CloseOfGroup(Print(f) + rest, Print(inner), t, depth);
      FurtherTwice(|Print(inner)| + 2, |Print(next)|, end);
  }

  /** The print of a group in front of a text. */
  lemma GroupThen(inner: Forest, next: Forest, rest: string)
    ensures Print(Group(inner, next)) + rest == "(" + (Print(inner) + (")" + (Print(next) + rest)))
  {
    ConcatAssoc(")", Print(next), rest);
    ConcatAssoc(Print(inner), ")" + Print(next), rest);
    ConcatAssoc("(", Print(inner) + (")" + Print(next)), rest);
  }

  lemma CloseOfGroup(s: string, inner: string, t: string, depth: nat)
    requires depth >= 1 && s == "(" + (inner + (")" + t))
    requires CloseOffset(inner + (")" + t), depth + 1) == Further(|inner|, CloseOffset(")" + t, depth + 1))
    ensures CloseOffset(s, depth) == Further(|inner| + 2, CloseOffset(t, depth))
  {
    hide Body;
    assert s[1..] == inner + (")" + t);
    assert (")" + t)[1..] == t;
    assert CloseOffset(")" + t, depth + 1) == Further(1, CloseOffset(t, depth));
    FurtherTwice(|inner|, 1, CloseOffset(t, depth));
    FurtherTwice(1, |inner| + 1, CloseOffset(t, depth));
  }

  lemma {:induction false} CloseSkipsWord(text: string, t: string, depth: nat)
    requires forall k :: 0 <= k < |text| ==> IsIdentifierChar(text[k])
    ensures CloseOffset(text + t, depth) == Further(|text|, CloseOffset(t, depth))
    decreases text
  {
    hide Body;
    if text == "" {
      assert text + t == t;
      assert Further(0, CloseOffset(t, depth)) == CloseOffset(t, depth);
    } else {
      assert (text + t)[1..] == text[1..] + t;
      CloseSkipsWord(text[1..], t, depth);
      FurtherTwice(1, |text| - 1, CloseOffset(t, depth));
    }
  }

  /** An unmatched opening parenthesis has no match in the text either. */
  lemma {:induction false} CloseNever(f: Forest, depth: nat)
    requires WellFormed(f, true) && NoStrayClose(f) && depth >= 1
    ensures CloseOffset(Print(f), depth) == None
    decreases f
  {
    hide Body;
    assert Print(f) + "" == Print(f);
    FirstOf(f, true, "");
    match f
    case Nil =>
    case Word(text, next) =>
      CloseNever(next, depth);
      CloseSkipsWord(text, Print(next), depth);
    case Fragment(text, next) =>
      if FragmentClosed(text) {
        NextIsNoSuchQuote(f, true, "");
        assert Print(next) + "" == Print(next);
        FragmentLengthOf(text, Print(next));
        CloseNever(next, depth);
      } else {
        assert Print(f) == text && text[|text|..] == "";
      }
    case Symbol(c, next) =>
      assert Print(f)[1..] == Print(next);
      CloseNever(next, if c == '(' then depth + 1 else depth);
    case Group(inner, next) =>
      CloseBehind(inner, ")" + Print(next), depth + 1);
      CloseOfGroup(Print(f), Print(inner), Print(next), depth);
      CloseNever(next, depth);
  }

  lemma WordThen(f: Forest, top: bool, rest: string)
    requires f.Word? && WellFormed(f, top) && Follows(top, rest)
    ensures Print(f) + rest == f.text + (Print(f.next) + rest)
    ensures WordLength(Print(f) + rest) == |f.text| && f.text != "" && WellFormed(f.next, top)
  {
    ConcatAssoc(f.text, Print(f.next), rest);
    FirstOf(f.next, top, rest);
    WordLengthOf(f.text, Print(f.next) + rest);
  }

  lemma GroupAtOpen(f: Forest, top: bool, rest: string)
    requires f.Group? && WellFormed(f, top) && Follows(top, rest)
    ensures (Print(f) + rest)[1..] == Print(f.inner) + (")" + (Print(f.next) + rest))
    ensures CloseOffset((Print(f) + rest)[1..], 1) == Some(|Print(f.inner)|)
  {
    var t := Print(f.next) + rest;
    GroupThen(f.inner, f.next, rest);
    assert (Print(f) + rest)[1..] == Print(f.inner) + (")" + t);
    CloseBehind(f.inner, ")" + t, 1);
  }

  lemma StrayAtOpen(f: Forest, top: bool, rest: string)
    requires WellFormed(f, top) && Follows(top, rest) && !f.Group? && StartsWith(Print(f) + rest, '(')
    ensures CloseOffset((Print(f) + rest)[1..], 1) == None
  {
    FirstOf(f, top, rest);
    assert top && f.Symbol? && f.c == '(';
    assert (Print(f) + rest)[1..] == Print(f.next);
    CloseNever(f.next, 1);
  }

  /** What the text shows behind a word: the blanks, then the node that the forest shows there. */
  lemma BehindWord(f: Forest, top: bool, rest: string) returns (open: nat)
    requires f.Word? && WellFormed(f, top) && Follows(top, rest)
    ensures var s := Print(f) + rest; var target := SkipBlanks(f.next);
            && |f.text| <= open <= |s| && open == |f.text| + SpaceLength(s[|f.text|..])
            && s[..|f.text|] == f.text && s[|f.text|..] == Print(f.next) + rest
            && s[open..] == Print(target) + rest
            && WellFormed(target, top)
            && (StartsWith(s[open..], '(') <==> target.Group? || (target.Symbol? && target.c == '('))
  {
    hide SpaceLength, WordLength, Print, SkipBlanks;
    var s := Print(f) + rest;
    var t := Print(f.next) + rest;
    WordThen(f, top, rest);
    BlanksSkipped(f.next, top, rest);
    open := |f.text| + SpaceLength(t);
    assert s[open..] == t[SpaceLength(t)..];
    FirstOf(SkipBlanks(f.next), top, rest);
  }

  /** The call found in the text at a word is the call the forest shows. */
  lemma CallInForest(name: string, render: Renderer, f: Forest, top: bool, rest: string)
    requires f.Word? && WellFormed(f, top) && Follows(top, rest)
    ensures match CallOf(name, render, f)
            case None => CallAt(name, render, Print(f) + rest) == None
            case Some(replacement) =>
              var after := Print(SkipBlanks(f.next).next) + rest;
              && |Print(f) + rest| >= |after|
              && (Print(f) + rest)[|Print(f) + rest| - |after|..] == after
              && CallAt(name, render, Print(f) + rest) == Some((replacement, |Print(f) + rest| - |after|))
  {
    hide WordLength, SpaceLength, CloseOffset, RenderArgs, EqIgnoreCase, Print, WellFormed, SkipBlanks, CallAt;
    var s := Print(f) + rest;
    var target := SkipBlanks(f.next);
    var open := BehindWord(f, top, rest);
    WordThen(f, top, rest);
    CallAtIndex(name, render, s, 0, |f.text|, open);
    assert s[0..] == s && s[0..|f.text|] == f.text;
    if StartsWith(s[open..], '(') {
      assert s[open + 1..] == s[open..][1..];
      if target.Group? {
        GroupAtOpen(target, top, rest);
        GroupSlices(s, open, Print(target.inner), Print(target.next) + rest);
      } else {
        StrayAtOpen(target, top, rest);
      }
    }
  }

  lemma GroupSlices(s: string, open: nat, inner: string, after: string)
    requires open < |s| && s[open + 1..] == inner + (")" + after)
    ensures s[open + 1..open + 1 + |inner|] == inner
    ensures |s| - |after| == open + 1 + |inner| + 1 && s[|s| - |after|..] == after
  {
    assert s[open + 1..][..|inner|] == inner;
    assert s[open + 1..][|inner| + 1..] == after;
  }

  // ---------------------------------------------------------------------------------------------------------------
  // The text rewriter refines the transform

  lemma BeforeAssoc(a: string, r: (string, bool), b: string, changed: bool)
    ensures (a + (r.0 + b), r.1 || changed) == (Before(a, r).0 + b, Before(a, r).1 || changed)
  {
    ConcatAssoc(a, r.0, b);
  }

  /** What the loop makes of the print of a forest in front of a text. */
  ghost predicate Refines(name: string, render: Renderer, f: Forest, rest: string) {
    Rewritten(name, render, Print(f) + rest) ==
    (Emit(name, render, f).0 + Rewritten(name, render, rest).0,
     Emit(name, render, f).1 || Rewritten(name, render, rest).1)
  }

  lemma RefineGroup(name: string, render: Renderer, inner: Forest, next: Forest, rest: string)
    requires Refines(name, render, inner, ")" + (Print(next) + rest)) && Refines(name, render, next, rest)
    ensures Refines(name, render, Group(inner, next), rest)
  {
    hide Body, CallAt, WordLength;
    var t := Print(next) + rest;
    var s := Print(Group(inner, next)) + rest;
    GroupThen(inner, next, rest);
    assert s[1..] == Print(inner) + (")" + t);
    assert (")" + t)[1..] == t;
    var (i, n, tail) := (Emit(name, render, inner), Emit(name, render, next), Rewritten(name, render, rest));
    assert Rewritten(name, render, ")" + t) == Before(")", (n.0 + tail.0, n.1 || tail.1));
    ConcatAssoc(")", n.0, tail.0);
    ConcatAssoc(i.0, ")" + n.0, tail.0);
    ConcatAssoc("(", i.0 + (")" + n.0), tail.0);
  }

  lemma RefineFragment(name: string, render: Renderer, f: Forest, top: bool, rest: string)
    requires f.Fragment? && WellFormed(f, top) && Follows(top, rest)
    requires Refines(name, render, f.next, rest)
    ensures Refines(name, render, f, rest)
  {
    hide Body, CallAt, WordLength;
    var (text, next) := (f.text, f.next);
    var s, t := Print(f) + rest, Print(next) + rest;
    ConcatAssoc(text, Print(next), rest);
    if FragmentClosed(text) {
      NextIsNoSuchQuote(f, top, rest);
      FragmentLengthOf(text, t);
    } else {
      assert s == text && t == "";
    }
    assert FragmentLength(s) == |text| && s[..|text|] == text && s[|text|..] == t;
    BeforeAssoc(text, Emit(name, render, next), Rewritten(name, render, rest).0, Rewritten(name, render, rest).1);
  }

  lemma {:induction false} RefineWord(name: string, render: Renderer, f: Forest, top: bool, rest: string)
    requires f.Word? && WellFormed(f, top) && Follows(top, rest)
    requires CallOf(name, render, f).None? ==> Refines(name, render, f.next, rest)
    requires CallOf(name, render, f).Some? ==> Refines(name, render, SkipBlanks(f.next).next, rest)
    ensures Refines(name, render, f, rest)
  {
    hide Body, CallAt, CallOf, WordLength, Print, WellFormed;
    var s := Print(f) + rest;
    var tail := Rewritten(name, render, rest);
    WordThen(f, top, rest);
    FirstOf(f, top, rest);
    CallInForest(name, render, f, top, rest);
    match CallOf(name, render, f)
    case None =>
      assert s[..|f.text|] == f.text && s[|f.text|..] == Print(f.next) + rest;
      BeforeAssoc(f.text, Emit(name, render, f.next), tail.0, tail.1);
    case Some(replacement) =>
      var after := SkipBlanks(f.next).next;
      ConcatAssoc(replacement, Emit(name, render, after).0, tail.0);
  }

  lemma {:induction false} RewriterRefinesTransform(name: string, render: Renderer, f: Forest, top: bool, rest: string)
    requires WellFormed(f, top) && Follows(top, rest)
    ensures Refines(name, render, f, rest)
    decreases f
  {
    hide Body, CallAt, CallOf, WordLength, RenderArgs, EqIgnoreCase;
    var s := Print(f) + rest;
    var tail := Rewritten(name, render, rest);
    FirstOf(f, top, rest);
    match f
    case Nil =>
      assert "" + tail.0 == tail.0;
    case Word(text, next) =>
      BlanksSkipped(next, top, rest);
      if CallOf(name, render, f).Some? {
        RewriterRefinesTransform(name, render, SkipBlanks(next).next, top, rest);
      } else {
        RewriterRefinesTransform(name, render, next, top, rest);
      }
      RefineWord(name, render, f, top, rest);
    case Fragment(text, next) =>
      RewriterRefinesTransform(name, render, next, top, rest);
      RefineFragment(name, render, f, top, rest);
    case Symbol(c, next) =>
      RewriterRefinesTransform(name, render, next, top, rest);
      ConcatAssoc([c], Print(next), rest);
      assert s[1..] == Print(next) + rest;
      BeforeAssoc([c], Emit(name, render, next), tail.0, tail.1);
    case Group(inner, next) =>
      var t := ")" + (Print(next) + rest);
      RewriterRefinesTransform(name, render, inner, false, t);
      RewriterRefinesTransform(name, render, next, top, rest);
      RefineGroup(name, render, inner, next, rest);
  }

  // ---------------------------------------------------------------------------------------------------------------
  // Every text is the print of a well-formed forest

  /** The forest up to the first unmatched closing parenthesis, and the text from there on. An opening parenthesis
      that is never closed becomes a symbol. */
  function Parse(s: string): (r: (Forest, string))
    ensures r.1 == "" || StartsWith(r.1, ')')
    ensures |r.1| <= |s|
    decreases |s|
  {
    if s == "" || s[0] == ')' then (Nil, s)
    else if IsQuote(s[0]) then
      var (f, rest) := Parse(s[FragmentLength(s)..]);
      (Fragment(s[..FragmentLength(s)], f), rest)
    else if IsIdentifierChar(s[0]) then
      var (f, rest) := Parse(s[WordLength(s)..]);
      (Word(s[..WordLength(s)], f), rest)
    else if s[0] == '(' then
      var (inner, behind) := Parse(s[1..]);
      if behind == "" then (Symbol('(', inner), "")
      else
        var (f, rest) := Parse(behind[1..]);
        (Group(inner, f), rest)
    else
      var (f, rest) := Parse(s[1..]);
      (Symbol(s[0], f), rest)
  }

  /** The forest of a whole text: unmatched closing parentheses become symbols at the top. */
  function ParseAll(s: string): Forest
    decreases |s|
  {
    if s == "" then Nil
    else if IsQuote(s[0]) then Fragment(s[..FragmentLength(s)], ParseAll(s[FragmentLength(s)..]))
    else if IsIdentifierChar(s[0]) then Word(s[..WordLength(s)], ParseAll(s[WordLength(s)..]))
    else if s[0] == '(' then
      var (inner, behind) := Parse(s[1..]);
      if behind == "" then Symbol('(', inner) else Group(inner, ParseAll(behind[1..]))
    else Symbol(s[0], ParseAll(s[1..]))
  }

  lemma {:induction false} WordPrefixIsWord(s: string)
    requires s != "" && IsIdentifierChar(s[0])
    ensures IsWord(s[..WordLength(s)])
    ensures WordLength(s) < |s| ==> !IsIdentifierChar(s[WordLength(s)])
    decreases s
  {
    if |s| > 1 && IsIdentifierChar(s[1]) {
      WordPrefixIsWord(s[1..]);
      assert s[..WordLength(s)] == [s[0]] + s[1..][..WordLength(s[1..])];
    }
  }

  lemma FragmentPrefix(s: string)
    requires s != "" && IsQuote(s[0])
    ensures var text := s[..FragmentLength(s)];
            && FragmentLength(text) == |text| && (FragmentClosed(text) <==> FragmentClosed(s))
            && (FragmentClosed(s) ==> !StartsWith(s[FragmentLength(s)..], s[0]))
            && (!FragmentClosed(s) ==> s[FragmentLength(s)..] == "")
  {
    var n := FragmentLength(s);
    assert s[..n][1..] == s[1..][..n - 1];
    if FragmentClosed(s) {
      BodyOfPrefix(s[0], s[1..]);
      if n < |s| {
        BodyNotDoubled(s[0], s[1..]);
      }
    } else {
      assert s[..n] == s;
    }
  }

  /** A well-formed forest whose print, with the rest, is the text. */
  ghost predicate Faithful(s: string, f: Forest, rest: string) {
    && Print(f) + rest == s
    && WellFormed(f, rest == "")
    && (rest == "" ==> NoStrayClose(f))
    && (f.Word? ==> s != "" && IsIdentifierChar(s[0]))
    && (f.Fragment? ==> s != "" && f.text != "" && f.text[0] == s[0])
  }

  lemma FaithfulGroup(s: string, inner: Forest, behind: string, f: Forest, rest: string)
    requires s != "" && s[0] == '(' && behind != "" && behind[0] == ')'
    requires Faithful(s[1..], inner, behind) && Faithful(behind[1..], f, rest)
    ensures Faithful(s, Group(inner, f), rest)
  {
    hide Print;
    GroupThen(inner, f, rest);
    assert ")" + behind[1..] == behind;
    assert "(" + s[1..] == s;
  }

  lemma FaithfulStray(s: string, inner: Forest)
    requires s != "" && s[0] == '(' && Faithful(s[1..], inner, "")
    ensures Faithful(s, Symbol('(', inner), "")
  {
    assert Print(inner) + "" == Print(inner);
    assert [s[0]] + s[1..] == s;
    assert Print(Symbol('(', inner)) + "" == s;
  }

  lemma FaithfulFragment(s: string, n: nat, f: Forest, rest: string)
    requires s != "" && IsQuote(s[0]) && n == FragmentLength(s) && Faithful(s[n..], f, rest)
    ensures Faithful(s, Fragment(s[..n], f), rest)
  {
    hide Body;
    FragmentPrefix(s);
    ConcatAssoc(s[..n], Print(f), rest);
    SplitAt(s, n);
  }

  lemma {:induction false} FaithfulWord(s: string, n: nat, f: Forest, rest: string)
    requires s != "" && IsIdentifierChar(s[0]) && n == WordLength(s) && Faithful(s[n..], f, rest)
    ensures Faithful(s, Word(s[..n], f), rest)
  {
    hide WordLength;
    WordPrefixIsWord(s);
    ConcatAssoc(s[..n], Print(f), rest);
    SplitAt(s, n);
  }

  lemma FaithfulSymbol(s: string, f: Forest, rest: string)
    requires s != "" && !IsIdentifierChar(s[0]) && !IsQuote(s[0]) && s[0] != '(' && s[0] != ')'
    requires Faithful(s[1..], f, rest)
    ensures Faithful(s, Symbol(s[0], f), rest)
  {
    ConcatAssoc([s[0]], Print(f), rest);
    assert [s[0]] + s[1..] == s;
  }

  lemma {:induction false} ParseIsFaithful(s: string)
    ensures Faithful(s, Parse(s).0, Parse(s).1)
    decreases |s|
  {
    hide Body, WordLength, Faithful;
    if s == "" || s[0] == ')' {
      NothingParsed(s);
    } else if IsQuote(s[0]) {
      var n := FragmentLength(s);
      ParseIsFaithful(s[n..]);
      FaithfulFragment(s, n, Parse(s[n..]).0, Parse(s[n..]).1);
    } else if IsIdentifierChar(s[0]) {
      var n := WordLength(s);
      ParseIsFaithful(s[n..]);
      FaithfulWord(s, n, Parse(s[n..]).0, Parse(s[n..]).1);
    } else if s[0] == '(' {
      var (inner, behind) := Parse(s[1..]);
      ParseIsFaithful(s[1..]);
      if behind == "" {
        FaithfulStray(s, inner);
      } else {
        ParseIsFaithful(behind[1..]);
        FaithfulGroup(s, inner, behind, Parse(behind[1..]).0, Parse(behind[1..]).1);
      }
    } else {
      ParseIsFaithful(s[1..]);
      FaithfulSymbol(s, Parse(s[1..]).0, Parse(s[1..]).1);
    }
  }

  lemma NothingParsed(s: string)
    ensures Faithful(s, Nil, s)
  {
    assert Print(Nil) + s == s;
  }

  /** A well-formed forest whose print is the text, told apart by its first character. */
  ghost predicate Whole(s: string, f: Forest) {
    && Print(f) == s && WellFormed(f, true)
    && (f.Word? ==> s != "" && IsIdentifierChar(s[0]))
    && (f.Fragment? ==> s != "" && f.text != "" && f.text[0] == s[0])
  }

  lemma WholeFragment(s: string, f: Forest)
    requires s != "" && IsQuote(s[0]) && Whole(s[FragmentLength(s)..], f)
    ensures Whole(s, Fragment(s[..FragmentLength(s)], f))
  {
    hide Body;
    FragmentPrefix(s);
    SplitAt(s, FragmentLength(s));
  }

  lemma WholeWord(s: string, f: Forest)
    requires s != "" && IsIdentifierChar(s[0]) && Whole(s[WordLength(s)..], f)
    ensures Whole(s, Word(s[..WordLength(s)], f))
  {
    hide WordLength;
    WordPrefixIsWord(s);
    SplitAt(s, WordLength(s));
  }

  lemma WholeGroup(s: string, inner: Forest, behind: string, next: Forest)
    requires s != "" && s[0] == '(' && Faithful(s[1..], inner, behind)
    requires behind != "" && behind[0] == ')' && Whole(behind[1..], next)
    ensures Whole(s, Group(inner, next))
  {
    assert "(" + s[1..] == s && ")" + behind[1..] == behind;
  }

  lemma WholeStray(s: string, inner: Forest)
    requires s != "" && s[0] == '(' && Faithful(s[1..], inner, "")
    ensures Whole(s, Symbol('(', inner))
  {
    assert "(" + s[1..] == s && Print(inner) + "" == Print(inner);
  }

  lemma WholeSymbol(s: string, f: Forest)
    requires s != "" && !IsIdentifierChar(s[0]) && !IsQuote(s[0]) && s[0] != '(' && Whole(s[1..], f)
    ensures Whole(s, Symbol(s[0], f))
  {
    assert [s[0]] + s[1..] == s;
  }

  /** Every text is the print of its forest, and that forest is well-formed. */
  lemma {:induction false} ParseAllIsFaithful(s: string)
    ensures Print(ParseAll(s)) == s && WellFormed(ParseAll(s), true)
    ensures Whole(s, ParseAll(s))
    decreases |s|
  {
    hide FragmentLength, WordLength, Print, WellFormed, Faithful;
    if s == "" {
      NothingIsWhole();
    } else if IsQuote(s[0]) {
      ParseAllIsFaithful(s[FragmentLength(s)..]);
      WholeFragment(s, ParseAll(s[FragmentLength(s)..]));
    } else if IsIdentifierChar(s[0]) {
      ParseAllIsFaithful(s[WordLength(s)..]);
      WholeWord(s, ParseAll(s[WordLength(s)..]));
    } else if s[0] == '(' {
      var (inner, behind) := Parse(s[1..]);
      ParseIsFaithful(s[1..]);
      if behind == "" {
        WholeStray(s, inner);
      } else {
        ParseAllIsFaithful(behind[1..]);
        WholeGroup(s, inner, behind, ParseAll(behind[1..]));
      }
    } else {
      ParseAllIsFaithful(s[1..]);
      WholeSymbol(s, ParseAll(s[1..]));
    }
  }

  lemma NothingIsWhole()
    ensures Whole("", Nil)
  {
  }

  /** For any well-formed forest, rewriting its print gives its transform. */
  lemma RewriterOnForest(name: string, render: Renderer, f: Forest)
    requires WellFormed(f, true)
    ensures Rewritten(name, render, Print(f)) == Emit(name, render, f)
  {
    RewriterRefinesTransform(name, render, f, true, "");
    assert Print(f) + "" == Print(f);
    assert Emit(name, render, f).0 + "" == Emit(name, render, f).0;
  }

  /** For any text at all, rewriting it gives the transform of its forest; an unchanged text is reported as such. */
  lemma {:induction false} RewriterOnText(name: string, render: Renderer, s: string)
    ensures Rewritten(name, render, s) == Emit(name, render, ParseAll(s))
    ensures !Rewritten(name, render, s).1 ==> Rewritten(name, render, s).0 == s
  {
    ParseAllIsFaithful(s);
    RewriterOnForest(name, render, ParseAll(s));
  }
}
