/** `rewrite_function_calls` and its helpers over text. The functions here say what the loops compute at a suffix of
    the text; module Forests says what that means for the bracketed structure of the whole text. */
module Calls {
  import opened Text
  import opened Fragments
  import Csv

  /** How a call is rendered from its split arguments; `None` leaves the call alone. */
  type Renderer = seq<string> -> Option<string>

  function WordLength(s: string): (n: nat)
    ensures n <= |s|
    ensures s != "" && IsIdentifierChar(s[0]) ==> n > 0
  {
    SpanLength(IsIdentifierChar, s)
  }

  function SpaceLength(s: string): (n: nat)
    ensures n <= |s|
  {
    SpanLength(IsSpace, s)
  }

  /** How far from the start of `s` the parenthesis is that closes `depth` open ones; parentheses inside quoted
      fragments do not count. */
  function CloseOffset(s: string, depth: nat): (r: Option<nat>)
    ensures r.Some? ==> r.value < |s| && s[r.value] == ')'
    decreases |s|
  {
    if s == "" then None
    else if IsQuote(s[0]) then Further(FragmentLength(s), CloseOffset(s[FragmentLength(s)..], depth))
    else if s[0] == '(' then Further(1, CloseOffset(s[1..], depth + 1))
    else if s[0] == ')' then if depth <= 1 then Some(0) else Further(1, CloseOffset(s[1..], depth - 1))
    else Further(1, CloseOffset(s[1..], depth))
  }

  function Further(n: nat, r: Option<nat>): Option<nat> {
    match r
    case None => None
    case Some(k) => Some(n + k)
  }

  /** The replacement of a call whose argument text is `args`, if the arguments split and render. */
  function RenderArgs(render: Renderer, args: string): Option<string> {
    match Csv.Split(args)
    case Err(_) => None
    case Ok(parts) => render(parts)
  }

  /** The call at the start of `s`, given that a word starts there: its replacement and its length. */
  function CallAt(name: string, render: Renderer, s: string): (r: Option<(string, nat)>)
    ensures r.Some? ==> 0 < r.value.1 <= |s|
  {
    var w := WordLength(s);
    var open := w + SpaceLength(s[w..]);
    if EqIgnoreCase(s[..w], name) && StartsWith(s[open..], '(') then
      match CloseOffset(s[open + 1..], 1)
      case None => None
      case Some(k) =>
        match RenderArgs(render, s[open + 1..open + 1 + k])
        case None => None
        case Some(replacement) => Some((replacement, open + 1 + k + 1))
    else None
  }

  /** The rewritten text and whether any call was replaced. */
  function Rewritten(name: string, render: Renderer, s: string): (r: (string, bool))
    ensures !r.1 ==> r.0 == s
    decreases |s|
  {
    if s == "" then ("", false)
    else if IsQuote(s[0]) then
      var n := FragmentLength(s);
      SplitAt(s, n);
      Before(s[..n], Rewritten(name, render, s[n..]))
    else if IsIdentifierChar(s[0]) then
      match CallAt(name, render, s)
      case Some((replacement, n)) => (replacement + Rewritten(name, render, s[n..]).0, true)
      case None =>
        SplitAt(s, WordLength(s));
        Before(s[..WordLength(s)], Rewritten(name, render, s[WordLength(s)..]))
    else Before([s[0]], Rewritten(name, render, s[1..]))
  }

  function Before(prefix: string, r: (string, bool)): (string, bool) {
    (prefix + r.0, r.1)
  }

  // ---------------------------------------------------------------------------------------------------------------
  // Spellings

  /** A word, blanks, a parenthesis and whatever follows it. */
  function CallText(w: string, g: string, t: string): string {
    w + (g + ("(" + t))
  }

  /** The parts of a call are found behind any word and any blanks. */
  lemma CallParts(w: string, g: string, t: string)
    requires IsWord(w) && AllSpace(g)
    ensures var s := CallText(w, g, t);
            && WordLength(s) == |w| && SpaceLength(s[|w|..]) == |g| && s[..|w|] == w
            && StartsWith(s[|w| + |g|..], '(') && s[|w| + |g| + 1..] == t
  {
    hide SpanLength, IsSpace, IsIdentifierChar;
    var s := w + (g + ("(" + t));
    var u := g + ("(" + t);
    assert s[|w|..] == u && u[|g|] == '(' && s[|w| + |g|..] == "(" + t;
    assert forall k :: 0 <= k < |g| ==> u[k] == g[k];
    ParenthesisIsPlain();
    SpanIs(IsSpace, u, |g|);
    assert forall k :: 0 <= k < |w| ==> s[k] == w[k];
    assert s[|w|] == u[0];
    if g != "" {
      assert IsSpace(u[0]);
      SpaceIsNoIdentifier(u[0]);
    }
    SpanIs(IsIdentifierChar, s, |w|);
  }

  lemma ParenthesisIsPlain()
    ensures !IsSpace('(') && !IsIdentifierChar('(')
  {
  }

  lemma SpaceIsNoIdentifier(c: char)
    requires IsSpace(c)
    ensures !IsIdentifierChar(c)
  {
  }

  /** What a call of the function is replaced by and how much of the text behind its parenthesis belongs to it. */
  function CallBehind(render: Renderer, t: string): (r: Option<(string, nat)>)
    ensures r.Some? ==> r.value.1 <= |t|
  {
    match CloseOffset(t, 1)
    case None => None
    case Some(k) =>
      match RenderArgs(render, t[..k])
      case None => None
      case Some(replacement) => Some((replacement, k + 1))
  }

  lemma SpelledCall(name: string, render: Renderer, w: string, g: string, t: string)
    requires IsWord(w) && AllSpace(g)
    ensures var (call, r) := (CallBehind(render, t), CallAt(name, render, CallText(w, g, t)));
            && (r.Some? <==> ToUpper(w) == ToUpper(name) && call.Some?)
            && (r.Some? ==> r.value == (call.value.0, |w| + |g| + 1 + call.value.1))
  {
    hide WordLength, SpaceLength, CallBehind, ToUpper, CallAt, IsWord, AllSpace, CallText, StartsWith;
    var s := CallText(w, g, t);
    CallParts(w, g, t);
    CallByParts(name, render, s, |w|, |w| + |g|);
  }

  lemma CallByParts(name: string, render: Renderer, s: string, w: nat, open: nat)
    requires WordLength(s) == w && open == w + SpaceLength(s[w..]) && StartsWith(s[open..], '(')
    ensures var (call, r) := (CallBehind(render, s[open + 1..]), CallAt(name, render, s));
            && (r.Some? <==> ToUpper(s[..w]) == ToUpper(name) && call.Some?)
            && (r.Some? ==> r.value == (call.value.0, open + 1 + call.value.1))
  {
    hide WordLength, SpaceLength, CloseOffset, RenderArgs, ToUpper;
    var close := CloseOffset(s[open + 1..], 1);
    if close.Some? {
      SliceOfSuffix(s, open + 1, 0, close.value);
    }
  }

  /** A word in front of a parenthesis makes the call that the name makes exactly if it is the name in any case,
      whatever blanks stand between them. */
  lemma SpellingDoesNotMatter(name: string, render: Renderer, w: string, g: string, t: string)
    requires IsWord(w) && IsWord(name) && AllSpace(g)
    ensures var (s, plain) := (CallText(w, g, t), CallText(name, "", t));
            && (CallAt(name, render, s).Some? <==>
                  ToUpper(w) == ToUpper(name) && CallAt(name, render, plain).Some?)
            && (CallAt(name, render, s).Some? ==>
                  Rewritten(name, render, s).0 == Rewritten(name, render, plain).0)
  {
    hide CallBehind, ToUpper, Rewritten, CallAt, IsWord, CallText;
    SpelledCall(name, render, w, g, t);
    SpelledCall(name, render, name, "", t);
    if CallAt(name, render, CallText(w, g, t)).Some? {
      CallIsTaken(name, render, w, g, t);
      CallIsTaken(name, render, name, "", t);
    }
  }

  lemma CallIsTaken(name: string, render: Renderer, w: string, g: string, t: string)
    requires IsWord(w) && AllSpace(g) && CallAt(name, render, CallText(w, g, t)).Some?
    ensures CallBehind(render, t).Some?
    ensures var (replacement, n) := CallBehind(render, t).value;
            Rewritten(name, render, CallText(w, g, t)).0 == replacement + Rewritten(name, render, t[n..]).0
  {
    hide CallBehind, ToUpper, Rewritten, CallAt, AllSpace;
    var s := CallText(w, g, t);
    SpelledCall(name, render, w, g, t);
    var n := CallBehind(render, t).value.1;
    assert s[0] == w[0];
    CallIsReplaced(name, render, s);
    assert s[|w| + |g| + 1 + n..] == t[n..];
  }

  lemma CallIsReplaced(name: string, render: Renderer, s: string)
    requires s != "" && IsIdentifierChar(s[0]) && CallAt(name, render, s).Some?
    ensures var (replacement, n) := CallAt(name, render, s).value;
            Rewritten(name, render, s).0 == replacement + Rewritten(name, render, s[n..]).0
  {
    hide CallAt;
  }

  // ---------------------------------------------------------------------------------------------------------------
  // The loops

  lemma CloseOffsetAt(chars: string, idx: nat, depth: nat)
    requires idx < |chars|
    ensures CloseOffset(chars[idx..], depth) ==
            if IsQuote(chars[idx]) then
              var n := FragmentLength(chars[idx..]);
              Further(n, CloseOffset(chars[idx + n..], depth))
            else if chars[idx] == '(' then Further(1, CloseOffset(chars[idx + 1..], depth + 1))
            else if chars[idx] == ')' then
              if depth <= 1 then Some(0) else Further(1, CloseOffset(chars[idx + 1..], depth - 1))
            else Further(1, CloseOffset(chars[idx + 1..], depth))
  {
    hide Body;
    var s := chars[idx..];
    if IsQuote(chars[idx]) {
      assert s[FragmentLength(s)..] == chars[idx + FragmentLength(s)..];
    } else {
      assert s[1..] == chars[idx + 1..];
    }
  }

  lemma CloseOffsetOfNothing(chars: string, depth: nat)
    ensures CloseOffset(chars[|chars|..], depth) == None
  {
  }

  /** `find_matching_paren`. */
  method FindMatchingParen(chars: string, open: nat) returns (close: Option<nat>)
    requires open < |chars|
    ensures close == Further(open + 1, CloseOffset(chars[open + 1..], 1))
  {
    hide CloseOffset, FragmentLength;
    var idx := open + 1;
    var depth: nat := 1;
    ghost var goal := Further(open + 1, CloseOffset(chars[open + 1..], 1));
    while idx < |chars|
      invariant open < idx <= |chars| && depth >= 1
      invariant goal == Further(idx, CloseOffset(chars[idx..], depth))
    {
      CloseOffsetAt(chars, idx, depth);
      var ch := chars[idx];
      if IsQuote(ch) {
        var sink;
        idx, sink := CopyQuotedFragment(chars, idx, "");
      } else if ch == '(' {
        depth := depth + 1;
        idx := idx + 1;
      } else if ch == ')' {
        depth := depth - 1;
        if depth == 0 {
          return Some(idx);
        }
        idx := idx + 1;
      } else {
        idx := idx + 1;
      }
    }
    CloseOffsetOfNothing(chars, depth);
    return None;
  }

  lemma WordLengthAt(chars: string, idx: nat)
    requires idx <= |chars|
    ensures WordLength(chars[idx..]) ==
            if idx < |chars| && IsIdentifierChar(chars[idx]) then 1 + WordLength(chars[idx + 1..]) else 0
    ensures SpaceLength(chars[idx..]) ==
            if idx < |chars| && IsSpace(chars[idx]) then 1 + SpaceLength(chars[idx + 1..]) else 0
  {
    if idx < |chars| {
      SuffixSteps(chars, idx);
    }
  }

  /** The two scans that end a word and skip the blanks behind it. */
  method ScanWord(chars: string, start: nat) returns (end: nat, open: nat)
    requires start < |chars| && IsIdentifierChar(chars[start])
    ensures end == start + WordLength(chars[start..]) && end <= |chars|
    ensures open == end + SpaceLength(chars[end..]) && open <= |chars|
  {
    hide WordLength, SpaceLength;
    end := start + 1;
    WordLengthAt(chars, start);
    while end < |chars| && IsIdentifierChar(chars[end])
      invariant start < end <= |chars|
      invariant end + WordLength(chars[end..]) == start + WordLength(chars[start..])
    {
      WordLengthAt(chars, end);
      end := end + 1;
    }
    WordLengthAt(chars, end);
    open := end;
    while open < |chars| && IsSpace(chars[open])
      invariant end <= open <= |chars|
      invariant open + SpaceLength(chars[open..]) == end + SpaceLength(chars[end..])
    {
      WordLengthAt(chars, open);
      open := open + 1;
    }
    WordLengthAt(chars, open);
  }

  lemma RewrittenAt(name: string, render: Renderer, chars: string, idx: nat)
    requires idx < |chars|
    ensures IsQuote(chars[idx]) ==>
              var n := FragmentLength(chars[idx..]);
              Rewritten(name, render, chars[idx..]) ==
              Before(chars[idx..idx + n], Rewritten(name, render, chars[idx + n..]))
    ensures IsIdentifierChar(chars[idx]) ==>
              match CallAt(name, render, chars[idx..])
              case Some((replacement, n)) =>
                Rewritten(name, render, chars[idx..]) ==
                (replacement + Rewritten(name, render, chars[idx + n..]).0, true)
              case None =>
                var n := WordLength(chars[idx..]);
                Rewritten(name, render, chars[idx..]) ==
                Before(chars[idx..idx + n], Rewritten(name, render, chars[idx + n..]))
    ensures !IsQuote(chars[idx]) && !IsIdentifierChar(chars[idx]) ==>
              Rewritten(name, render, chars[idx..]) ==
              Before([chars[idx]], Rewritten(name, render, chars[idx + 1..]))
  {
    hide Body, WordLength, CallAt;
    var s := chars[idx..];
    if IsQuote(s[0]) {
      var n := FragmentLength(s);
      assert s[..n] == chars[idx..idx + n] && s[n..] == chars[idx + n..];
    } else if IsIdentifierChar(s[0]) {
      var n := WordLength(s);
      assert s[..n] == chars[idx..idx + n] && s[n..] == chars[idx + n..];
      var call := CallAt(name, render, s);
      assert call.Some? ==> s[call.value.1..] == chars[idx + call.value.1..];
    } else {
      assert s[1..] == chars[idx + 1..];
    }
  }

  /** What the loop tests at a word, in the terms of `CallAt`. */
  lemma {:induction false} CallAtIndex(name: string, render: Renderer, chars: string, idx: nat, end: nat, open: nat)
    requires idx < end <= open <= |chars|
    requires end == idx + WordLength(chars[idx..]) && open == end + SpaceLength(chars[end..])
    ensures CallAt(name, render, chars[idx..]) ==
            if EqIgnoreCase(chars[idx..end], name) && open < |chars| && chars[open] == '(' then
              match CloseOffset(chars[open + 1..], 1)
              case None => None
              case Some(k) =>
                match RenderArgs(render, chars[open + 1..open + 1 + k])
                case None => None
                case Some(replacement) => Some((replacement, open + 1 + k + 1 - idx))
            else None
  {
    hide WordLength, SpaceLength, CloseOffset, RenderArgs, EqIgnoreCase;
    var s := chars[idx..];
    var w, o := end - idx, open - idx;
    assert s[..w] == chars[idx..end] && s[w..] == chars[end..] && s[o..] == chars[open..];
    if open < |chars| {
      assert s[o + 1..] == chars[open + 1..];
      var close := CloseOffset(s[o + 1..], 1);
      if close.Some? {
        SliceOfSuffix(chars, idx, o + 1, o + 1 + close.value);
      }
    }
  }

  lemma RewrittenOfNothing(name: string, render: Renderer, chars: string)
    ensures Rewritten(name, render, chars[|chars|..]) == ("", false)
  {
  }

  /** The nested tests at a word: the replacement of the call it makes and the index behind the call, if it makes one
      that renders. */
  method TryCall(sql: string, idx: nat, end: nat, open: nat, name: string, render: Renderer)
    returns (call: Option<(string, nat)>)
    requires idx < end <= open <= |sql|
    requires end == idx + WordLength(sql[idx..]) && open == end + SpaceLength(sql[end..])
    ensures call == match CallAt(name, render, sql[idx..])
                    case None => None
                    case Some((replacement, n)) => Some((replacement, idx + n))
  {
    hide CallAt, CloseOffset, WordLength, SpaceLength, Body, Csv.Split, EqIgnoreCase;
    CallAtIndex(name, render, sql, idx, end, open);
    if EqIgnoreCase(sql[idx..end], name) && open < |sql| && sql[open] == '(' {
      var close := FindMatchingParen(sql, open);
      if close.Some? {
        var args := Csv.SplitSqlCsv(sql[open + 1..close.value]);
        if args.Ok? {
          var replacement := render(args.value);
          if replacement.Some? {
            return Some((replacement.value, close.value + 1));
          }
        }
      }
    }
    return None;
  }

  /** What has been written and noted, completed by what is still to be rewritten. */
  ghost function Completed(out: string, changed: bool, rest: (string, bool)): (string, bool) {
    (out + rest.0, changed || rest.1)
  }

  lemma CompletedSteps(out: string, changed: bool, piece: string, rest: (string, bool))
    ensures Completed(out, changed, Before(piece, rest)) == Completed(out + piece, changed, rest)
    ensures Completed(out, changed, (piece + rest.0, true)) == Completed(out + piece, true, rest)
  {
    ConcatAssoc(out, piece, rest.0);
  }

  lemma CompletedEnds(out: string, changed: bool)
    ensures Completed("", false, (out, changed)) == (out, changed)
    ensures Completed(out, changed, ("", false)) == (out, changed)
  {
    assert "" + out == out && out + "" == out;
  }

  /** `rewrite_function_calls`. */
  method RewriteFunctionCalls(sql: string, name: string, render: Renderer) returns (out: string, changed: bool)
    ensures (out, changed) == Rewritten(name, render, sql)
    ensures !changed ==> out == sql
  {
    hide Rewritten, CallAt, WordLength, SpaceLength, FragmentLength, Before, Completed;
    out, changed := "", false;
    var idx := 0;
    CompletedEnds(Rewritten(name, render, sql).0, Rewritten(name, render, sql).1);
    assert sql[0..] == sql;
    while idx < |sql|
      invariant idx <= |sql|
      invariant Completed(out, changed, Rewritten(name, render, sql[idx..])) == Rewritten(name, render, sql)
    {
      var ch := sql[idx];
      RewrittenAt(name, render, sql, idx);
      if IsQuote(ch) {
        ghost var next := idx + FragmentLength(sql[idx..]);
        CompletedSteps(out, changed, sql[idx..next], Rewritten(name, render, sql[next..]));
        idx, out := CopyQuotedFragment(sql, idx, out);
        continue;
      }
      if IsIdentifierChar(ch) {
        var end, open := ScanWord(sql, idx);
        var call := TryCall(sql, idx, end, open, name, render);
        if call.Some? {
          var (replacement, next) := call.value;
          CompletedSteps(out, changed, replacement, Rewritten(name, render, sql[next..]));
          out := out + replacement;
          idx := next;
          changed := true;
          continue;
        }
        CompletedSteps(out, changed, sql[idx..end], Rewritten(name, render, sql[end..]));
        out := out + sql[idx..end];
        idx := end;
        continue;
      }
      CompletedSteps(out, changed, [ch], Rewritten(name, render, sql[idx + 1..]));
      out := out + [ch];
      idx := idx + 1;
    }
    RewrittenOfNothing(name, render, sql);
    CompletedEnds(out, changed);
  }
}
