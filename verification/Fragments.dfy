/** Quoted fragments: `copy_quoted_fragment` and what it spans in the terms of the specification lexer. */
module Fragments {
  import opened Text
  import opened Lexer
  import opened Dialects

  /** How far a quoted fragment reaches past its opening quote, and whether a closing quote ends it. */
  datatype Extent = Extent(length: nat, closed: bool) {
    function Shift(n: nat): Extent {
      Extent(length + n, closed)
    }
  }

  /** The fragment opened by quote `q`, read from just after the opening quote. A backslash protects the next
      character and a doubled quote stands for itself. */
  function Body(q: char, s: string): (e: Extent)
    ensures e.length <= |s|
    ensures e.closed ==> e.length > 0 && s[e.length - 1] == q
    ensures !e.closed ==> e.length == |s|
  {
    if s == "" then Extent(0, false)
    else if s[0] == '\\' then if |s| == 1 then Extent(1, false) else Body(q, s[2..]).Shift(2)
    else if s[0] == q then if |s| > 1 && s[1] == q then Body(q, s[2..]).Shift(2) else Extent(1, true)
    else Body(q, s[1..]).Shift(1)
  }

  /** The length of the quoted fragment that starts `s`, quotes included. */
  function FragmentLength(s: string): (n: nat)
    requires s != ""
    ensures 0 < n <= |s|
  {
    1 + Body(s[0], s[1..]).length
  }

  predicate FragmentClosed(s: string)
    requires s != ""
  {
    Body(s[0], s[1..]).closed
  }

  /** The same rule read at an index, as the loop does. */
  lemma BodyAt(q: char, chars: string, idx: nat)
    requires idx < |chars|
    ensures Body(q, chars[idx..]) ==
            if chars[idx] == '\\' then
              if idx + 1 == |chars| then Extent(1, false) else Body(q, chars[idx + 2..]).Shift(2)
            else if chars[idx] == q then
              if idx + 1 < |chars| && chars[idx + 1] == q then Body(q, chars[idx + 2..]).Shift(2) else Extent(1, true)
            else Body(q, chars[idx + 1..]).Shift(1)
  {
    SuffixSteps(chars, idx);
  }

  /** `copy_quoted_fragment`: the caller's `&mut idx` and `&mut out` are the results. */
  method CopyQuotedFragment(chars: string, start: nat, prefix: string) returns (idx: nat, out: string)
    requires start < |chars| && IsQuote(chars[start])
    ensures idx == start + FragmentLength(chars[start..])
    ensures out == prefix + chars[start..idx]
  {
    hide Body;
    var quote := chars[start];
    out := prefix + [quote];
    idx := start + 1;
    SuffixSteps(chars, start);
    ghost var body := Body(quote, chars[start + 1..]);
    while idx < |chars|
      invariant start < idx <= |chars|
      invariant out == prefix + chars[start..idx]
      invariant body == Body(quote, chars[idx..]).Shift(idx - (start + 1))
    {
      var ch := chars[idx];
      BodyAt(quote, chars, idx);
      SliceGrows(prefix, chars, start, idx);
      out := out + [ch];
      idx := idx + 1;
      if ch == '\\' {
        if idx < |chars| {
          SliceGrows(prefix, chars, start, idx);
          out := out + [chars[idx]];
          idx := idx + 1;
        }
        continue;
      }
      if ch == quote {
        if idx < |chars| && chars[idx] == quote {
          SliceGrows(prefix, chars, start, idx);
          out := out + [chars[idx]];
          idx := idx + 1;
          continue;
        }
        break;
      }
    }
  }

  lemma AfterNothing()
    ensures forall st :: After(CallDialect, st, "") == st
  {
  }

  /** A fragment body in the specification lexer: reading it ends in code exactly when the fragment is closed. */
  lemma {:induction false} BodyEnds(q: char, s: string)
    requires IsQuote(q)
    ensures Body(q, s).closed <==> After(CallDialect, Quoted(q), s[..Body(q, s).length]).InCode()
    decreases s
  {
    hide After;
    var n := Body(q, s).length;
    AfterNothing();
    if s != "" {
      AfterPrefix(CallDialect, Quoted(q), s, n);
      if n > 1 && (s[0] == '\\' || s[0] == q) {
        BodyEnds(q, s[2..]);
      } else if s[0] != '\\' && s[0] != q {
        BodyEnds(q, s[1..]);
      } else {
        assert s[1..][..0] == "";
      }
    } else {
      assert s[..0] == "";
    }
  }

  /** Code is entered inside a fragment body only at the first half of a doubled quote. */
  lemma {:induction false} BodyInside(q: char, s: string, k: nat)
    requires IsQuote(q) && k < Body(q, s).length
    ensures After(CallDialect, Quoted(q), s[..k]).InQuote() || s[k] == q
    decreases s
  {
    if k > 0 {
      AfterPrefix(CallDialect, Quoted(q), s, k);
      if s[0] != '\\' && s[0] != q {
        BodyInside(q, s[1..], k - 1);
      } else if k >= 2 {
        BodyInside(q, s[2..], k - 2);
      }
    }
  }

  /** No quote of the same kind follows a closed fragment. */
  lemma {:induction false} BodyNotDoubled(q: char, s: string)
    requires Body(q, s).closed && Body(q, s).length < |s|
    ensures s[Body(q, s).length] != q
    decreases s
  {
    if s[0] == '\\' || (s[0] == q && s[1] == q) {
      BodyNotDoubled(q, s[2..]);
    } else if s[0] != q {
      BodyNotDoubled(q, s[1..]);
    }
  }

  /** `copy_quoted_fragment` stops where the specification lexer first stands in code with no further quote of the
      same kind ahead. */
  lemma FragmentInLexer(s: string, k: nat)
    requires s != "" && IsQuote(s[0]) && 0 < k <= FragmentLength(s)
    ensures FragmentClosed(s) <==> At(CallDialect, s, FragmentLength(s)).InCode()
    ensures FragmentClosed(s) && FragmentLength(s) < |s| ==> s[FragmentLength(s)] != s[0]
    ensures k < FragmentLength(s) ==> At(CallDialect, s, k).InQuote() || s[k] == s[0]
  {
    BodyEnds(s[0], s[1..]);
    if k < FragmentLength(s) {
      BodyInside(s[0], s[1..], k - 1);
    }
    if FragmentClosed(s) && FragmentLength(s) < |s| {
      BodyNotDoubled(s[0], s[1..]);
    }
    AfterPrefix(CallDialect, Code, s, k);
    AfterPrefix(CallDialect, Code, s, FragmentLength(s));
  }

  /** A closed fragment followed by anything but its own quote spans exactly itself. */
  lemma {:induction false} BodyOfClosed(q: char, s: string, t: string)
    requires Body(q, s) == Extent(|s|, true) && !StartsWith(t, q)
    ensures Body(q, s + t) == Body(q, s)
    decreases s
  {
    if s[0] == '\\' || (s[0] == q && |s| > 1 && s[1] == q) {
      assert (s + t)[2..] == s[2..] + t;
      BodyOfClosed(q, s[2..], t);
    } else if s[0] == q {
      assert s == [q];
    } else {
      assert (s + t)[1..] == s[1..] + t;
      BodyOfClosed(q, s[1..], t);
    }
  }

  /** A closed fragment followed by its own quote runs on as one fragment with what follows. */
  lemma {:induction false} BodyRunsOn(q: char, s: string, t: string)
    requires q != '\\'
    requires Body(q, s) == Extent(|s|, true) && StartsWith(t, q)
    ensures Body(q, s + t) == Body(q, t[1..]).Shift(|s| + 1)
    decreases s
  {
    if s[0] == '\\' || (s[0] == q && |s| > 1 && s[1] == q) {
      assert (s + t)[2..] == s[2..] + t;
      BodyRunsOn(q, s[2..], t);
    } else if s[0] == q {
      assert s == [q];
      assert (s + t)[2..] == t[1..];
    } else {
      assert (s + t)[1..] == s[1..] + t;
      BodyRunsOn(q, s[1..], t);
    }
  }

  /** A closed fragment is read the same when the text is cut behind it. */
  lemma {:induction false} BodyOfPrefix(q: char, s: string)
    requires Body(q, s).closed
    ensures Body(q, s[..Body(q, s).length]) == Body(q, s)
    decreases s
  {
    var n := Body(q, s).length;
    var p := s[..n];
    if s[0] == '\\' || (s[0] == q && |s| > 1 && s[1] == q) {
      BodyOfPrefix(q, s[2..]);
      assert p[2..] == s[2..][..n - 2];
    } else if s[0] != q {
      BodyOfPrefix(q, s[1..]);
      assert p[1..] == s[1..][..n - 1];
    }
  }
}
