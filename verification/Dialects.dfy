/** The specification lexer read piece by piece, and where the dialects of the scanners agree. */
module Dialects {
  import opened Lexer

  lemma {:induction false} AfterConcat(d: Dialect, st: State, a: string, b: string)
    ensures After(d, st, a + b) == After(d, After(d, st, a), b)
    decreases a
  {
    if a == "" {
      assert a + b == b;
    } else {
      assert (a + b)[1..] == a[1..] + b;
      AfterConcat(d, Step(d, st, a[0]), a[1..], b);
    }
  }

  /** Reading a prefix one or two characters at a time. */
  lemma AfterPrefix(d: Dialect, st: State, s: string, n: nat)
    requires 0 < n <= |s|
    ensures After(d, st, s[..n]) == After(d, Step(d, st, s[0]), s[1..][..n - 1])
    ensures n > 1 ==> After(d, st, s[..n]) == After(d, Step(d, Step(d, st, s[0]), s[1]), s[2..][..n - 2])
  {
    assert s[..n][1..] == s[1..][..n - 1];
    if n > 1 {
      assert s[1..][..n - 1][1..] == s[2..][..n - 2];
    }
  }

  lemma AtStep(d: Dialect, s: string, k: nat)
    requires k < |s|
    ensures At(d, s, k + 1) == Step(d, At(d, s, k), s[k])
  {
    assert s[..k + 1] == s[..k] + [s[k]];
    AfterConcat(d, Code, s[..k], [s[k]]);
  }

  // ---------------------------------------------------------------------------------------------------------------
  // The dialects agree where their rules do

  predicate NoBackslash(s: string) {
    '\\' !in s
  }

  /** No comment can open anywhere in the text. */
  predicate NoCommentOpener(s: string) {
    forall k :: 0 <= k < |s| ==> s[k] != '#' && (k + 1 < |s| ==> s[k..k + 2] != "--" && s[k..k + 2] != "/*")
  }

  /** Two states that classify the next character alike. */
  predicate SameZone(a: State, b: State) {
    || (a.InCode() && b.InCode())
    || (a.Quoted? && a == b)
  }

  predicate KnownDialect(d: Dialect) {
    d in {BooleanDialect, CallDialect, CsvDialect, PrepareDialect, LiteralDialect}
  }

  /** What the state of a comment-aware dialect remembers about the previous character. */
  lemma {:induction false} AtRemembers(d: Dialect, s: string, k: nat)
    requires k <= |s|
    ensures At(d, s, k).Dash? ==> k > 0 && s[k - 1] == '-'
    ensures At(d, s, k).Slash? ==> k > 0 && s[k - 1] == '/'
  {
    if k > 0 {
      AtStep(d, s, k - 1);
    }
  }

  /** On text without backslashes and comment openers every dialect classifies every character alike, although
      the scanners treat doubled quotes in three different ways. The dialects that know no backtick need text
      without one. */
  lemma {:induction false} DialectsAgree(d: Dialect, e: Dialect, s: string, k: nat)
    requires KnownDialect(d) && KnownDialect(e) && k <= |s|
    requires NoBackslash(s) && NoCommentOpener(s)
    requires (d.quotes == e.quotes || '`' !in s)
    ensures SameZone(At(d, s, k), At(e, s, k))
  {
    hide After;
    if k > 0 {
      DialectsAgree(d, e, s, k - 1);
      AtStep(d, s, k - 1);
      AtStep(e, s, k - 1);
      AtRemembers(d, s, k - 1);
      AtRemembers(e, s, k - 1);
      assert s[k - 1] != '\\';
      if k > 1 {
        assert s[k - 2..k] == [s[k - 2], s[k - 1]];
      }
    } else {
      assert At(d, s, 0) == Code && At(e, s, 0) == Code by { AtStart(d, s); AtStart(e, s); }
    }
  }

  lemma AtStart(d: Dialect, s: string)
    ensures At(d, s, 0) == Code
  {
  }
}
