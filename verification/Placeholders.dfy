/** The placeholder scan of prepared statements: counting the `?` that stand outside quotes and comments, and
    numbering them for PostgreSQL. */
module Placeholders {
  import opened Text
  import opened Lexer
  import opened Decimal

  datatype Error = FailedToRewrite

  function Next(st: State, c: char): State {
    Step(PrepareDialect, st, c)
  }

  predicate IsPlaceholder(st: State, c: char) {
    c == '?' && st.InCode()
  }

  /** `count_prepare_placeholders`, of a text read from a given state. */
  function CountFrom(st: State, s: string): nat
    decreases s
  {
    if s == "" then 0 else (if IsPlaceholder(st, s[0]) then 1 else 0) + CountFrom(Next(st, s[0]), s[1..])
  }

  function CountPlaceholders(s: string): nat {
    CountFrom(Code, s)
  }

  /** The scan: the placeholder after `n` others becomes `replacement(n + 1)`. */
  function Substituted(replacement: nat -> string, st: State, s: string, n: nat): string
    decreases s
  {
    if s == "" then ""
    else if IsPlaceholder(st, s[0]) then replacement(n + 1) + Substituted(replacement, Code, s[1..], n + 1)
    else [s[0]] + Substituted(replacement, Next(st, s[0]), s[1..], n)
  }

  // ---------------------------------------------------------------------------------------------------------------
  // The loop

  /** The five flags of the loop as a state of the specification lexer. The loop looks one character ahead for
      comment openers and closers; the lexer remembers one character back. `ahead` is what is still to be read. */
  predicate Flags(st: State, ahead: string, inSingle: bool, inDouble: bool, inBacktick: bool, inLine: bool,
                  inBlock: bool)
  {
    && (inSingle <==> st == Quoted('\''))
    && (inDouble <==> st == Quoted('"'))
    && (inBacktick <==> st == Quoted('`'))
    && (inLine <==> st.LineComment?)
    && (inBlock <==> st.BlockComment? || st.Star?)
    && (st.Quoted? ==> IsQuote(st.quote)) && !st.Escaped?
    && (st.Star? ==> !StartsWith(ahead, '/'))
    && (st.Dash? ==> !StartsWith(ahead, '-'))
    && (st.Slash? ==> !StartsWith(ahead, '*'))
  }

  /** One character of the scan, after `out` has been written and `count` placeholders seen. */
  lemma ScanStep(replacement: nat -> string, sql: string, i: nat, st: State, out: string, count: nat)
    requires i < |sql|
    ensures var found := IsPlaceholder(st, sql[i]);
            var count' := if found then count + 1 else count;
            && out + Substituted(replacement, st, sql[i..], count) ==
               out + (if found then replacement(count + 1) else [sql[i]])
               + Substituted(replacement, Next(st, sql[i]), sql[i + 1..], count')
            && count + CountFrom(st, sql[i..]) == count' + CountFrom(Next(st, sql[i]), sql[i + 1..])
  {
    SuffixSteps(sql, i);
    var found := IsPlaceholder(st, sql[i]);
    ConcatAssoc(out, if found then replacement(count + 1) else [sql[i]],
                Substituted(replacement, Next(st, sql[i]), sql[i + 1..], if found then count + 1 else count));
  }

  lemma ScanEnds(replacement: nat -> string, sql: string, st: State, out: string, count: nat)
    ensures out + Substituted(replacement, st, sql[|sql|..], count) == out && CountFrom(st, sql[|sql|..]) == 0
  {
    assert out + "" == out;
  }

  /** `scan_prepare_placeholders`. The closure's running count is the second result. */
  method ScanPlaceholders(sql: string, replacement: nat -> string) returns (out: string, count: nat)
    ensures out == Substituted(replacement, Code, sql, 0)
    ensures count == CountPlaceholders(sql)
  {
    hide Substituted, CountFrom;
    count, out := 0, "";
    var inSingle, inDouble, inBacktick, inLine, inBlock := false, false, false, false, false;
    var i := 0;
    ghost var st := Code;
    assert sql[0..] == sql && "" + Substituted(replacement, Code, sql, 0) == Substituted(replacement, Code, sql, 0);
    while i < |sql|
      invariant i <= |sql|
      invariant Flags(st, sql[i..], inSingle, inDouble, inBacktick, inLine, inBlock)
      invariant out + Substituted(replacement, st, sql[i..], count) == Substituted(replacement, Code, sql, 0)
      invariant count + CountFrom(st, sql[i..]) == CountPlaceholders(sql)
    {
      var ch := sql[i];
      var peek := if i + 1 < |sql| then Some(sql[i + 1]) else None;
      ScanStep(replacement, sql, i, st, out, count);
      i := i + 1;
      if inLine {
        out, st := out + [ch], Next(st, ch);
        if ch == '\n' {
          inLine := false;
        }
        continue;
      }
      if inBlock {
        out, st := out + [ch], Next(st, ch);
        if ch == '*' && peek == Some('/') {
          ScanStep(replacement, sql, i, st, out, count);
          out, st := out + [sql[i]], Next(st, sql[i]);
          i := i + 1;
          inBlock := false;
        }
        continue;
      }
      if inSingle {
        out, st := out + [ch], Next(st, ch);
        if ch == '\\' {
          if i < |sql| {
            ScanStep(replacement, sql, i, st, out, count);
            out, st := out + [sql[i]], Next(st, sql[i]);
            i := i + 1;
          } else {
            ScanEnds(replacement, sql, st, out, count);
            st := Quoted('\'');
            ScanEnds(replacement, sql, st, out, count);
          }
          continue;
        }
        if ch == '\'' {
          inSingle := false;
        }
        continue;
      }
      if inDouble {
        out, st := out + [ch], Next(st, ch);
        if ch == '\\' {
          if i < |sql| {
            ScanStep(replacement, sql, i, st, out, count);
            out, st := out + [sql[i]], Next(st, sql[i]);
            i := i + 1;
          } else {
            ScanEnds(replacement, sql, st, out, count);
            st := Quoted('"');
            ScanEnds(replacement, sql, st, out, count);
          }
          continue;
        }
        if ch == '"' {
          inDouble := false;
        }
        continue;
      }
      if inBacktick {
        out, st := out + [ch], Next(st, ch);
        if ch == '`' {
          inBacktick := false;
        }
        continue;
      }
      st := Next(st, ch);
      if ch == '?' {
        count := count + 1;
        out := out + replacement(count);
        continue;
      }
      out := out + [ch];
      if ch == '\'' {
        inSingle := true;
      } else if ch == '"' {
        inDouble := true;
      } else if ch == '`' {
        inBacktick := true;
      } else if ch == '#' {
        inLine := true;
      } else if (ch == '-' && peek == Some('-')) || (ch == '/' && peek == Some('*')) {
        ScanStep(replacement, sql, i, st, out, count);
        out, st := out + [sql[i]], Next(st, sql[i]);
        i := i + 1;
        inLine, inBlock := ch == '-', ch == '/';
      }
    }
    ScanEnds(replacement, sql, st, out, count);
  }

  // ---------------------------------------------------------------------------------------------------------------
  // What the scan does, position by position

  lemma {:induction false} CountConcat(st: State, a: string, b: string)
    ensures CountFrom(st, a + b) == CountFrom(st, a) + CountFrom(After(PrepareDialect, st, a), b)
    decreases a
  {
    if a == "" {
      assert a + b == b;
    } else {
      assert (a + b)[1..] == a[1..] + b;
      CountConcat(Next(st, a[0]), a[1..], b);
    }
  }

  lemma {:induction false} SubstitutedConcat(replacement: nat -> string, st: State, a: string, b: string, n: nat)
    ensures Substituted(replacement, st, a + b, n) ==
            Substituted(replacement, st, a, n)
            + Substituted(replacement, After(PrepareDialect, st, a), b, n + CountFrom(st, a))
    decreases a
  {
    if a == "" {
      assert a + b == b;
    } else {
      assert (a + b)[1..] == a[1..] + b;
      var found := IsPlaceholder(st, a[0]);
      var n' := if found then n + 1 else n;
      SubstitutedConcat(replacement, Next(st, a[0]), a[1..], b, n');
      ConcatAssoc(if found then replacement(n + 1) else [a[0]],
                  Substituted(replacement, Next(st, a[0]), a[1..], n'),
                  Substituted(replacement, After(PrepareDialect, st, a), b, n + CountFrom(st, a)));
    }
  }

  /** The rank of a placeholder is one more than the number of placeholders before it. */
  lemma CountAt(a: string, c: char)
    ensures CountPlaceholders(a + [c]) ==
            CountPlaceholders(a) + if c == '?' && After(PrepareDialect, Code, a).InCode() then 1 else 0
  {
    hide CountFrom, After;
    CountConcat(Code, a, [c]);
    CountOne(After(PrepareDialect, Code, a), c);
  }

  lemma SubstitutedHead(replacement: nat -> string, st: State, c: char, b: string, n: nat)
    ensures Substituted(replacement, st, [c] + b, n) ==
            (if IsPlaceholder(st, c) then replacement(n + 1) else [c])
            + Substituted(replacement, Next(st, c), b, if IsPlaceholder(st, c) then n + 1 else n)
  {
    assert ([c] + b)[1..] == b;
  }

  /** At every position, whatever stands before (`a`) and behind (`b`): a `?` in code becomes the replacement for its
      rank among the placeholders, counted from one, and any other character stays. */
  lemma {:induction false} SubstitutedAt(replacement: nat -> string, a: string, c: char, b: string)
    ensures var st, n := After(PrepareDialect, Code, a), CountPlaceholders(a);
            var found := c == '?' && st.InCode();
            Substituted(replacement, Code, a + ([c] + b), 0) ==
            Substituted(replacement, Code, a, 0)
            + ((if found then replacement(n + 1) else [c])
               + Substituted(replacement, Next(st, c), b, if found then n + 1 else n))
  {
    hide Substituted, After, CountFrom;
    SubstitutedConcat(replacement, Code, a, [c] + b, 0);
    SubstitutedHead(replacement, After(PrepareDialect, Code, a), c, b, CountPlaceholders(a));
  }

  lemma CountOne(st: State, c: char)
    ensures CountFrom(st, [c]) == if IsPlaceholder(st, c) then 1 else 0
  {
    assert [c][1..] == "";
  }

  function QuestionMark(k: nat): string {
    "?"
  }

  /** The same scan with the constant replacement `?` is the identity. */
  lemma {:induction false} SubstitutingItself(st: State, s: string, n: nat)
    ensures Substituted(QuestionMark, st, s, n) == s
    decreases s
  {
    if s != "" {
      SubstitutingItself(Next(st, s[0]), s[1..], if IsPlaceholder(st, s[0]) then n + 1 else n);
      assert [s[0]] + s[1..] == s;
    }
  }

  // ---------------------------------------------------------------------------------------------------------------
  // Numbering for PostgreSQL

  function Dollar(k: nat): string {
    "$" + Numeral(k)
  }

  function Numbered(s: string): string {
    Substituted(Dollar, Code, s, 0)
  }

  predicate Contains(s: string, pattern: string) {
    exists k :: 0 <= k <= |s| && pattern <= s[k..]
  }

  lemma ContainsBehind(prefix: string, s: string, pattern: string)
    requires Contains(s, pattern)
    ensures Contains(prefix + s, pattern)
  {
    var k :| 0 <= k <= |s| && pattern <= s[k..];
    assert (prefix + s)[|prefix| + k..] == s[k..];
  }

  /** A text with placeholders comes out with `$1` in it. */
  lemma {:induction false} FirstNumberAppears(st: State, s: string)
    requires CountFrom(st, s) > 0
    ensures Contains(Substituted(Dollar, st, s, 0), "$1")
    decreases s
  {
    if IsPlaceholder(st, s[0]) {
      var out := Substituted(Dollar, st, s, 0);
      assert out[0..] == out && Dollar(1) == "$1";
    } else {
      FirstNumberAppears(Next(st, s[0]), s[1..]);
      ContainsBehind([s[0]], Substituted(Dollar, Next(st, s[0]), s[1..], 0), "$1");
    }
  }

  /** `rewrite_prepare_placeholders_for_postgres`: its error branch is never taken. */
  method RewritePlaceholders(sql: string) returns (r: Result<string, Error>)
    ensures r == Ok(Numbered(sql))
  {
    hide Substituted, CountFrom, Contains;
    var rewritten, _ := ScanPlaceholders(sql, Dollar);
    var _, expected := ScanPlaceholders(sql, QuestionMark);
    if expected == 0 {
      return Ok(rewritten);
    }
    FirstNumberAppears(Code, sql);
    if !Contains(rewritten, "$1") {
      return Err(FailedToRewrite);
    }
    return Ok(rewritten);
  }

  /** Digits and letters are plain code. */
  lemma {:induction false} WordIsCode(st: State, s: string)
    requires st.InCode() && s != "" && forall k :: 0 <= k < |s| ==> IsIdentifierChar(s[k])
    ensures After(PrepareDialect, st, s) == Code && CountFrom(st, s) == 0
    decreases s
  {
    assert IsIdentifierChar(s[0]);
    if |s| > 1 {
      WordIsCode(Code, s[1..]);
    }
  }

  /** The numbered text holds no placeholder, so numbering it again changes nothing. */
  lemma {:induction false} NumberingLeavesNone(st: State, s: string, n: nat)
    ensures CountFrom(st, Substituted(Dollar, st, s, n)) == 0
    decreases s
  {
    if s != "" {
      var found := IsPlaceholder(st, s[0]);
      var rest := Substituted(Dollar, Next(st, s[0]), s[1..], if found then n + 1 else n);
      NumberingLeavesNone(Next(st, s[0]), s[1..], if found then n + 1 else n);
      if found {
        WordIsCode(Next(st, '$'), Numeral(n + 1));
        assert Dollar(n + 1)[1..] == Numeral(n + 1);
        CountConcat(st, Dollar(n + 1), rest);
      } else {
        CountConcat(st, [s[0]], rest);
        CountOne(st, s[0]);
        assert After(PrepareDialect, st, [s[0]]) == Next(st, s[0]) by { AfterOne(st, s[0]); }
      }
    }
  }

  lemma AfterOne(st: State, c: char)
    ensures After(PrepareDialect, st, [c]) == Next(st, c)
  {
    assert [c][1..] == "";
  }

  lemma {:induction false} NothingToSubstitute(replacement: nat -> string, st: State, s: string, n: nat)
    requires CountFrom(st, s) == 0
    ensures Substituted(replacement, st, s, n) == s
    decreases s
  {
    if s != "" {
      NothingToSubstitute(replacement, Next(st, s[0]), s[1..], n);
      assert [s[0]] + s[1..] == s;
    }
  }

  /** Numbering leaves a text without placeholders, and is the identity exactly on such texts. */
  lemma NumberingIsComplete(s: string)
    ensures CountPlaceholders(Numbered(s)) == 0
    ensures Numbered(s) == s <==> CountPlaceholders(s) == 0
  {
    NumberingLeavesNone(Code, s, 0);
    if CountPlaceholders(s) == 0 {
      NothingToSubstitute(Dollar, Code, s, 0);
    }
  }
}
