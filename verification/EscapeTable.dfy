/** The escape sequences of section 11.1.1 of the MySQL 8.4 Reference Manual, in code points, and how the normalisers
    read them. */
module EscapeTable {
  import opened Text
  import opened Literals

  /** The characters with an escape sequence, and the character that stands for each behind a backslash: NUL, backspace,
      tab, newline, return, 26, the two quotes and the backslash. */
  const Escapes: map<int, int> := map[
    0 := 48, 8 := 98, 9 := 116, 10 := 110, 13 := 114, 26 := 90, 34 := 34, 39 := 39, 92 := 92]

  /** What stands for what, the other way round. */
  const Escaped: map<int, int> := map[
    48 := 0, 98 := 8, 116 := 9, 110 := 10, 114 := 13, 90 := 26, 34 := 34, 39 := 39, 92 := 92]

  /** A value written with every escape sequence there is. */
  function Spelled(v: string): string {
    if v == "" then ""
    else
      var c := v[0] as int;
      (if c in Escapes then [92 as char, Escapes[c] as char] else [v[0]]) + Spelled(v[1..])
  }

  lemma PairIsRead(q: char, c: char, rest: string)
    ensures c as int in Escaped ==>
              MySqlBody(q, ['\\', c] + rest) == MySqlBody(q, rest).Prepend([Escaped[c as int] as char], 2)
    ensures c as int !in Escaped ==> MySqlBody(q, ['\\', c] + rest) == MySqlBody(q, rest).Prepend(['\\', c], 2)
  {
    hide MySqlBody;
    UnescapeByTable(c);
    PairStep(q, c, rest);
  }

  lemma PairStep(q: char, c: char, rest: string)
    ensures MySqlBody(q, ['\\', c] + rest) == MySqlBody(q, rest).Prepend(Unescape(c), 2)
  {
    var s := ['\\', c] + rest;
    assert s[0] == '\\' && s[1] == c && s[2..] == rest;
  }

  lemma UnescapeByTable(c: char)
    ensures Unescape(c) == if c as int in Escaped then [Escaped[c as int] as char] else ['\\', c]
  {
    assert forall k :: 0 <= k < 9 ==> "0bnrtZ'\"\\"[k] as int in Escaped;
    assert forall x :: x in {'0', 'b', 'n', 'r', 't', 'Z', '\'', '"', '\\'} ==> Escapable(x) by {
      assert "0bnrtZ'\"\\" == ['0', 'b', 'n', 'r', 't', 'Z', '\'', '"', '\\'];
    }
  }

  /** Whatever the value, and whichever quotes it stands in: written with escape sequences it is read back. */
  lemma {:induction false} SpelledIsReadBack(q: char, v: string)
    requires q == '\'' || q == '"'
    ensures MySqlBody(q, Spelled(v) + [q]) == Quotation(v, |Spelled(v)| + 1)
    decreases v
  {
    hide MySqlBody;
    if v == "" {
      QuoteIsRead(q);
      assert Spelled(v) + [q] == [q];
    } else {
      var (c, rest) := (v[0] as int, Spelled(v[1..]) + [q]);
      SpelledIsReadBack(q, v[1..]);
      assert [v[0]] + v[1..] == v;
      if c in Escapes {
        ConcatAssoc(['\\', Escapes[c] as char], Spelled(v[1..]), [q]);
        PairIsRead(q, Escapes[c] as char, rest);
      } else {
        ConcatAssoc([v[0]], Spelled(v[1..]), [q]);
        OrdinaryIsRead(q, v[0], rest);
      }
    }
  }

  lemma QuoteIsRead(q: char)
    requires q == '\'' || q == '"'
    ensures MySqlBody(q, [q]) == Quotation("", 1)
  {
  }

  lemma OrdinaryIsRead(q: char, c: char, rest: string)
    requires c != '\\' && c != q
    ensures MySqlBody(q, [c] + rest) == MySqlBody(q, rest).Prepend([c], 1)
  {
    assert ([c] + rest)[1..] == rest;
  }

  lemma SpelledTokens(q: char, v: string)
    requires q == '\'' || q == '"'
    ensures MySqlTokens([q] + (Spelled(v) + [q])) == [Literal(v)]
  {
    hide MySqlBody, Spelled;
    SpelledIsReadBack(q, v);
    var s := [q] + (Spelled(v) + [q]);
    assert s[1..] == Spelled(v) + [q] && s[1 + |Spelled(v)| + 1..] == "";
    assert MySqlTokens("") == [];
  }

  // ---------------------------------------------------------------------------------------------------------------
  // The other sequences

  /** The manual's reading: `\%` and `\_` are kept, and any other backslash is ignored. */
  function ManualPair(c: char): string {
    if c as int in Escaped then [Escaped[c as int] as char] else if c == '%' || c == '_' then ['\\', c] else [c]
  }

  function ManualBody(q: char, s: string): (r: Quotation)
    ensures r.length <= |s|
  {
    if s == "" then Quotation("", 0)
    else if s[0] == '\\' then
      if |s| == 1 then Quotation("\\", 1) else ManualBody(q, s[2..]).Prepend(ManualPair(s[1]), 2)
    else if s[0] == q then
      if |s| > 1 && s[1] == q then ManualBody(q, s[2..]).Prepend([q], 2) else Quotation("", 1)
    else ManualBody(q, s[1..]).Prepend([s[0]], 1)
  }

  /** How many sequences of a literal are none of those that the manual lists. */
  function OtherPairs(q: char, s: string): nat {
    if s == "" then 0
    else if s[0] == '\\' then
      if |s| == 1 then 0
      else (if s[1] as int in Escaped || s[1] == '%' || s[1] == '_' then 0 else 1) + OtherPairs(q, s[2..])
    else if s[0] == q then
      if |s| > 1 && s[1] == q then OtherPairs(q, s[2..]) else 0
    else OtherPairs(q, s[1..])
  }

  /** The code keeps the backslash of every sequence that the manual does not list: so it reads a literal as the manual
      does exactly if there is none. */
  lemma {:induction false} ReadsAsManualExactly(q: char, s: string)
    ensures MySqlBody(q, s).length == ManualBody(q, s).length
    ensures |MySqlBody(q, s).value| == |ManualBody(q, s).value| + OtherPairs(q, s)
    ensures MySqlBody(q, s) == ManualBody(q, s) <==> OtherPairs(q, s) == 0
    decreases s
  {
    if s != "" && s[0] == '\\' && |s| > 1 {
      UnescapeByTable(s[1]);
      ReadsAsManualExactly(q, s[2..]);
    } else if s != "" && s[0] == q {
      if |s| > 1 && s[1] == q {
        ReadsAsManualExactly(q, s[2..]);
      }
    } else if s != "" && s[0] != '\\' {
      ReadsAsManualExactly(q, s[1..]);
    }
  }

  /** The input: a backslash before an x, which the manual ignores. */
  lemma OtherPairIsKept()
    ensures MySqlTokens("'\\x'") == [Literal("\\x")] && ManualBody('\'', "\\x'") == Quotation("x", 3)
  {
    var s := "'\\x'";
    assert s[1..] == "\\x'" && s[1..][2..] == "'" && s[4..] == "";
    UnescapeByTable('x');
    assert MySqlBody('\'', "'") == Quotation("", 1);
    assert MySqlBody('\'', s[1..]) == Quotation("\\x", 3);
  }
}
