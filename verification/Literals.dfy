/** The two literal normalisers. Literals are read by the code's MySQL rules (its own escape table) and written by
    PostgreSQL rules, where only a doubled quote is special. */
module Literals {
  import opened Text
  import opened Fragments

  /** What a reader of SQL text sees: plain characters, string literals with their value, quoted names. */
  datatype Token = Plain(c: char) | Literal(value: string) | Name(value: string)

  /** A quoted value and how many characters it takes up after the opening quote. */
  datatype Quotation = Quotation(value: string, length: nat) {
    function Prepend(v: string, n: nat): Quotation {
      Quotation(v + value, length + n)
    }
  }

  // ---------------------------------------------------------------------------------------------------------------
  // Reading by the code's MySQL rules

  /** Characters that lose the backslash before them, or stand for another character. */
  predicate Escapable(c: char) {
    c in "0bnrtZ'\"\\"
  }

  function Unescape(c: char): string {
    match c
    case '0' => "\0"
    case 'b' => "\U{08}"
    case 'n' => "\n"
    case 'r' => "\r"
    case 't' => "\t"
    case 'Z' => "\U{1A}"
    case _ => if Escapable(c) then [c] else ['\\', c]
  }

  /** The quotation opened by `q`, read from just after the opening quote. */
  function MySqlBody(q: char, s: string): (r: Quotation)
    ensures r.length <= |s|
  {
    if s == "" then Quotation("", 0)
    else if s[0] == '\\' then
      if |s| == 1 then Quotation("\\", 1) else MySqlBody(q, s[2..]).Prepend(Unescape(s[1]), 2)
    else if s[0] == q then
      if |s| > 1 && s[1] == q then MySqlBody(q, s[2..]).Prepend([q], 2) else Quotation("", 1)
    else MySqlBody(q, s[1..]).Prepend([s[0]], 1)
  }

  /** The token sequence of a text by MySQL rules: single and double quotes both delimit string literals. */
  function MySqlTokens(s: string): seq<Token> {
    if s == "" then []
    else if s[0] == '\'' || s[0] == '"' then
      var body := MySqlBody(s[0], s[1..]);
      [Literal(body.value)] + MySqlTokens(s[1 + body.length..])
    else [Plain(s[0])] + MySqlTokens(s[1..])
  }

  // ---------------------------------------------------------------------------------------------------------------
  // Reading and writing by PostgreSQL rules

  /** A PostgreSQL quotation: a doubled quote stands for itself and nothing else is special. */
  function PostgresBody(q: char, s: string): (r: Quotation)
    ensures r.length <= |s|
  {
    if s == "" then Quotation("", 0)
    else if s[0] == q then
      if |s| > 1 && s[1] == q then PostgresBody(q, s[2..]).Prepend([q], 2) else Quotation("", 1)
    else PostgresBody(q, s[1..]).Prepend([s[0]], 1)
  }

  /** The token sequence by PostgreSQL rules: single quotes delimit literals, double quotes delimit names. */
  function PostgresTokens(s: string): seq<Token> {
    if s == "" then []
    else if s[0] == '\'' || s[0] == '"' then
      var body := PostgresBody(s[0], s[1..]);
      [if s[0] == '\'' then Literal(body.value) else Name(body.value)] + PostgresTokens(s[1 + body.length..])
    else [Plain(s[0])] + PostgresTokens(s[1..])
  }

  /** `value.replace(q, qq)`: every quote doubled. */
  function Doubled(q: char, v: string): string {
    if v == "" then "" else (if v[0] == q then [q, q] else [v[0]]) + Doubled(q, v[1..])
  }

  lemma {:induction false} NothingToDouble(q: char, v: string)
    requires q !in v
    ensures Doubled(q, v) == v
  {
    if v != "" {
      NothingToDouble(q, v[1..]);
      assert v == [v[0]] + v[1..];
    }
  }

  /** `postgres_string_literal`. */
  function Encode(v: string): (r: string)
    ensures |r| >= 2
  {
    "'" + Doubled('\'', v) + "'"
  }

  /** Plain characters as they are, literals in PostgreSQL form. */
  function Print(ts: seq<Token>): string {
    if ts == [] then ""
    else (if ts[0].Plain? then [ts[0].c] else Encode(ts[0].value)) + Print(ts[1..])
  }

  /** The reader of values and the copier of fragments see the same quotation. */
  lemma {:induction false} SameExtent(q: char, s: string)
    ensures MySqlBody(q, s).length == Body(q, s).length
    ensures MySqlBody(q, s[..Body(q, s).length]) == MySqlBody(q, s)
    decreases s
  {
    if s != "" {
      var n := Body(q, s).length;
      var p := s[..n];
      if |s| > 1 && (s[0] == '\\' || (s[0] == q && s[1] == q)) {
        SameExtent(q, s[2..]);
        assert p[0] == s[0] && p[1] == s[1] && p[2..] == s[2..][..n - 2];
      } else if s[0] != '\\' && s[0] != q {
        SameExtent(q, s[1..]);
        assert p[0] == s[0] && p[1..] == s[1..][..n - 1];
      } else {
        assert p == [s[0]];
      }
    } else {
      assert s[..0] == s;
    }
  }

  // ---------------------------------------------------------------------------------------------------------------
  // The imperative normalisers

  lemma MySqlBodyAt(q: char, sql: string, i: nat)
    requires i < |sql|
    ensures MySqlBody(q, sql[i..]) ==
            if sql[i] == '\\' then
              if i + 1 == |sql| then Quotation("\\", 1)
              else MySqlBody(q, sql[i + 2..]).Prepend(Unescape(sql[i + 1]), 2)
            else if sql[i] == q then
              if i + 1 < |sql| && sql[i + 1] == q then MySqlBody(q, sql[i + 2..]).Prepend([q], 2)
              else Quotation("", 1)
            else MySqlBody(q, sql[i + 1..]).Prepend([sql[i]], 1)
  {
    SuffixSteps(sql, i);
  }

  lemma PrependTwice(r: Quotation, v: string, n: nat, w: string, m: nat)
    ensures r.Prepend(w, m).Prepend(v, n) == r.Prepend(v + w, n + m)
  {
    assert v + (w + r.value) == v + w + r.value;
  }

  lemma MySqlBodyOfNothing(q: char, sql: string)
    ensures MySqlBody(q, sql[|sql|..]) == Quotation("", 0)
  {
  }

  /** The inner loop both normalisers share: the value of a literal and the index after it. */
  method ReadLiteral(sql: string, start: nat, quote: char) returns (value: string, i: nat)
    requires start <= |sql|
    ensures start <= i <= |sql|
    ensures Quotation(value, i - start) == MySqlBody(quote, sql[start..])
  {
    hide MySqlBody;
    value, i := "", start;
    ghost var whole := MySqlBody(quote, sql[start..]);
    assert "" + whole.value == whole.value;
    while i < |sql|
      invariant start <= i <= |sql|
      invariant whole == MySqlBody(quote, sql[i..]).Prepend(value, i - start)
    {
      var inner := sql[i];
      MySqlBodyAt(quote, sql, i);
      if inner == '\\' {
        if i + 1 < |sql| {
          PrependTwice(MySqlBody(quote, sql[i + 2..]), value, i - start, Unescape(sql[i + 1]), 2);
          value, i := value + Unescape(sql[i + 1]), i + 2;
        } else {
          value, i := value + "\\", i + 1;
          MySqlBodyOfNothing(quote, sql);
          assert value + "" == value;
        }
        continue;
      }
      if inner == quote {
        if i + 1 < |sql| && sql[i + 1] == quote {
          PrependTwice(MySqlBody(quote, sql[i + 2..]), value, i - start, [quote], 2);
          value, i := value + [quote], i + 2;
          continue;
        }
        i := i + 1;
        assert value + "" == value;
        return;
      }
      PrependTwice(MySqlBody(quote, sql[i + 1..]), value, i - start, [inner], 1);
      value, i := value + [inner], i + 1;
    }
    MySqlBodyOfNothing(quote, sql);
    assert value + "" == value;
  }

  function Normalized(s: string): string {
    Print(MySqlTokens(s))
  }

  lemma PrintCons(t: Token, ts: seq<Token>)
    ensures Print([t] + ts) == (if t.Plain? then [t.c] else Encode(t.value)) + Print(ts)
  {
    assert ([t] + ts)[1..] == ts;
  }

  lemma NormalizedStep(s: string)
    requires s != ""
    ensures Normalized(s) ==
            if s[0] == '\'' || s[0] == '"' then
              var body := MySqlBody(s[0], s[1..]);
              Encode(body.value) + Normalized(s[1 + body.length..])
            else [s[0]] + Normalized(s[1..])
  {
    hide MySqlBody, Encode, Print;
    if s[0] == '\'' || s[0] == '"' {
      var body := MySqlBody(s[0], s[1..]);
      PrintCons(Literal(body.value), MySqlTokens(s[1 + body.length..]));
    } else {
      PrintCons(Plain(s[0]), MySqlTokens(s[1..]));
    }
  }

  lemma NormalizedNothing()
    ensures Normalized("") == "" && Requoted("") == ""
  {
  }

  /** `normalize_mysql_string_literals`. */
  method NormalizeStringLiterals(sql: string) returns (normalized: string)
    ensures normalized == Normalized(sql)
  {
    hide MySqlBody, MySqlTokens, Print;
    assert sql[0..] == sql;
    normalized := "";
    var i := 0;
    while i < |sql|
      invariant i <= |sql|
      invariant normalized + Normalized(sql[i..]) == Normalized(sql)
    {
      var ch := sql[i];
      SuffixSteps(sql, i);
      NormalizedStep(sql[i..]);
      if ch != '\'' && ch != '"' {
        ConcatAssoc(normalized, [ch], Normalized(sql[i + 1..]));
        normalized, i := normalized + [ch], i + 1;
        continue;
      }
      var value, next := ReadLiteral(sql, i + 1, ch);
      assert sql[i..][1 + (next - (i + 1))..] == sql[next..];
      ConcatAssoc(normalized, Encode(value), Normalized(sql[next..]));
      normalized, i := normalized + Encode(value), next;
    }
    assert sql[i..] == "";
    NormalizedNothing();
  }

  /** The pre-pass: double-quoted literals are rewritten, single-quoted and backticked fragments copied. */
  function Requoted(s: string): string {
    if s == "" then ""
    else if s[0] == '\'' || s[0] == '`' then s[..FragmentLength(s)] + Requoted(s[FragmentLength(s)..])
    else if s[0] == '"' then
      var body := MySqlBody('"', s[1..]);
      Encode(body.value) + Requoted(s[1 + body.length..])
    else [s[0]] + Requoted(s[1..])
  }

  lemma {:induction false} RequotedStep(sql: string, i: nat)
    requires i < |sql|
    ensures sql[i] == '\'' || sql[i] == '`' ==>
              var next := i + FragmentLength(sql[i..]);
              Requoted(sql[i..]) == sql[i..next] + Requoted(sql[next..])
    ensures sql[i] == '"' ==>
              var body := MySqlBody('"', sql[i + 1..]);
              Requoted(sql[i..]) == Encode(body.value) + Requoted(sql[i + 1 + body.length..])
    ensures !IsQuote(sql[i]) ==> Requoted(sql[i..]) == [sql[i]] + Requoted(sql[i + 1..])
  {
    hide MySqlBody, Body;
    var s := sql[i..];
    if s[0] == '"' {
      var body := MySqlBody('"', s[1..]);
      assert s[1..] == sql[i + 1..] && s[1 + body.length..] == sql[i + 1 + body.length..];
    } else if IsQuote(s[0]) {
      var n := FragmentLength(s);
      assert s[..n] == sql[i..i + n] && s[n..] == sql[i + n..];
    } else {
      assert s[1..] == sql[i + 1..];
    }
  }

  /** `normalize_mysql_double_quoted_string_literals`. */
  method NormalizeDoubleQuoted(sql: string) returns (normalized: string)
    ensures normalized == Requoted(sql)
  {
    hide MySqlBody, Requoted, Body;
    assert sql[0..] == sql;
    normalized := "";
    var i := 0;
    while i < |sql|
      invariant i <= |sql|
      invariant normalized + Requoted(sql[i..]) == Requoted(sql)
    {
      var ch := sql[i];
      RequotedStep(sql, i);
      if ch == '\'' || ch == '`' {
        ghost var next := i + FragmentLength(sql[i..]);
        ConcatAssoc(normalized, sql[i..next], Requoted(sql[next..]));
        i, normalized := CopyQuotedFragment(sql, i, normalized);
      } else if ch == '"' {
        var value, next := ReadLiteral(sql, i + 1, ch);
        ConcatAssoc(normalized, Encode(value), Requoted(sql[next..]));
        normalized, i := normalized + Encode(value), next;
      } else {
        ConcatAssoc(normalized, [ch], Requoted(sql[i + 1..]));
        normalized, i := normalized + [ch], i + 1;
      }
    }
    assert sql[i..] == "";
    NormalizedNothing();
  }
}
