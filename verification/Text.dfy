/** Text helpers with the behaviour of the Rust string methods the translator relies on.
    Text is a sequence of Unicode scalar values, as Rust's `chars()` yields them. */
module Text {

  datatype Option<+T> = None | Some(value: T)

  datatype Result<+T, +E> = Ok(value: T) | Err(error: E)

  /** One more than the largest `u32`. */
  const TwoTo32: nat := 0x1_0000_0000

  predicate IsDigit(c: char) {
    '0' <= c <= '9'
  }

  /** `is_identifier_char`: ASCII letters, digits and the underscore. */
  predicate IsIdentifierChar(c: char) {
    'a' <= c <= 'z' || 'A' <= c <= 'Z' || IsDigit(c) || c == '_'
  }

  predicate IsWord(w: string) {
    w != "" && forall k :: 0 <= k < |w| ==> IsIdentifierChar(w[k])
  }

  predicate IsQuote(c: char) {
    c == '\'' || c == '"' || c == '`'
  }

  /** `char::is_whitespace`: the Unicode White_Space property. */
  predicate IsSpace(c: char) {
    || '\t' <= c <= '\r'
    || c == ' '
    || c == '\U{85}'
    || c == '\U{A0}'
    || c == '\U{1680}'
    || '\U{2000}' <= c <= '\U{200A}'
    || c == '\U{2028}'
    || c == '\U{2029}'
    || c == '\U{202F}'
    || c == '\U{205F}'
    || c == '\U{3000}'
  }

  function Upper(c: char): char {
    if 'a' <= c <= 'z' then (c as int - 32) as char else c
  }

  /** `to_ascii_uppercase`. */
  function ToUpper(s: string): (r: string)
    ensures |r| == |s|
    ensures forall k :: 0 <= k < |s| ==> r[k] == Upper(s[k])
  {
    if s == "" then "" else [Upper(s[0])] + ToUpper(s[1..])
  }

  /** Upper case, character by character. */
  lemma UpperIs(s: string, t: string)
    requires |s| == |t| && forall k :: 0 <= k < |s| ==> Upper(s[k]) == t[k]
    ensures ToUpper(s) == t
  {
    hide ToUpper;
  }

  lemma UpperConcat(a: string, b: string)
    ensures ToUpper(a + b) == ToUpper(a) + ToUpper(b)
  {
    hide ToUpper;
  }

  const CapitalLetters := "ABCDEFGHIJKLMNOPQRSTUVWXYZ"
  const SmallLetters := "abcdefghijklmnopqrstuvwxyz"

  /** The 26 small letters have their capitals, and nothing else changes. */
  lemma UpperLetters(c: char)
    ensures forall k :: 0 <= k < 26 ==> Upper(SmallLetters[k]) == CapitalLetters[k]
    ensures c !in SmallLetters ==> Upper(c) == c
  {
    assert 'a' <= c <= 'z' ==> SmallLetters[c as int - 'a' as int] == c;
  }

  lemma LowerLetters(c: char)
    ensures forall k :: 0 <= k < 26 ==> Lower(CapitalLetters[k]) == SmallLetters[k]
    ensures c !in CapitalLetters ==> Lower(c) == c
  {
    assert 'A' <= c <= 'Z' ==> CapitalLetters[c as int - 'A' as int] == c;
  }

  const DigitsAndUnderscore := "0123456789_"

  /** The characters of identifiers, one by one, and no others. */
  lemma IdentifierCharacters(k: nat)
    ensures k < 26 ==> IsIdentifierChar(CapitalLetters[k]) && IsIdentifierChar(SmallLetters[k])
    ensures k < 11 ==> IsIdentifierChar(DigitsAndUnderscore[k])
  {
  }

  lemma IdentifierIsListed(c: char)
    requires IsIdentifierChar(c)
    ensures c in CapitalLetters || c in SmallLetters || c in DigitsAndUnderscore
  {
    if 'A' <= c <= 'Z' {
      assert CapitalLetters[c as int - 'A' as int] == c;
    } else if 'a' <= c <= 'z' {
      assert SmallLetters[c as int - 'a' as int] == c;
    } else if c == '_' {
      assert DigitsAndUnderscore[10] == c;
    } else {
      assert DigitsAndUnderscore[c as int - '0' as int] == c;
    }
  }

  /** The code points of the Unicode White_Space property. */
  const SpaceCodes: set<int> := {
    9, 10, 11, 12, 13, 32, 133, 160, 5760, 8192, 8193, 8194, 8195, 8196, 8197, 8198, 8199, 8200, 8201, 8202, 8232, 8233,
    8239, 8287, 12288}

  lemma SpaceCharacters(c: char)
    ensures IsSpace(c) <==> c as int in SpaceCodes
  {
  }

  function Lower(c: char): char {
    if 'A' <= c <= 'Z' then (c as int + 32) as char else c
  }

  /** `to_ascii_lowercase`. */
  function ToLower(s: string): (r: string)
    ensures |r| == |s|
  {
    seq(|s|, k requires 0 <= k < |s| => Lower(s[k]))
  }

  /** `eq_ignore_ascii_case`. */
  predicate EqIgnoreCase(a: string, b: string) {
    ToUpper(a) == ToUpper(b)
  }

  predicate StartsWith(s: string, c: char) {
    s != "" && s[0] == c
  }

  /** How many leading characters satisfy `p`. */
  function SpanLength(p: char -> bool, s: string): (n: nat)
    ensures n <= |s|
    ensures forall k :: 0 <= k < n ==> p(s[k])
    ensures n < |s| ==> !p(s[n])
  {
    if s == "" || !p(s[0]) then 0 else 1 + SpanLength(p, s[1..])
  }

  /** The span is the one length with these two properties. */
  lemma {:induction false} SpanIs(p: char -> bool, s: string, n: nat)
    requires n <= |s| && (forall k :: 0 <= k < n ==> p(s[k])) && (n < |s| ==> !p(s[n]))
    ensures SpanLength(p, s) == n
  {
    if n > 0 {
      assert p(s[0]);
      forall k | 0 <= k < n - 1 ensures p(s[1..][k]) {
        assert p(s[k + 1]);
      }
      SpanIs(p, s[1..], n - 1);
    }
  }

  predicate AllSpace(s: string) {
    forall k :: 0 <= k < |s| ==> IsSpace(s[k])
  }

  function TrimStart(s: string): string {
    if s == "" || !IsSpace(s[0]) then s else TrimStart(s[1..])
  }

  function TrimEnd(s: string): string {
    if s == "" || !IsSpace(s[|s| - 1]) then s else TrimEnd(s[..|s| - 1])
  }

  /** `str::trim`. */
  function Trim(s: string): string {
    TrimEnd(TrimStart(s))
  }

  predicate Trimmed(s: string) {
    s != "" ==> !IsSpace(s[0]) && !IsSpace(s[|s| - 1])
  }

  lemma {:induction false} TrimStartSplits(s: string) returns (lead: string)
    ensures s == lead + TrimStart(s) && AllSpace(lead)
    ensures TrimStart(s) != "" ==> !IsSpace(TrimStart(s)[0])
  {
    lead := "";
    if s != "" && IsSpace(s[0]) {
      lead := TrimStartSplits(s[1..]);
      lead := [s[0]] + lead;
    }
  }

  lemma {:induction false} TrimEndSplits(s: string) returns (trail: string)
    ensures s == TrimEnd(s) + trail && AllSpace(trail)
    ensures TrimEnd(s) != "" ==> !IsSpace(TrimEnd(s)[|TrimEnd(s)| - 1])
    decreases |s|
  {
    trail := "";
    if s != "" && IsSpace(s[|s| - 1]) {
      trail := TrimEndSplits(s[..|s| - 1]);
      trail := trail + [s[|s| - 1]];
    }
  }

  /** What trimming removes is blank on both sides, and what is left has no blank at either end. */
  lemma TrimSplits(s: string) returns (lead: string, trail: string)
    ensures s == lead + (Trim(s) + trail) && AllSpace(lead) && AllSpace(trail)
    ensures Trimmed(Trim(s))
  {
    lead := TrimStartSplits(s);
    trail := TrimEndSplits(TrimStart(s));
    assert Trim(s) != "" ==> TrimStart(s)[0] == Trim(s)[0];
  }

  lemma {:induction false} TrimStartBlank(lead: string, s: string)
    requires AllSpace(lead) && (s != "" ==> !IsSpace(s[0]))
    ensures TrimStart(lead + s) == s
  {
    if lead == "" {
      assert lead + s == s;
    } else {
      assert (lead + s)[1..] == lead[1..] + s;
      TrimStartBlank(lead[1..], s);
    }
  }

  /** Trimming is the identity on trimmed text, whatever blanks stand before it. */
  lemma TrimPadded(lead: string, s: string)
    requires AllSpace(lead) && Trimmed(s)
    ensures Trim(lead + s) == s
  {
    TrimStartBlank(lead, s);
  }

  lemma TrimmedStays(s: string)
    requires Trimmed(s)
    ensures Trim(s) == s
  {
    TrimPadded("", s);
    assert "" + s == s;
  }

  /** `parts.join(sep)`. */
  function Join(parts: seq<string>, sep: string): string {
    if parts == [] then ""
    else if |parts| == 1 then parts[0]
    else parts[0] + sep + Join(parts[1..], sep)
  }

  lemma ConcatAssoc<T>(a: seq<T>, b: seq<T>, c: seq<T>)
    ensures a + (b + c) == a + b + c
  {
  }

  lemma SplitEqual<T>(a: seq<T>, b: seq<T>, c: seq<T>, d: seq<T>)
    requires |a| == |b|
    ensures a + c == b + d <==> a == b && c == d
  {
    assert (a + c)[..|a|] == a && (b + d)[..|a|] == b;
    assert (a + c)[|a|..] == c && (b + d)[|a|..] == d;
  }

  lemma SplitAt<T>(s: seq<T>, n: nat)
    requires n <= |s|
    ensures s[..n] + s[n..] == s
  {
  }

  lemma SliceGrows<T>(prefix: seq<T>, s: seq<T>, i: nat, j: nat)
    requires i <= j < |s|
    ensures prefix + s[i..j] + [s[j]] == prefix + s[i..j + 1]
  {
    assert s[i..j + 1] == s[i..j] + [s[j]];
  }

  lemma SliceOfSuffix<T>(s: seq<T>, i: nat, j: nat, k: nat)
    requires i <= |s| && j <= k <= |s| - i
    ensures s[i..][j..k] == s[i + j..i + k]
  {
  }

  lemma SliceOfPrefix<T>(s: seq<T>, n: nat, j: nat, k: nat)
    requires j <= k <= n <= |s|
    ensures s[..n][j..k] == s[j..k]
  {
  }

  /** Reading on from a suffix. */
  lemma SuffixSteps<T>(s: seq<T>, i: nat)
    requires i < |s|
    ensures s[i..] == [s[i]] + s[i + 1..]
    ensures s[i..][1..] == s[i + 1..]
    ensures i + 1 < |s| ==> s[i..][1] == s[i + 1] && s[i..][2..] == s[i + 2..]
  {
  }

  /** What follows an expected beginning. */
  function Expect(p: string, s: string): Option<string> {
    if p <= s then Some(s[|p|..]) else None
  }

  lemma ExpectPrefix(p: string, t: string)
    ensures Expect(p, p + t) == Some(t)
  {
    assert (p + t)[|p|..] == t;
  }
}
