/** Decimal numerals, as Rust's `format!("{n}")` and `format!("{n:0w$}")` write them. */
module Decimal {
  import opened Text

  function DigitChar(d: nat): char
    requires d < 10
  {
    ('0' as int + d) as char
  }

  function DigitValue(c: char): nat
    requires IsDigit(c)
  {
    c as int - '0' as int
  }

  lemma DigitsInOrder(k: nat)
    requires k < 10
    ensures DigitChar(k) == "0123456789"[k] && DigitValue("0123456789"[k]) == k
  {
  }

  predicate IsNumeral(s: string) {
    forall k :: 0 <= k < |s| ==> IsDigit(s[k])
  }

  /** `n.to_string()`. */
  function Numeral(n: nat): (s: string)
    ensures s != "" && IsNumeral(s)
  {
    if n < 10 then [DigitChar(n)] else Numeral(n / 10) + [DigitChar(n % 10)]
  }

  /** The value of a numeral, leading zeros allowed. */
  function Value(s: string): nat
    requires IsNumeral(s)
  {
    if s == "" then 0 else 10 * Value(s[..|s| - 1]) + DigitValue(s[|s| - 1])
  }

  lemma {:induction false} ValueOfNumeral(n: nat)
    ensures Value(Numeral(n)) == n
  {
    if n < 10 {
      assert Value([DigitChar(n)][..0]) == 0;
    } else {
      var s := Numeral(n / 10);
      ValueOfNumeral(n / 10);
      assert Numeral(n)[..|s|] == s;
    }
  }

  function Zeros(n: nat): (s: string)
    ensures |s| == n && IsNumeral(s)
  {
    if n == 0 then "" else "0" + Zeros(n - 1)
  }

  /** `format!("{n:0w$}")`: at least `w` digits. */
  function Padded(n: nat, w: nat): (s: string)
    ensures IsNumeral(s) && |s| >= w
  {
    var s := Numeral(n);
    if |s| >= w then s else Zeros(w - |s|) + s
  }

  lemma {:induction false} ValueOfZerosThen(n: nat, s: string)
    requires IsNumeral(s)
    ensures IsNumeral(Zeros(n) + s) && Value(Zeros(n) + s) == Value(s)
    decreases |s|
  {
    if s == "" {
      assert Zeros(n) + s == Zeros(n);
      ValueOfZeros(n);
    } else {
      ValueOfZerosThen(n, s[..|s| - 1]);
      assert (Zeros(n) + s)[..n + |s| - 1] == Zeros(n) + s[..|s| - 1];
    }
  }

  lemma {:induction false} ValueOfZeros(n: nat)
    ensures Value(Zeros(n)) == 0
  {
    if n > 0 {
      ValueOfZeros(n - 1);
      ZerosSnoc(n);
    }
  }

  lemma {:induction false} ZerosSnoc(n: nat)
    requires n > 0
    ensures Zeros(n)[..n - 1] == Zeros(n - 1) && Zeros(n)[n - 1] == '0'
  {
    if n > 1 {
      ZerosSnoc(n - 1);
      assert Zeros(n)[..n - 1] == "0" + Zeros(n - 1)[..n - 2];
    }
  }

  lemma ValueOfPadded(n: nat, w: nat)
    ensures Value(Padded(n, w)) == n
  {
    hide Numeral, Value, Zeros;
    ValueOfNumeral(n);
    if |Numeral(n)| < w {
      ValueOfZerosThen(w - |Numeral(n)|, Numeral(n));
    }
  }

  function Power10(w: nat): (p: nat)
    ensures p > 0
  {
    if w == 0 then 1 else 10 * Power10(w - 1)
  }

  /** A number below 10^w has at most w digits. */
  lemma {:induction false} NumeralLength(n: nat, w: nat)
    requires w > 0 && n < Power10(w)
    ensures |Numeral(n)| <= w
  {
    if n >= 10 {
      assert w > 1;
      NumeralLength(n / 10, w - 1);
    }
  }

  lemma PaddedLength(n: nat, w: nat)
    requires w > 0 && n < Power10(w)
    ensures |Padded(n, w)| == w
  {
    NumeralLength(n, w);
  }

  /** The number at the front of a text, and what follows it. */
  function ReadNumeral(s: string): (r: (nat, string)) {
    var n := SpanLength(IsDigit, s);
    (Value(s[..n]), s[n..])
  }

  lemma NumeralReads(a: string, t: string)
    requires IsNumeral(a) && (t != "" ==> !IsDigit(t[0]))
    ensures ReadNumeral(a + t) == (Value(a), t)
  {
    hide SpanLength, Value;
    var s := a + t;
    assert forall k :: 0 <= k < |a| ==> s[k] == a[k];
    assert |a| < |s| ==> s[|a|] == t[0];
    SpanIs(IsDigit, s, |a|);
    assert s[..|a|] == a && s[|a|..] == t;
  }
}
