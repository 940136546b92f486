/** Which texts are a KILL, and of which connection. */
module KillText {
  import opened Text
  import opened Decimal
  import opened SessionText
  import opened Session

  predicate AllSemicolons(s: string) {
    forall k :: 0 <= k < |s| ==> s[k] == ';'
  }

  /** The parts of a KILL: blanks, the word in any case, a blank and more blanks, an optional plus sign, digits, and
      blanks, semicolons and blanks behind. */
  datatype Kill = Kill(lead: string, word: string, blanks: string, sign: string, digits: string, gap: string,
                       semicolons: string, trail: string) {
    predicate Valid() {
      && AllSpace(lead) && ToUpper(word) == "KILL" && AllSpace(blanks) && sign in {"", "+"}
      && digits != "" && IsNumeral(digits) && Value(digits) < TwoTo32
      && AllSpace(gap) && AllSemicolons(semicolons) && AllSpace(trail)
    }

    function Core(): string {
      word + (" " + (blanks + (sign + digits)))
    }

    function Text(): string {
      lead + ((Core() + (gap + semicolons)) + trail)
    }
  }

  // ---------------------------------------------------------------------------------------------------------------
  // A KILL is read

  lemma {:induction false} TrimEndAround(s: string, trail: string)
    requires AllSpace(trail) && (s != "" ==> !IsSpace(s[|s| - 1]))
    ensures TrimEnd(s + trail) == s
    decreases |trail|
  {
    if trail == "" {
      assert s + trail == s;
    } else {
      assert (s + trail)[..|s + trail| - 1] == s + trail[..|trail| - 1];
      TrimEndAround(s, trail[..|trail| - 1]);
    }
  }

  lemma TrimAround(lead: string, s: string, trail: string)
    requires AllSpace(lead) && AllSpace(trail) && s != "" && !IsSpace(s[0]) && !IsSpace(s[|s| - 1])
    ensures Trim(lead + (s + trail)) == s
  {
    TrimStartBlank(lead, s + trail);
    TrimEndAround(s, trail);
  }

  lemma {:induction false} SemicolonsGo(s: string, semicolons: string)
    requires AllSemicolons(semicolons) && (s != "" ==> s[|s| - 1] != ';')
    ensures TrimEndMatches(';', s + semicolons) == s
    decreases |semicolons|
  {
    if semicolons == "" {
      assert s + semicolons == s;
    } else {
      assert (s + semicolons)[..|s + semicolons| - 1] == s + semicolons[..|semicolons| - 1];
      SemicolonsGo(s, semicolons[..|semicolons| - 1]);
    }
  }

  lemma CoreIsBare(k: Kill)
    requires k.Valid()
    ensures Bare(k.Text()) == k.Core()
  {
    hide Trim, TrimEndMatches, Value, IsSpace;
    var core := k.Core();
    CoreEnds(k);
    if k.semicolons == "" {
      assert k.gap + "" == k.gap;
      GapAndTrail(k);
      TrimAround(k.lead, core, k.gap + k.trail);
      EndStops(';', core);
      TrimAround("", core, "");
      assert "" + (core + "") == core;
    } else {
      var body := core + (k.gap + k.semicolons);
      assert body[0] == core[0] && body[|body| - 1] == ';';
      SemicolonIsNoSpace();
      TrimAround(k.lead, body, k.trail);
      BehindGap(core, k.gap, k.semicolons);
      ConcatAssoc(core, k.gap, k.semicolons);
      SemicolonsGo(core + k.gap, k.semicolons);
      TrimAround("", core, k.gap);
      assert "" + (core + k.gap) == core + k.gap;
    }
  }

  lemma CoreEnds(k: Kill)
    requires k.Valid()
    ensures var core := k.Core();
            core != "" && !IsSpace(core[0]) && !IsSpace(core[|core| - 1]) && core[|core| - 1] != ';'
  {
    hide Value;
    var core := k.Core();
    assert |k.word| == 4 && Upper(k.word[0]) == 'K';
    assert core[0] == k.word[0] && core[|core| - 1] == k.digits[|k.digits| - 1];
    assert IsDigit(k.digits[|k.digits| - 1]);
  }

  lemma GapAndTrail(k: Kill)
    requires k.Valid() && k.semicolons == ""
    ensures k.Text() == k.lead + (k.Core() + (k.gap + k.trail)) && AllSpace(k.gap + k.trail)
  {
    assert k.gap + "" == k.gap;
    ConcatAssoc(k.Core(), k.gap, k.trail);
  }

  lemma SemicolonIsNoSpace()
    ensures !IsSpace(';')
  {
  }

  lemma BehindGap(core: string, gap: string, semicolons: string)
    requires core != "" && core[|core| - 1] != ';' && AllSpace(gap)
    ensures (core + gap)[|core + gap| - 1] != ';'
  {
  }

  lemma KillIsParsed(k: Kill)
    requires k.Valid()
    ensures ParseKill(k.Text()) == Some(Value(k.digits))
  {
    hide Bare, Value, Trim, ToUpper;
    CoreIsBare(k);
    var tail := " " + (k.blanks + (k.sign + k.digits));
    UpperConcat(k.word, tail);
    TailHasNoLetters(k);
    UpperIs(tail, tail);
    assert ToUpper(k.Core()) == "KILL" + tail;
    var rest := k.blanks + (k.sign + k.digits);
    assert ("KILL" + tail)[5..] == rest && "KILL " <= "KILL" + tail;
    NumberEnds(k);
    TrimAround(k.blanks, k.sign + k.digits, "");
    assert (k.sign + k.digits) + "" == k.sign + k.digits;
    SignedIsParsed(k.sign, k.digits);
  }

  lemma TailHasNoLetters(k: Kill)
    requires k.Valid()
    ensures var tail := " " + (k.blanks + (k.sign + k.digits));
            forall i :: 0 <= i < |tail| ==> Upper(tail[i]) == tail[i]
  {
    hide Value;
  }

  lemma NumberEnds(k: Kill)
    requires k.Valid()
    ensures var n := k.sign + k.digits; n != "" && !IsSpace(n[0]) && !IsSpace(n[|n| - 1])
  {
    hide Value;
    var n := k.sign + k.digits;
    assert IsDigit(k.digits[0]) && IsDigit(k.digits[|k.digits| - 1]);
    assert n[|n| - 1] == k.digits[|k.digits| - 1];
  }

  lemma SignedIsParsed(sign: string, digits: string)
    requires sign in {"", "+"} && digits != "" && IsNumeral(digits) && Value(digits) < TwoTo32
    ensures ParseU32(sign + digits) == Some(Value(digits))
  {
    hide Value;
    if sign == "" {
      assert sign + digits == digits && IsDigit(digits[0]);
    } else {
      assert (sign + digits)[1..] == digits;
    }
  }

  // ---------------------------------------------------------------------------------------------------------------
  // Nothing else is

  lemma {:induction false} TrimEndMatchesSplits(s: string) returns (semicolons: string)
    ensures s == TrimEndMatches(';', s) + semicolons && AllSemicolons(semicolons)
    decreases |s|
  {
    semicolons := "";
    if s != "" && s[|s| - 1] == ';' {
      semicolons := TrimEndMatchesSplits(s[..|s| - 1]);
      semicolons := semicolons + ";";
    }
  }

  lemma {:induction false} TrimOfStart(s: string) returns (gap: string)
    requires s != "" ==> !IsSpace(s[0])
    ensures s == Trim(s) + gap && AllSpace(gap)
  {
    gap := TrimEndSplits(s);
    if s != "" {
      assert TrimStart(s) == s;
    }
  }

  /** A text around its bare form. */
  lemma BareSplits(text: string) returns (lead: string, gap: string, semicolons: string, trail: string)
    ensures text == lead + ((Bare(text) + (gap + semicolons)) + trail)
    ensures AllSpace(lead) && AllSpace(gap) && AllSemicolons(semicolons) && AllSpace(trail) && Trimmed(Bare(text))
  {
    hide Trim, TrimEndMatches;
    lead, trail := TrimSplits(text);
    var inner := Trim(text);
    semicolons := TrimEndMatchesSplits(inner);
    var left := TrimEndMatches(';', inner);
    assert left != "" ==> left[0] == inner[0];
    gap := TrimOfStart(left);
    ConcatAssoc(Bare(text), gap, semicolons);
    var a, b := TrimSplits(left);
  }

  lemma {:induction false} UpperOfDigits(s: string, u: string)
    requires ToUpper(s) == u && (forall k :: 0 <= k < |u| ==> !('A' <= u[k] <= 'Z'))
    ensures s == u
  {
    hide ToUpper;
    forall k | 0 <= k < |s| ensures s[k] == u[k] {
      assert u[k] == Upper(s[k]);
    }
  }

  lemma ParsedIsSigned(s: string) returns (sign: string, digits: string)
    requires ParseU32(s).Some?
    ensures s == sign + digits && sign in {"", "+"} && digits != "" && IsNumeral(digits)
    ensures Value(digits) < TwoTo32 && ParseU32(s) == Some(Value(digits))
  {
    hide Value;
    sign, digits := if StartsWith(s, '+') then "+" else "", if StartsWith(s, '+') then s[1..] else s;
  }

  /** The bare text of a KILL, cut into its parts. */
  lemma BareIsKill(bare: string) returns (blanks: string, sign: string, digits: string)
    requires Trimmed(bare) && "KILL " <= ToUpper(bare) && ParseU32(Trim(ToUpper(bare)[5..])).Some?
    ensures AllSpace(blanks) && sign in {"", "+"} && digits != "" && IsNumeral(digits) && Value(digits) < TwoTo32
    ensures ParseU32(Trim(ToUpper(bare)[5..])) == Some(Value(digits))
    ensures ToUpper(bare)[5..] == blanks + (sign + digits)
  {
    hide Value, Trim, ToUpper, ParseU32, IsSpace;
    var upper := ToUpper(bare);
    sign, digits := ParsedIsSigned(Trim(upper[5..]));
    var back;
    blanks, back := TrimSplits(upper[5..]);
    NothingBehind(bare, upper, sign + digits, blanks, back);
  }

  lemma WordAndTail(bare: string, blanks: string, sign: string, digits: string)
    requires "KILL " <= ToUpper(bare) && ToUpper(bare)[5..] == blanks + (sign + digits)
    requires AllSpace(blanks) && sign in {"", "+"} && IsNumeral(digits)
    ensures ToUpper(bare[..4]) == "KILL" && bare == bare[..4] + (" " + (blanks + (sign + digits)))
  {
    hide ToUpper;
    var upper := ToUpper(bare);
    SplitAt(bare, 4);
    ToUpperCut(bare, 4);
    assert upper[4] == ' ' && upper[4..][1..] == upper[5..];
    BlanksHaveNoLetters(blanks, sign, digits);
    UpperOfDigits(bare[4..], upper[4..]);
  }

  lemma ParsedIsKill(text: string) returns (k: Kill)
    requires ParseKill(text).Some?
    ensures k.Valid() && k.Text() == text && Value(k.digits) == ParseKill(text).value
  {
    hide Value, Trim, ToUpper, ParseU32, IsSpace, TrimEndMatches, Bare;
    var lead, gap, semicolons, trail := BareSplits(text);
    var blanks, sign, digits := BareIsKill(Bare(text));
    WordAndTail(Bare(text), blanks, sign, digits);
    k := Kill(lead, Bare(text)[..4], blanks, sign, digits, gap, semicolons, trail);
  }

  lemma ToUpperCut(s: string, n: nat)
    requires n <= |s|
    ensures ToUpper(s[..n]) == ToUpper(s)[..n] && ToUpper(s[n..]) == ToUpper(s)[n..]
  {
    hide ToUpper;
  }

  /** The bare text ends in no blank, and neither does the number. */
  lemma NothingBehind(bare: string, upper: string, number: string, blanks: string, back: string)
    requires Trimmed(bare) && |bare| > 5 && upper == ToUpper(bare) && number != ""
    requires upper[5..] == blanks + (number + back) && AllSpace(back)
    ensures upper[5..] == blanks + number
  {
    hide ToUpper;
    if back != "" {
      assert false;
    }
    assert number + back == number;
  }

  lemma BlanksHaveNoLetters(blanks: string, sign: string, digits: string)
    requires AllSpace(blanks) && sign in {"", "+"} && IsNumeral(digits)
    ensures var u := " " + (blanks + (sign + digits));
            forall k :: 0 <= k < |u| ==> !('A' <= u[k] <= 'Z')
  {
  }

  /** A text kills connection n exactly if it is such a KILL. */
  lemma ParseKillExactly(text: string, n: nat)
    ensures ParseKill(text) == Some(n) <==> exists k: Kill :: k.Valid() && k.Text() == text && Value(k.digits) == n
  {
    hide ParseKill, Value;
    if ParseKill(text) == Some(n) {
      var k := ParsedIsKill(text);
    }
    if k: Kill :| k.Valid() && k.Text() == text && Value(k.digits) == n {
      KillIsParsed(k);
    }
  }

  // ---------------------------------------------------------------------------------------------------------------
  // KILL n

  function PlainKill(n: nat): Kill {
    Kill("", "KILL", "", "", Numeral(n), "", "", "")
  }

  lemma PlainKillIsValid(n: nat)
    requires n < TwoTo32
    ensures PlainKill(n).Valid() && Value(PlainKill(n).digits) == n
  {
    hide Numeral, Value, IsSpace, ToUpper;
    ValueOfNumeral(n);
    UpperIs("KILL", "KILL");
  }

  lemma PlainKillText(n: nat)
    ensures PlainKill(n).Text() == "KILL " + Numeral(n)
  {
    hide Numeral;
    var d := Numeral(n);
    assert "" + ("" + d) == d && "KILL" + (" " + d) == "KILL " + d;
  }

  lemma KillNumeral(n: nat)
    requires n < TwoTo32
    ensures ParseKill("KILL " + Numeral(n)) == Some(n)
  {
    hide ParseKill, Numeral, Value, PlainKill;
    PlainKillIsValid(n);
    PlainKillText(n);
    KillIsParsed(PlainKill(n));
  }

  /** The query KILL n adds exactly n to the connections that are to be killed, and does nothing else. */
  lemma KillAddsItsNumber(s: State, g: Globals, n: nat, a: Answers)
    requires n < TwoTo32 && s.id !in g.killed
    ensures Step(s, g, Query("KILL " + Numeral(n)), a) == (s, g.(killed := g.killed + {n}), Done)
  {
    hide ParseKill, QueryStep, Trim;
    var text := "KILL " + Numeral(n);
    KillNumeral(n);
    assert text[0] == 'K' && IsDigit(Numeral(n)[|Numeral(n)| - 1]);
    assert text[|text| - 1] == Numeral(n)[|Numeral(n)| - 1];
    TrimmedStays(text);
  }
}
