/** MySQL binary temporal values (client/server protocol, "Binary Protocol Value") as the text that is bound to
    PostgreSQL parameters. */
module Temporal {
  import opened Text
  import opened Decimal

  type Byte = x: int | 0 <= x < 256

  datatype Error = UnsupportedDateLength(length: nat) | UnsupportedDatetimeLength(length: nat)
                 | UnsupportedTimeLength(length: nat)

  /** `u16::from_le_bytes` and `u32::from_le_bytes`. */
  function U16(a: Byte, b: Byte): nat {
    a + 0x100 * b
  }

  function U32(a: Byte, b: Byte, c: Byte, d: Byte): (n: nat)
    ensures n < TwoTo32
  {
    a + 0x100 * b + 0x1_0000 * c + 0x100_0000 * d
  }

  // ---------------------------------------------------------------------------------------------------------------
  // DATE and DATETIME

  function DateText(year: nat, month: nat, day: nat): string {
    Padded(year, 4) + ("-" + (Padded(month, 2) + ("-" + Padded(day, 2))))
  }

  /** `decode_mysql_date_literal`. */
  function DecodeDate(bytes: seq<Byte>): Result<string, Error> {
    if |bytes| != 4 then Err(UnsupportedDateLength(|bytes|))
    else Ok(DateText(U16(bytes[0], bytes[1]), bytes[2], bytes[3]))
  }

  function ClockText(hour: nat, minute: nat, second: nat): string {
    Padded(hour, 2) + (":" + (Padded(minute, 2) + (":" + Padded(second, 2))))
  }

  /** `decode_mysql_datetime_literal`. */
  function DecodeDatetime(bytes: seq<Byte>): Result<string, Error> {
    if |bytes| == 0 then Ok("0000-00-00 00:00:00")
    else if |bytes| == 4 then
      Ok(DateText(U16(bytes[0], bytes[1]), bytes[2], bytes[3]) + " 00:00:00")
    else if |bytes| == 7 then
      Ok(DateText(U16(bytes[0], bytes[1]), bytes[2], bytes[3])
         + (" " + ClockText(bytes[4], bytes[5], bytes[6])))
    else if |bytes| == 11 then
      Ok(DateText(U16(bytes[0], bytes[1]), bytes[2], bytes[3])
         + (" " + (ClockText(bytes[4], bytes[5], bytes[6])
                   + ("." + Padded(U32(bytes[7], bytes[8], bytes[9], bytes[10]), 6)))))
    else Err(UnsupportedDatetimeLength(|bytes|))
  }

  /** The fields of a payload, most significant first. Omitted time fields are zero; microseconds are a field only
      where the payload has them. */
  function DateFields(bytes: seq<Byte>): seq<nat>
    requires |bytes| == 4
  {
    [U16(bytes[0], bytes[1]), bytes[2], bytes[3]]
  }

  function DatetimeFields(bytes: seq<Byte>): seq<nat>
    requires |bytes| in {0, 4, 7, 11}
  {
    if |bytes| == 0 then [0, 0, 0, 0, 0, 0]
    else if |bytes| == 4 then [U16(bytes[0], bytes[1]), bytes[2], bytes[3], 0, 0, 0]
    else
      var six := [U16(bytes[0], bytes[1]), bytes[2], bytes[3], bytes[4], bytes[5], bytes[6]];
      if |bytes| == 7 then six else six + [U32(bytes[7], bytes[8], bytes[9], bytes[10])]
  }

  /** What stands before each field, and its width. */
  const Shape: seq<(string, nat)> := [("", 4), ("-", 2), ("-", 2), (" ", 2), (":", 2), (":", 2), (".", 6)]

  /** Fields laid out in their widths behind their separators. */
  function Layout(fields: seq<nat>, shape: seq<(string, nat)>): string
    requires |fields| <= |shape|
  {
    if fields == [] then ""
    else (shape[0].0 + Padded(fields[0], shape[0].1)) + Layout(fields[1..], shape[1..])
  }

  /** Every field fits its width. */
  predicate Fit(fields: seq<nat>, shape: seq<(string, nat)>) {
    && |fields| <= |shape|
    && forall k :: 0 <= k < |fields| ==> shape[k].1 > 0 && fields[k] < Power10(shape[k].1)
  }

  /** Lexicographic order, of texts and of field sequences. */
  predicate TextLess(a: string, b: string) {
    b != "" && (a == "" || a[0] < b[0] || (a[0] == b[0] && TextLess(a[1..], b[1..])))
  }

  predicate FieldsLess(a: seq<nat>, b: seq<nat>) {
    b != [] && (a == [] || a[0] < b[0] || (a[0] == b[0] && FieldsLess(a[1..], b[1..])))
  }

  lemma {:induction false} TextLessConcat(a: string, b: string, c: string, d: string)
    requires |a| == |b|
    ensures TextLess(a + c, b + d) <==> TextLess(a, b) || (a == b && TextLess(c, d))
    decreases |a|
  {
    if a == "" {
      assert a + c == c && b + d == d;
    } else {
      assert (a + c)[1..] == a[1..] + c && (b + d)[1..] == b[1..] + d;
      TextLessConcat(a[1..], b[1..], c, d);
      assert a == [a[0]] + a[1..] && b == [b[0]] + b[1..];
    }
  }

  lemma {:induction false} TextOrderIsStrict(a: string, b: string)
    ensures !TextLess(a, a)
    ensures a == b || TextLess(a, b) || TextLess(b, a)
    decreases |a|
  {
    if a != "" && b != "" {
      TextOrderIsStrict(a[1..], b[1..]);
      if a[0] == b[0] && a[1..] == b[1..] {
        assert a == [a[0]] + a[1..] && b == [b[0]] + b[1..];
      }
    } else if a != "" {
      TextOrderIsStrict(a[1..], "");
    }
  }

  lemma OneCharacter(x: char, y: char)
    ensures TextLess([x], [y]) <==> x < y
  {
  }

  /** Numerals of one length are ordered as their values. */
  lemma {:induction false} NumeralOrder(a: string, b: string)
    requires IsNumeral(a) && IsNumeral(b) && |a| == |b|
    ensures TextLess(a, b) <==> Value(a) < Value(b)
    ensures a == b <==> Value(a) == Value(b)
    decreases |a|
  {
    if a != "" {
      var n := |a| - 1;
      var (p, q, x, y) := (a[..n], b[..n], a[n], b[n]);
      NumeralOrder(p, q);
      SplitAt(a, n);
      SplitAt(b, n);
      assert a[n..] == [x] && b[n..] == [y];
      TextLessConcat(p, q, [x], [y]);
      OneCharacter(x, y);
      assert IsDigit(x) && IsDigit(y);
      assert Value(a) == 10 * Value(p) + DigitValue(x) && Value(b) == 10 * Value(q) + DigitValue(y);
    }
  }

  lemma PaddedOrder(n: nat, m: nat, w: nat)
    requires w > 0 && n < Power10(w) && m < Power10(w)
    ensures |Padded(n, w)| == w == |Padded(m, w)|
    ensures TextLess(Padded(n, w), Padded(m, w)) <==> n < m
    ensures Padded(n, w) == Padded(m, w) <==> n == m
  {
    hide Padded, Value, Power10;
    PaddedLength(n, w);
    PaddedLength(m, w);
    ValueOfPadded(n, w);
    ValueOfPadded(m, w);
    NumeralOrder(Padded(n, w), Padded(m, w));
  }

  /** Texts in the layout are ordered as their fields, also when one has fields that the other lacks. */
  lemma {:induction false} LayoutOrder(f: seq<nat>, g: seq<nat>, shape: seq<(string, nat)>)
    requires Fit(f, shape) && Fit(g, shape)
    ensures TextLess(Layout(f, shape), Layout(g, shape)) <==> FieldsLess(f, g)
    ensures Layout(f, shape) == Layout(g, shape) <==> f == g
    decreases |f|
  {
    hide Padded, Power10;
    if f == [] || g == [] {
      if f != [] {
        FieldIsNotEmpty(f, shape);
      }
      if g != [] {
        FieldIsNotEmpty(g, shape);
      }
    } else {
      assert f[0] < Power10(shape[0].1) && g[0] < Power10(shape[0].1);
      var (sep, w) := shape[0];
      FitTail(f, shape);
      FitTail(g, shape);
      LayoutOrder(f[1..], g[1..], shape[1..]);
      PaddedOrder(f[0], g[0], w);
      var (a, b) := (sep + Padded(f[0], w), sep + Padded(g[0], w));
      TextLessConcat(sep, sep, Padded(f[0], w), Padded(g[0], w));
      TextOrderIsStrict(sep, sep);
      TextLessConcat(a, b, Layout(f[1..], shape[1..]), Layout(g[1..], shape[1..]));
      CommonPrefix(sep, Padded(f[0], w), Padded(g[0], w));
      SplitEqual(a, b, Layout(f[1..], shape[1..]), Layout(g[1..], shape[1..]));
      assert f == [f[0]] + f[1..] && g == [g[0]] + g[1..];
    }
  }

  lemma FieldIsNotEmpty(f: seq<nat>, shape: seq<(string, nat)>)
    requires Fit(f, shape) && f != []
    ensures Layout(f, shape) != ""
  {
    hide Power10;
    assert f[0] < Power10(shape[0].1);
    PaddedLength(f[0], shape[0].1);
  }

  lemma FitTail(f: seq<nat>, shape: seq<(string, nat)>)
    requires Fit(f, shape) && f != []
    ensures Fit(f[1..], shape[1..])
  {
    forall k | 0 <= k < |f[1..]| ensures shape[1..][k].1 > 0 && f[1..][k] < Power10(shape[1..][k].1) {
      assert f[k + 1] < Power10(shape[k + 1].1);
    }
  }

  lemma CommonPrefix(p: string, a: string, b: string)
    ensures p + a == p + b <==> a == b
  {
    assert (p + a)[|p|..] == a && (p + b)[|p|..] == b;
  }

  /** Fields within what MySQL stores: years to 9999, two digits for the others, below a million microseconds. */
  predicate Regular(fields: seq<nat>) {
    && |fields| <= 7
    && forall k :: 0 <= k < |fields| ==> fields[k] < (if k == 0 then 10000 else if k == 6 then 1000000 else 100)
  }

  lemma Widths()
    ensures Power10(2) == 100 && Power10(4) == 10000 && Power10(6) == 1000000
  {
    assert Power10(1) == 10 && Power10(3) == 1000 && Power10(5) == 100000;
  }

  lemma RegularFits(fields: seq<nat>)
    requires Regular(fields)
    ensures Fit(fields, Shape)
  {
    hide Power10;
    Widths();
    forall k | 0 <= k < |fields| ensures Shape[k].1 > 0 && fields[k] < Power10(Shape[k].1) {
      assert k in {0, 1, 2, 3, 4, 5, 6};
    }
  }

  lemma LayoutCons(n: nat, fields: seq<nat>, shape: seq<(string, nat)>)
    requires |fields| < |shape|
    ensures Layout([n] + fields, shape) == (shape[0].0 + Padded(n, shape[0].1)) + Layout(fields, shape[1..])
  {
    assert ([n] + fields)[1..] == fields;
  }

  /** Three fields with their separators, then `rest`, grouped as the decoders write them. */
  lemma Regroup(s: string, x: string, t: string, y: string, u: string, z: string, rest: string)
    ensures (s + x) + ((t + y) + ((u + z) + rest)) == s + ((x + (t + (y + (u + z)))) + rest)
  {
    ConcatAssoc(u, z, rest);
    ConcatAssoc(t, y, (u + z) + rest);
    ConcatAssoc(y, u + z, rest);
    ConcatAssoc(t, y + (u + z), rest);
    ConcatAssoc(x, t + (y + (u + z)), rest);
    ConcatAssoc(s, x, (t + y) + ((u + z) + rest));
  }

  lemma {:induction false} ThreeFields(a: nat, b: nat, c: nat, fields: seq<nat>, shape: seq<(string, nat)>)
    requires |fields| + 3 <= |shape|
    ensures Layout([a, b, c] + fields, shape) ==
            (shape[0].0 + Padded(a, shape[0].1)) +
            ((shape[1].0 + Padded(b, shape[1].1)) + ((shape[2].0 + Padded(c, shape[2].1)) + Layout(fields, shape[3..])))
  {
    hide Layout, Padded;
    assert [a, b, c] + fields == [a] + ([b] + ([c] + fields));
    LayoutCons(a, [b] + ([c] + fields), shape);
    LayoutCons(b, [c] + fields, shape[1..]);
    assert shape[1..][1..] == shape[2..];
    LayoutCons(c, fields, shape[2..]);
    assert shape[2..][1..] == shape[3..];
  }

  /** A date in front of further fields. */
  lemma {:induction false} DateLayout(year: nat, month: nat, day: nat, fields: seq<nat>)
    requires |fields| <= 4
    ensures Layout([year, month, day] + fields, Shape) == DateText(year, month, day) + Layout(fields, Shape[3..])
  {
    hide Padded, Layout;
    var rest := Layout(fields, Shape[3..]);
    ThreeFields(year, month, day, fields, Shape);
    Regroup("", Padded(year, 4), "-", Padded(month, 2), "-", Padded(day, 2), rest);
    assert "" + (DateText(year, month, day) + rest) == DateText(year, month, day) + rest;
  }

  lemma {:induction false} ClockLayout(hour: nat, minute: nat, second: nat, fields: seq<nat>)
    requires |fields| <= 1
    ensures Layout([hour, minute, second] + fields, Shape[3..]) ==
            " " + (ClockText(hour, minute, second) + Layout(fields, Shape[6..]))
  {
    hide Padded, Layout;
    ThreeFields(hour, minute, second, fields, Shape[3..]);
    assert Shape[3..][0] == (" ", 2) && Shape[3..][1] == (":", 2) && Shape[3..][2] == (":", 2);
    assert Shape[3..][3..] == Shape[6..];
    Regroup(" ", Padded(hour, 2), ":", Padded(minute, 2), ":", Padded(second, 2), Layout(fields, Shape[6..]));
  }

  lemma ZeroTexts()
    ensures Padded(0, 2) == "00" && Padded(0, 4) == "0000"
    ensures ClockText(0, 0, 0) == "00:00:00" && DateText(0, 0, 0) == "0000-00-00"
  {
    assert Numeral(0) == "0" && Zeros(1) == "0" && Zeros(0) == "";
    assert Zeros(3) == "0" + Zeros(2) && Zeros(2) == "0" + Zeros(1);
  }

  lemma MicrosLayout(micros: nat)
    ensures Layout([micros], Shape[6..]) == "." + Padded(micros, 6)
    ensures Layout([], Shape[6..]) == "" && Layout([], Shape[3..]) == ""
  {
    assert [micros][1..] == [];
    assert Shape[6..][0] == (".", 6);
    assert Layout([micros][1..], Shape[6..][1..]) == "";
    assert "." + Padded(micros, 6) + "" == "." + Padded(micros, 6);
  }

  /** Both decoders write the layout of the payload's fields. */
  lemma DateIsLayout(bytes: seq<Byte>)
    requires |bytes| == 4
    ensures DecodeDate(bytes) == Ok(Layout(DateFields(bytes), Shape))
  {
    hide Layout, DateText;
    var f := DateFields(bytes);
    DateLayout(f[0], f[1], f[2], []);
    MicrosLayout(0);
    assert f + [] == f && [f[0], f[1], f[2]] == f;
    assert DateText(f[0], f[1], f[2]) + "" == DateText(f[0], f[1], f[2]);
  }

  lemma SixFields(f: seq<nat>)
    requires |f| == 6
    ensures Layout(f, Shape) == DateText(f[0], f[1], f[2]) + (" " + ClockText(f[3], f[4], f[5]))
  {
    hide Layout, DateText, ClockText, Padded;
    var clock := ClockText(f[3], f[4], f[5]);
    assert f == [f[0], f[1], f[2]] + ([f[3], f[4], f[5]] + []);
    ClockLayout(f[3], f[4], f[5], []);
    DateLayout(f[0], f[1], f[2], [f[3], f[4], f[5]] + []);
    MicrosLayout(0);
    assert clock + "" == clock;
  }

  lemma SevenFields(f: seq<nat>)
    requires |f| == 7
    ensures Layout(f, Shape) ==
            DateText(f[0], f[1], f[2]) + (" " + (ClockText(f[3], f[4], f[5]) + ("." + Padded(f[6], 6))))
  {
    hide Layout, DateText, ClockText, Padded;
    assert f == [f[0], f[1], f[2]] + ([f[3], f[4], f[5]] + [f[6]]);
    ClockLayout(f[3], f[4], f[5], [f[6]]);
    DateLayout(f[0], f[1], f[2], [f[3], f[4], f[5]] + [f[6]]);
    MicrosLayout(f[6]);
  }

  lemma Midnight()
    ensures " " + ClockText(0, 0, 0) == " 00:00:00"
    ensures DateText(0, 0, 0) + " 00:00:00" == "0000-00-00 00:00:00"
  {
    hide DateText, ClockText;
    ZeroTexts();
  }

  lemma DatetimeIsLayout(bytes: seq<Byte>)
    requires |bytes| in {0, 4, 7, 11}
    ensures DecodeDatetime(bytes) == Ok(Layout(DatetimeFields(bytes), Shape))
  {
    hide Layout, DateText, ClockText, Padded;
    var f := DatetimeFields(bytes);
    Midnight();
    if |bytes| == 11 {
      SevenFields(f);
    } else {
      SixFields(f);
    }
  }

  /** Dates are ordered, and told apart, by their text as by their fields. */
  lemma DateOrder(a: seq<Byte>, b: seq<Byte>)
    requires |a| == 4 && |b| == 4 && Regular(DateFields(a)) && Regular(DateFields(b))
    ensures TextLess(DecodeDate(a).value, DecodeDate(b).value) <==> FieldsLess(DateFields(a), DateFields(b))
    ensures DecodeDate(a) == DecodeDate(b) <==> DateFields(a) == DateFields(b)
  {
    hide Layout, DecodeDate;
    DateIsLayout(a);
    DateIsLayout(b);
    RegularFits(DateFields(a));
    RegularFits(DateFields(b));
    LayoutOrder(DateFields(a), DateFields(b), Shape);
  }

  /** The same for datetimes, across all payload lengths: shorter payloads compare as if their missing clock were
      zero, and a payload without microseconds comes before one with them. */
  lemma {:induction false} DatetimeOrder(a: seq<Byte>, b: seq<Byte>)
    requires |a| in {0, 4, 7, 11} && |b| in {0, 4, 7, 11}
    requires Regular(DatetimeFields(a)) && Regular(DatetimeFields(b))
    ensures TextLess(DecodeDatetime(a).value, DecodeDatetime(b).value) <==>
            FieldsLess(DatetimeFields(a), DatetimeFields(b))
    ensures DecodeDatetime(a) == DecodeDatetime(b) <==> DatetimeFields(a) == DatetimeFields(b)
  {
    hide Layout, DecodeDatetime, DatetimeFields;
    DatetimeIsLayout(a);
    DatetimeIsLayout(b);
    RegularFits(DatetimeFields(a));
    RegularFits(DatetimeFields(b));
    LayoutOrder(DatetimeFields(a), DatetimeFields(b), Shape);
  }

  // ---------------------------------------------------------------------------------------------------------------
  // TIME

  datatype Time = Time(negative: bool, days: nat, hours: nat, minutes: nat, seconds: nat, micros: nat)

  /** The value a payload encodes. */
  function TimeOf(bytes: seq<Byte>): Time
    requires |bytes| == 8 || |bytes| == 12
  {
    Time(bytes[0] != 0, U32(bytes[1], bytes[2], bytes[3], bytes[4]), bytes[5], bytes[6], bytes[7],
         if |bytes| == 12 then U32(bytes[8], bytes[9], bytes[10], bytes[11]) else 0)
  }

  /** Hours in all, in 32-bit arithmetic that wraps around as an optimised build's does. */
  function TotalHours(t: Time): nat {
    (t.days * 24 + t.hours) % TwoTo32
  }

  function TimeText(t: Time): string {
    (if t.negative then "-" else "")
    + (Padded(TotalHours(t), 2)
       + (":" + (Padded(t.minutes, 2)
                 + (":" + (Padded(t.seconds, 2)
                           + (if t.micros > 0 then "." + Padded(t.micros, 6) else ""))))))
  }

  /** `decode_mysql_time_literal`. */
  function DecodeTime(bytes: seq<Byte>): Result<string, Error> {
    if |bytes| != 8 && |bytes| != 12 then Err(UnsupportedTimeLength(|bytes|)) else Ok(TimeText(TimeOf(bytes)))
  }

  /** Reading the text back: an optional sign, hours, minutes, seconds and an optional fraction of six digits. */
  function ParseTime(s: string): Option<Time> {
    var negative := StartsWith(s, '-');
    var (hours, s1) := ReadNumeral(if negative then s[1..] else s);
    if !StartsWith(s1, ':') then None
    else
      var (minutes, s2) := ReadNumeral(s1[1..]);
      if !StartsWith(s2, ':') then None
      else
        var (seconds, s3) := ReadNumeral(s2[1..]);
        if s3 == "" then Some(Time(negative, hours / 24, hours % 24, minutes, seconds, 0))
        else if StartsWith(s3, '.') && |s3| == 7 then
          Some(Time(negative, hours / 24, hours % 24, minutes, seconds, ReadNumeral(s3[1..]).0))
        else None
  }

  lemma ReadPadded(n: nat, w: nat, t: string)
    requires t != "" ==> !IsDigit(t[0])
    ensures ReadNumeral(Padded(n, w) + t) == (n, t)
  {
    hide Padded, Value;
    NumeralReads(Padded(n, w), t);
    ValueOfPadded(n, w);
  }

  /** What reading the text back gives, for any value: the total hours are split again. */
  lemma {:induction false} ParseOfText(t: Time)
    requires t.micros < 1000000
    ensures ParseTime(TimeText(t)) ==
            Some(t.(days := TotalHours(t) / 24, hours := TotalHours(t) % 24))
  {
    hide Padded, Power10, ReadNumeral;
    var fraction := if t.micros > 0 then "." + Padded(t.micros, 6) else "";
    var tail2 := ":" + (Padded(t.seconds, 2) + fraction);
    var tail1 := ":" + (Padded(t.minutes, 2) + tail2);
    var body := Padded(TotalHours(t), 2) + tail1;
    var s := (if t.negative then "-" else "") + body;
    assert IsDigit(Padded(TotalHours(t), 2)[0]) && body[0] == Padded(TotalHours(t), 2)[0];
    assert (if t.negative then s[1..] else s) == body;
    assert StartsWith(s, '-') == t.negative;
    ReadPadded(TotalHours(t), 2, tail1);
    ReadPadded(t.minutes, 2, tail2);
    ReadPadded(t.seconds, 2, fraction);
    assert tail1[1..] == Padded(t.minutes, 2) + tail2 && tail2[1..] == Padded(t.seconds, 2) + fraction;
    if t.micros > 0 {
      Widths();
      PaddedLength(t.micros, 6);
      ReadPadded(t.micros, 6, "");
      assert fraction[1..] == Padded(t.micros, 6) + "";
    }
  }

  /** The 32-bit hour count holds. */
  predicate HoursFit(days: nat, hours: nat) {
    days < 178956970 || (days == 178956970 && hours <= 15)
  }

  lemma HoursFitExactly(days: nat, hours: nat)
    requires hours < 24
    ensures days * 24 + hours < TwoTo32 <==> HoursFit(days, hours)
  {
  }

  /** Decoding a TIME keeps its value, so that reading the text gives it back, exactly when the 32-bit hour count does
      not wrap around. */
  lemma {:induction false} TimeRoundTrip(bytes: seq<Byte>)
    requires |bytes| == 8 || |bytes| == 12
    requires TimeOf(bytes).hours < 24 && TimeOf(bytes).micros < 1000000
    ensures ParseTime(DecodeTime(bytes).value) == Some(TimeOf(bytes)) <==>
            HoursFit(TimeOf(bytes).days, TimeOf(bytes).hours)
  {
    hide ParseTime, TimeText, TimeOf;
    var t := TimeOf(bytes);
    ParseOfText(t);
    HoursFitExactly(t.days, t.hours);
    SplitHours(t.days, t.hours);
  }

  /** The failing input with the fewest hours: 178956970 days and 16 hours come back as nothing. */
  lemma HoursWrapAround()
    ensures var bytes: seq<Byte> := [0, 0xAA, 0xAA, 0xAA, 0x0A, 16, 0, 0];
            && TimeOf(bytes) == Time(false, 178956970, 16, 0, 0, 0)
            && DecodeTime(bytes) == Ok("00:00:00") && ParseTime("00:00:00") != Some(TimeOf(bytes))
  {
    hide ParseTime;
    var bytes: seq<Byte> := [0, 0xAA, 0xAA, 0xAA, 0x0A, 16, 0, 0];
    assert TimeOf(bytes) == Time(false, 178956970, 16, 0, 0, 0);
    TimeRoundTrip(bytes);
    assert DecodeTime(bytes) == Ok(TimeText(TimeOf(bytes)));
    assert TotalHours(TimeOf(bytes)) == 0;
    ZeroTexts();
    assert "00" + (":" + ("00" + (":" + ("00" + "")))) == "00:00:00" && "" + "00:00:00" == "00:00:00";
    assert TimeText(TimeOf(bytes)) == "" + ("00" + (":" + ("00" + (":" + ("00" + "")))));
  }

  lemma SplitHours(days: nat, hours: nat)
    requires hours < 24
    ensures var total := (days * 24 + hours) % TwoTo32;
            (total / 24 == days && total % 24 == hours) <==> days * 24 + hours < TwoTo32
  {
    var whole := days * 24 + hours;
    var total := whole % TwoTo32;
    assert total == 24 * (total / 24) + total % 24;
    if whole < TwoTo32 {
      assert total == whole;
      assert whole / 24 == days && whole % 24 == hours;
    }
  }
}
