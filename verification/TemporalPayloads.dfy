/** Dates and times from the client's fields through the payload and the text and back. */
module TemporalPayloads {
  import opened Text
  import opened Decimal
  import opened Temporal

  /** Little-endian numbers, as the client writes them. */
  function Bytes2(n: nat): seq<Byte>
    requires n < 0x1_0000
  {
    [n % 0x100, n / 0x100]
  }

  function Bytes4(n: nat): seq<Byte>
    requires n < TwoTo32
  {
    Bytes2(n % 0x1_0000) + Bytes2(n / 0x1_0000)
  }

  function DatePayload(year: nat, month: Byte, day: Byte): seq<Byte>
    requires year < 0x1_0000
  {
    Bytes2(year) + [month, day]
  }

  function ClockPayload(hour: Byte, minute: Byte, second: Byte): seq<Byte> {
    [hour, minute, second]
  }

  function TimePayload(t: Time): seq<Byte>
    requires t.days < TwoTo32 && t.hours < 0x100 && t.minutes < 0x100 && t.seconds < 0x100 && t.micros < TwoTo32
  {
    [if t.negative then 1 else 0] + Bytes4(t.days) + [t.hours, t.minutes, t.seconds]
    + (if t.micros > 0 then Bytes4(t.micros) else [])
  }

  lemma Bytes4Read(n: nat)
    requires n < TwoTo32
    ensures var b := Bytes4(n); |b| == 4 && U32(b[0], b[1], b[2], b[3]) == n
  {
    var (low, high) := (n % 0x1_0000, n / 0x1_0000);
    assert low % 0x100 + 0x100 * (low / 0x100) == low && high % 0x100 + 0x100 * (high / 0x100) == high;
  }

  /** The numbers in a text with these separators between them. */
  function ReadFields(s: string, separators: string): Option<seq<nat>> {
    var (n, rest) := ReadNumeral(s);
    if separators == "" then if rest == "" then Some([n]) else None
    else if !StartsWith(rest, separators[0]) then None
    else
      match ReadFields(rest[1..], separators[1..])
      case None => None
      case Some(fields) => Some([n] + fields)
  }

  lemma FieldIsRead(n: nat, w: nat, c: char, rest: string, separators: string)
    requires !IsDigit(c)
    ensures ReadFields(Padded(n, w) + ([c] + rest), [c] + separators) ==
            match ReadFields(rest, separators) case None => None case Some(fields) => Some([n] + fields)
  {
    hide Padded, ReadNumeral;
    ReadPadded(n, w, [c] + rest);
    assert ([c] + rest)[1..] == rest && ([c] + separators)[1..] == separators;
  }

  lemma LastFieldIsRead(n: nat, w: nat)
    ensures ReadFields(Padded(n, w), "") == Some([n])
  {
    hide Padded, ReadNumeral;
    ReadPadded(n, w, "");
    assert Padded(n, w) + "" == Padded(n, w);
  }

  lemma DateIsRead(year: nat, month: nat, day: nat, rest: string)
    requires rest != "" ==> !IsDigit(rest[0])
    ensures ReadFields(DateText(year, month, day), "--") == Some([year, month, day])
    ensures forall separators: string :: rest != "" ==>
              ReadFields(DateText(year, month, day) + rest, "--" + ([rest[0]] + separators)) ==
              match ReadFields(rest[1..], separators)
              case None => None
              case Some(fields) => Some([year, month, day] + fields)
  {
    hide Padded, ReadFields;
    var (y, m, d) := (Padded(year, 4), Padded(month, 2), Padded(day, 2));
    LastFieldIsRead(day, 2);
    FieldIsRead(month, 2, '-', d, "");
    FieldIsRead(year, 4, '-', m + ("-" + d), "-");
    assert ['-'] + "" == "-" && ['-'] + "-" == "--" && ['-'] == "-";
    assert [year] + ([month] + [day]) == [year, month, day];
    if rest != "" {
      ConcatAssoc(y, "-" + (m + ("-" + d)), rest);
      ConcatAssoc("-", m + ("-" + d), rest);
      ConcatAssoc(m, "-" + d, rest);
      ConcatAssoc("-", d, rest);
      var c := rest[0];
      assert rest == [c] + rest[1..];
      forall separators: string
        ensures ReadFields(DateText(year, month, day) + rest, "--" + ([c] + separators)) ==
                match ReadFields(rest[1..], separators)
                case None => None
                case Some(fields) => Some([year, month, day] + fields)
      {
        FieldIsRead(day, 2, c, rest[1..], separators);
        FieldIsRead(month, 2, '-', d + rest, [c] + separators);
        FieldIsRead(year, 4, '-', m + ("-" + (d + rest)), ['-'] + ([c] + separators));
        assert "--" + ([c] + separators) == ['-'] + (['-'] + ([c] + separators));
        var read := ReadFields(rest[1..], separators);
        if read.Some? {
          assert [year] + ([month] + ([day] + read.value)) == [year, month, day] + read.value;
        }
      }
    }
  }

  /** A DATE: any year of 16 bits, and any month and day. */
  lemma DateComesBack(year: nat, month: Byte, day: Byte)
    requires year < 0x1_0000
    ensures var r := DecodeDate(DatePayload(year, month, day));
            r.Ok? && ReadFields(r.value, "--") == Some([year, month, day])
  {
    hide ReadFields, DateText;
    DateIsRead(year, month, day, "");
  }

  lemma ClockIsRead(hour: nat, minute: nat, second: nat)
    ensures ReadFields(ClockText(hour, minute, second), "::") == Some([hour, minute, second])
  {
    hide Padded, ReadFields;
    var (m, s) := (Padded(minute, 2), Padded(second, 2));
    LastFieldIsRead(second, 2);
    FieldIsRead(minute, 2, ':', s, "");
    FieldIsRead(hour, 2, ':', m + (":" + s), ":");
    assert [':'] + "" == ":" && [':'] + ":" == "::" && [':'] == ":";
    assert [hour] + ([minute] + [second]) == [hour, minute, second];
  }

  lemma FractionIsRead(hour: nat, minute: nat, second: nat, micros: nat)
    ensures ReadFields(ClockText(hour, minute, second) + ("." + Padded(micros, 6)), "::.") ==
            Some([hour, minute, second, micros])
  {
    hide Padded, ReadFields;
    var (h, m, s, f) := (Padded(hour, 2), Padded(minute, 2), Padded(second, 2), "." + Padded(micros, 6));
    ConcatAssoc(h, ":" + (m + (":" + s)), f);
    ConcatAssoc(":", m + (":" + s), f);
    ConcatAssoc(m, ":" + s, f);
    ConcatAssoc(":", s, f);
    LastFieldIsRead(micros, 6);
    FieldIsRead(second, 2, '.', Padded(micros, 6), "");
    FieldIsRead(minute, 2, ':', s + f, ".");
    FieldIsRead(hour, 2, ':', m + (":" + (s + f)), ":.");
    assert ['.'] + "" == "." && [':'] + "." == ":." && [':'] + ":." == "::." && [':'] == ":" && ['.'] == ".";
    assert [hour] + ([minute] + ([second] + [micros])) == [hour, minute, second, micros];
  }

  /** A DATETIME of 7 and of 11 bytes. */
  lemma DatetimeComesBack(year: nat, month: Byte, day: Byte, hour: Byte, minute: Byte, second: Byte, micros: nat)
    requires year < 0x1_0000 && micros < TwoTo32
    ensures var r := DecodeDatetime(DatePayload(year, month, day) + ClockPayload(hour, minute, second));
            r.Ok? && ReadFields(r.value, "-- ::") == Some([year, month, day, hour, minute, second])
    ensures var payload := DatePayload(year, month, day) + ClockPayload(hour, minute, second) + Bytes4(micros);
            var r := DecodeDatetime(payload);
            r.Ok? && ReadFields(r.value, "-- ::.") == Some([year, month, day, hour, minute, second, micros])
  {
    hide ReadFields, DateText, ClockText, Padded, Bytes4;
    var clock := ClockText(hour, minute, second);
    ClockIsRead(hour, minute, second);
    DateIsRead(year, month, day, " " + clock);
    assert "--" + ([' '] + "::") == "-- ::" && (" " + clock)[1..] == clock;
    assert [year, month, day] + [hour as nat, minute, second] == [year, month, day, hour, minute, second];
    var longer := clock + ("." + Padded(micros, 6));
    Bytes4Read(micros);
    FractionIsRead(hour, minute, second, micros);
    DateIsRead(year, month, day, " " + longer);
    assert "--" + ([' '] + "::.") == "-- ::." && (" " + longer)[1..] == longer;
    assert [year, month, day] + [hour as nat, minute, second, micros] ==
           [year, month, day, hour, minute, second, micros];
  }

  /** A DATETIME without a clock is at midnight, and one without any bytes is all zeros. */
  lemma ShortDatetimeComesBack(year: nat, month: Byte, day: Byte)
    requires year < 0x1_0000
    ensures var r := DecodeDatetime(DatePayload(year, month, day));
            r.Ok? && ReadFields(r.value, "-- ::") == Some([year, month, day, 0, 0, 0])
    ensures var r := DecodeDatetime([]); r.Ok? && ReadFields(r.value, "-- ::") == Some([0, 0, 0, 0, 0, 0])
  {
    hide ReadFields, DateText, ClockText, Padded;
    ZeroTexts();
    ClockIsRead(0, 0, 0);
    DateIsRead(year, month, day, " 00:00:00");
    DateIsRead(0, 0, 0, " 00:00:00");
    assert "--" + ([' '] + "::") == "-- ::" && " 00:00:00"[1..] == "00:00:00";
    assert [year, month, day] + [0, 0, 0] == [year, month, day, 0, 0, 0];
    assert [0, 0, 0] + [0, 0, 0] == [0, 0, 0, 0, 0, 0];
    assert "0000-00-00" + " 00:00:00" == "0000-00-00 00:00:00";
  }

  /** The payload of a TIME is read as that value, so that `TimeRoundTrip` speaks about every TIME that a client can
      write. */
  lemma TimePayloadIsRead(t: Time)
    requires t.days < TwoTo32 && t.hours < 0x100 && t.minutes < 0x100 && t.seconds < 0x100 && t.micros < TwoTo32
    ensures var p := TimePayload(t); |p| in {8, 12} && TimeOf(p) == t
  {
    hide Bytes4;
    Bytes4Read(t.days);
    Bytes4Read(t.micros);
    var (p, b, m) := (TimePayload(t), Bytes4(t.days), Bytes4(t.micros));
    assert p[1] == b[0] && p[2] == b[1] && p[3] == b[2] && p[4] == b[3];
    assert t.micros > 0 ==> p[8] == m[0] && p[9] == m[1] && p[10] == m[2] && p[11] == m[3];
  }

  /** A TIME with hours below 24 and microseconds below a million comes back exactly if its hour count fits 32 bits. */
  lemma TimeComesBack(t: Time)
    requires t.days < TwoTo32 && t.hours < 24 && t.minutes < 0x100 && t.seconds < 0x100 && t.micros < 1000000
    ensures var r := DecodeTime(TimePayload(t));
            r.Ok? && (ParseTime(r.value) == Some(t) <==> HoursFit(t.days, t.hours))
  {
    hide ParseTime, TimeText, TimePayload, TimeOf;
    TimePayloadIsRead(t);
    TimeRoundTrip(TimePayload(t));
  }
}
