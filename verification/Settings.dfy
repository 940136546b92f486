/** What SET NAMES, SET sql_mode and the isolation statements store, for statements as clients write them. */
module Settings {
  import opened Text
  import opened SessionText
  import opened Session

  /** Nothing, or quotes of one kind. */
  predicate IsQuoting(q: string) {
    q in {"", "'", "\""}
  }

  lemma QuotedEnds(q: string, w: string)
    requires IsQuoting(q) && IsWord(w)
    ensures var x := q + (w + q);
            && x != "" && !IsSpace(x[0]) && !IsSpace(x[|x| - 1]) && x[0] != ';' && x[|x| - 1] != ';'
            && forall k :: 0 <= k < |x| ==> !IsSpace(x[k])
  {
    var x := q + (w + q);
    assert x[0] == if q == "" then w[0] else q[0];
    assert x[|x| - 1] == if q == "" then w[|w| - 1] else q[0];
  }

  lemma {:induction false} StartStops(c: char, s: string)
    requires s != "" ==> s[0] != c
    ensures TrimStartMatches(c, s) == s
  {
  }

  lemma OneQuoteGoes(c: char, v: string)
    requires v != "" ==> v[0] != c && v[|v| - 1] != c
    ensures TrimMatches(c, v) == v && TrimMatches(c, [c] + (v + [c])) == v
  {
    hide TrimStartMatches, TrimEndMatches;
    StartStops(c, v);
    EndStops(c, v);
    OneStartGoes(c, v + [c]);
    if v == "" {
      BothGo(c);
      assert [c] + (v + [c]) == [c, c];
    } else {
      StartStops(c, v + [c]);
      OneEndGoes(c, v);
    }
  }

  lemma OneStartGoes(c: char, s: string)
    ensures TrimStartMatches(c, [c] + s) == TrimStartMatches(c, s)
  {
    assert ([c] + s)[1..] == s;
  }

  lemma OneEndGoes(c: char, s: string)
    requires s != "" ==> s[|s| - 1] != c
    ensures TrimEndMatches(c, s + [c]) == s
  {
    assert (s + [c])[..|s|] == s;
    EndStops(c, s);
  }

  lemma BothGo(c: char)
    ensures TrimMatches(c, [c, c]) == ""
  {
    assert [c, c][1..] == [c] && [c][1..] == "";
    assert TrimStartMatches(c, [c]) == "";
  }

  /** The quotes of a value that has none at its ends. */
  lemma QuotesGo(q: string, v: string)
    requires IsQuoting(q) && (v != "" ==> v[0] !in {'\'', '"'} && v[|v| - 1] !in {'\'', '"'})
    ensures Unquoted(q + (v + q)) == v
  {
    hide TrimMatches;
    OneQuoteGoes('\'', v);
    OneQuoteGoes('"', v);
    if q == "\"" {
      var x := ['"'] + (v + ['"']);
      assert x[0] == '"' && x[|x| - 1] == '"';
      OneQuoteGoes('\'', x);
    } else if q == "" {
      assert q + (v + q) == v;
    }
  }

  lemma NameEnds(w: string)
    requires IsWord(w)
    ensures w[0] !in {'\'', '"'} && w[|w| - 1] !in {'\'', '"'} && Trim(w) == w
  {
    hide Trim;
    assert IsIdentifierChar(w[0]) && IsIdentifierChar(w[|w| - 1]);
    TrimmedStays(w);
  }

  lemma PlainIsBare(text: string)
    requires text != "" && Trimmed(text) && text[|text| - 1] != ';'
    ensures Bare(text) == text
  {
    hide Trim, TrimEndMatches;
    TrimmedStays(text);
    EndStops(';', text);
  }

  // ---------------------------------------------------------------------------------------------------------------
  // SET NAMES

  /** The character sets that are known, under their three names, with their default collations. */
  function KnownCharset(name: string): Option<(string, string)> {
    if name == "utf8" || name == "utf8mb3" then Some(("utf8", "utf8_general_ci"))
    else if name == "utf8mb4" then Some(("utf8mb4", "utf8mb4_general_ci"))
    else None
  }

  /** What a collation stands for with a character set: the default under four names, itself if it belongs to the
      set. */
  function KnownCollation(charset: string, default: string, name: string): Option<string> {
    if name == "default" || name == "utf8" || name == "utf8mb3" || name == "utf8mb4" then Some(default)
    else if charset + "_" <= name then Some(name)
    else None
  }

  lemma {:induction false} FirstToken(w: string, t: string)
    requires (forall k :: 0 <= k < |w| ==> !IsSpace(w[k])) && (t != "" ==> IsSpace(t[0]))
    ensures TokenLength(w + t) == |w|
  {
    hide SpanLength, IsSpace;
    var s := w + t;
    assert forall k :: 0 <= k < |w| ==> s[k] == w[k];
    assert |w| < |s| ==> s[|w|] == t[0];
    SpanIs(NotSpace, s, |w|);
  }

  /** The character set of a payload. */
  lemma CharsetIsRead(q: string, w: string, t: string)
    requires IsQuoting(q) && IsWord(w) && (t != "" ==> IsSpace(t[0]))
    ensures var payload := (q + (w + q)) + t;
            && TokenLength(payload) == |q + (w + q)|
            && NamesCharset(payload) == if ToLower(w) == "utf8mb3" then "utf8" else ToLower(w)
  {
    hide Trim, Unquoted, TokenLength;
    var x := q + (w + q);
    QuotedEnds(q, w);
    FirstToken(x, t);
    assert (x + t)[..|x|] == x;
    NameEnds(w);
    QuotesGo(q, w);
  }

  lemma CharsetExactly(q: string, w: string, t: string)
    requires IsQuoting(q) && IsWord(w) && (t != "" ==> IsSpace(t[0]))
    ensures var charset := NamesCharset((q + (w + q)) + t);
            match KnownCharset(ToLower(w))
            case None => DefaultCollation(charset) == None
            case Some((name, default)) => charset == name && DefaultCollation(charset) == Some(default)
  {
    hide NamesCharset, ToLower;
    CharsetIsRead(q, w, t);
  }

  lemma SetNamesPayload(keyword: string, payload: string)
    requires ToUpper(keyword) == "SET NAMES" && payload != "" && !IsSpace(payload[0])
    requires !IsSpace(payload[|payload| - 1]) && payload[|payload| - 1] != ';'
    ensures forall s: State :: SessionStep(s, keyword + (" " + payload)) == SetNames(s, payload)
  {
    hide Trim, Bare, ToUpper, SetNames, IsSpace;
    var text := keyword + (" " + payload);
    KeywordStart(keyword, 'S');
    assert text[0] == keyword[0] && text[|text| - 1] == payload[|payload| - 1];
    PlainIsBare(text);
    UpperConcat(keyword, " " + payload);
    SpaceStays(payload);
    assert text[10..] == payload;
    TrimmedStays(payload);
  }

  lemma KeywordStart(keyword: string, c: char)
    requires ToUpper(keyword) != "" && ToUpper(keyword)[0] == c && 'A' <= c <= 'Z'
    ensures keyword != "" && !IsSpace(keyword[0])
  {
    hide ToUpper;
    assert Upper(keyword[0]) == c;
  }

  lemma SpaceStays(payload: string)
    ensures " " <= ToUpper(" " + payload)
  {
    hide ToUpper;
    assert ToUpper(" " + payload)[0] == Upper(' ');
  }

  /** SET NAMES and a character set, quoted or not, in any case. */
  lemma SetNamesStores(s: State, keyword: string, q: string, w: string)
    requires ToUpper(keyword) == "SET NAMES" && IsQuoting(q) && IsWord(w)
    ensures SessionStep(s, keyword + (" " + (q + (w + q)))) ==
            match KnownCharset(ToLower(w))
            case None => Refused
            case Some((charset, default)) => Changed(s.(charset := charset, collation := default))
  {
    hide SessionStep, NamesCharset, TokenLength, ToLower, ToUpper, KnownCharset;
    var x := q + (w + q);
    QuotedEnds(q, w);
    SetNamesPayload(keyword, x);
    assert x + "" == x;
    CharsetIsRead(q, w, "");
    CharsetExactly(q, w, "");
  }

  /** The collation of a payload. */
  lemma CollationIsRead(x: string, collate: string, p: string, c: string)
    requires ToUpper(collate) == "COLLATE" && IsQuoting(p) && IsWord(c)
    requires x != "" && forall k :: 0 <= k < |x| ==> !IsSpace(x[k])
    ensures NamesCollation(x + (" " + (collate + (" " + (p + (c + p)))))) == Some(ToLower(c))
  {
    hide Trim, Unquoted, TokenLength, ToLower, ToUpper, IsSpace;
    var y := p + (c + p);
    var rest := collate + (" " + y);
    var payload := x + (" " + rest);
    SpaceIsSpace();
    FirstToken(x, " " + rest);
    assert payload[|x| + 1..] == rest;
    QuotedEnds(p, c);
    KeywordStart(collate, 'C');
    assert rest[0] == collate[0] && rest[|rest| - 1] == y[|y| - 1];
    TrimmedStays(rest);
    UpperConcat(collate, " " + y);
    SpaceStays(y);
    assert rest[8..] == y;
    TrimmedStays(y);
    NameEnds(c);
    QuotesGo(p, c);
  }

  lemma DefaultFits(name: string)
    ensures match KnownCharset(name) case None => true case Some((charset, default)) => charset + "_" <= default
  {
    assert "utf8" + "_" <= "utf8_general_ci" && "utf8mb4" + "_" <= "utf8mb4_general_ci";
  }

  lemma SpaceIsSpace()
    ensures IsSpace(' ')
  {
  }

  lemma {:induction false} LowerTwice(s: string)
    ensures ToLower(ToLower(s)) == ToLower(s)
  {
  }

  /** SET NAMES with a collation: both are stored, or neither. */
  lemma SetNamesCollates(s: State, keyword: string, q: string, w: string, collate: string, p: string, c: string)
    requires ToUpper(keyword) == "SET NAMES" && IsQuoting(q) && IsWord(w)
    requires ToUpper(collate) == "COLLATE" && IsQuoting(p) && IsWord(c)
    ensures SessionStep(s, keyword + (" " + ((q + (w + q)) + (" " + (collate + (" " + (p + (c + p)))))))) ==
            match KnownCharset(ToLower(w))
            case None => Refused
            case Some((charset, default)) =>
              match KnownCollation(charset, default, ToLower(c))
              case None => Refused
              case Some(collation) => Changed(s.(charset := charset, collation := collation))
  {
    hide SessionStep, NamesCharset, NamesCollation, TokenLength, ToLower, ToUpper, KnownCharset, DefaultCollation,
         IsSpace;
    var (x, y) := (q + (w + q), p + (c + p));
    var t := " " + (collate + (" " + y));
    QuotedEnds(q, w);
    QuotedEnds(p, c);
    SpaceIsSpace();
    assert (x + t)[0] == x[0] && (x + t)[|x + t| - 1] == y[|y| - 1];
    SetNamesPayload(keyword, x + t);
    CharsetExactly(q, w, t);
    CollationIsRead(x, collate, p, c);
    LowerTwice(c);
    DefaultFits(ToLower(w));
  }

  // ---------------------------------------------------------------------------------------------------------------
  // SET sql_mode

  lemma {:induction false} BeforeEquals(a: string, t: string)
    requires '=' !in a
    ensures SpanLength(c => c != '=', a + ("=" + t)) == |a|
  {
    hide SpanLength;
    var s := a + ("=" + t);
    assert s[|a|] == '=' && forall k :: 0 <= k < |a| ==> s[k] == a[k];
    SpanIs(c => c != '=', s, |a|);
  }

  lemma SqlModePrefix(upper: string, keyword: string)
    requires keyword in {"SET SQL_MODE", "SET SESSION SQL_MODE", "SET @@SQL_MODE", "SET @@SESSION.SQL_MODE"}
    requires keyword <= upper
    ensures !("SET NAMES " <= upper) && IsSetSqlMode(upper)
  {
    assert upper[4] == keyword[4];
  }

  /** The value may not begin or end in a quote, and, bare, not in a blank or a semicolon. */
  predicate IsModeValue(q: string, v: string) {
    && (v != "" ==> v[0] !in {'\'', '"'} && v[|v| - 1] !in {'\'', '"'})
    && (q == "" ==> v != "" && Trimmed(v) && v[|v| - 1] != ';')
  }

  lemma ModeEnds(q: string, v: string)
    requires IsQuoting(q) && IsModeValue(q, v)
    ensures var x := q + (v + q); x != "" && Trimmed(x) && x[|x| - 1] != ';'
  {
    var x := q + (v + q);
    assert x[0] == if q == "" then v[0] else q[0];
    assert x[|x| - 1] == if q == "" then v[|v| - 1] else q[0];
  }

  /** SET sql_mode in its four spellings, in any case: the value is stored as it is. */
  lemma SetSqlModeStores(s: State, keyword: string, q: string, v: string)
    requires ToUpper(keyword) in {"SET SQL_MODE", "SET SESSION SQL_MODE", "SET @@SQL_MODE", "SET @@SESSION.SQL_MODE"}
    requires IsQuoting(q) && IsModeValue(q, v)
    ensures SessionStep(s, keyword + (" " + ("=" + (" " + (q + (v + q)))))) == Changed(s.(sqlMode := v))
  {
    hide Trim, Bare, ToUpper, IsSetSqlMode, IsSpace, SqlModeValue, IsolationValue, SetNames;
    var x := q + (v + q);
    var text := keyword + (" " + ("=" + (" " + x)));
    ModeEnds(q, v);
    KeywordStart(keyword, 'S');
    assert text[0] == keyword[0] && text[|text| - 1] == x[|x| - 1];
    PlainIsBare(text);
    UpperConcat(keyword, " " + ("=" + (" " + x)));
    SqlModePrefix(ToUpper(text), ToUpper(keyword));
    NoEquals(keyword);
    ValueBehindEquals(keyword, x);
    QuotesGo(q, v);
  }

  lemma ValueBehindEquals(keyword: string, x: string)
    requires '=' !in keyword + " " && x != "" && Trimmed(x) && x[|x| - 1] != ';'
    ensures SqlModeValue(keyword + (" " + ("=" + (" " + x)))) == Unquoted(x)
  {
    hide Trim, Bare, SpanLength, Unquoted;
    var text := keyword + (" " + ("=" + (" " + x)));
    ConcatAssoc(keyword, " ", "=" + (" " + x));
    BeforeEquals(keyword + " ", " " + x);
    assert text[|keyword| + 2..] == " " + x;
    SpaceIsSpace();
    BlankIsBare(x);
  }

  lemma NoEquals(keyword: string)
    requires ToUpper(keyword) in {"SET SQL_MODE", "SET SESSION SQL_MODE", "SET @@SQL_MODE", "SET @@SESSION.SQL_MODE"}
    ensures '=' !in keyword + " "
  {
    hide ToUpper;
    var u := ToUpper(keyword);
    assert '=' !in u;
    forall k | 0 <= k < |keyword| ensures keyword[k] != '=' {
      assert u[k] == Upper(keyword[k]) && u[k] in u;
    }
  }

  lemma BlankIsBare(x: string)
    requires x != "" && Trimmed(x) && x[|x| - 1] != ';'
    ensures Bare(" " + x) == x
  {
    hide Trim, TrimEndMatches;
    TrimPadded(" ", x);
    EndStops(';', x);
    TrimmedStays(x);
  }

  // ---------------------------------------------------------------------------------------------------------------
  // Transaction isolation

  predicate AllNames(ws: seq<string>) {
    forall k :: 0 <= k < |ws| ==> IsWord(ws[k])
  }

  lemma {:induction false} WordsOfJoin(ws: seq<string>)
    requires AllNames(ws)
    ensures Words(Join(ws, " ")) == ws
    decreases |ws|
  {
    hide TokenLength, SpanLength, IsSpace, IsWord;
    if ws == [] {
      NoWords();
    } else {
      assert IsWord(ws[0]);
      var rest := ws[1..];
      assert AllNames(rest);
      NameHasNoSpace(ws[0]);
      if |ws| == 1 {
        assert ws[0] + "" == ws[0];
        WordThen(ws[0], "");
        NoWords();
        assert [ws[0]] == ws;
      } else {
        WordsOfJoin(rest);
        SpaceIsSpace();
        ConcatAssoc(ws[0], " ", Join(rest, " "));
        WordThen(ws[0], " " + Join(rest, " "));
        BlankSkips(Join(rest, " "));
        assert [ws[0]] + rest == ws;
      }
    }
  }

  lemma NameHasNoSpace(w: string)
    requires IsWord(w)
    ensures w != "" && forall k :: 0 <= k < |w| ==> !IsSpace(w[k])
  {
  }

  lemma NoWords()
    ensures Words("") == []
  {
  }

  lemma WordThen(w: string, t: string)
    requires w != "" && (forall k :: 0 <= k < |w| ==> !IsSpace(w[k])) && (t != "" ==> IsSpace(t[0]))
    ensures Words(w + t) == [w] + Words(t)
  {
    hide IsSpace;
    var s := w + t;
    assert s[0] == w[0];
    SpanIs(IsSpace, s, 0);
    FirstToken(w, t);
    assert s[0..] == s && s[..|w|] == w && s[|w|..] == t;
  }

  lemma BlankSkips(t: string)
    ensures Words(" " + t) == Words(t)
  {
    hide NotSpace;
    var s := " " + t;
    assert s[1..] == t;
    SpaceIsSpace();
    assert SpanLength(IsSpace, s) == 1 + SpanLength(IsSpace, t);
    assert s[1 + SpanLength(IsSpace, t)..] == t[SpanLength(IsSpace, t)..];
  }

  lemma {:induction false} JoinEnds(ws: seq<string>, sep: string)
    requires ws != [] && AllNames(ws)
    ensures var x := Join(ws, sep); x != "" && IsIdentifierChar(x[0]) && IsIdentifierChar(x[|x| - 1])
    decreases |ws|
  {
    hide IsIdentifierChar;
    assert IsWord(ws[0]) && IsWord(ws[|ws| - 1]);
    if |ws| > 1 {
      assert AllNames(ws[1..]);
      JoinEnds(ws[1..], sep);
      var (x, rest) := (Join(ws, sep), Join(ws[1..], sep));
      assert x[0] == ws[0][0] && x[|x| - 1] == rest[|rest| - 1];
    }
  }

  lemma OtherStatement(upper: string, p: string)
    requires |p| > 12 && p <= upper && (p[4] == 'T' || (p[4] == 'S' && p[5] == 'E' && p[12] == 'T'))
    ensures !("SET NAMES " <= upper) && !IsSetSqlMode(upper)
  {
    assert upper[4] == p[4];
    if p[4] == 'S' {
      assert upper[5] == 'E' && upper[12] == 'T';
    }
  }

  lemma LevelIsStored(s: State, text: string, level: string)
    requires Bare(text) == text
    requires || ("SET SESSION TRANSACTION ISOLATION LEVEL " <= ToUpper(text) && text[40..] == level)
             || ("SET TRANSACTION ISOLATION LEVEL " <= ToUpper(text) && text[32..] == level)
    ensures SessionStep(s, text) == Changed(s.(isolation := IsolationValue(Trim(level))))
  {
    hide Trim, Bare, ToUpper, IsSetSqlMode, IsolationValue, SetNames, SqlModeValue;
    var upper := ToUpper(text);
    if "SET SESSION TRANSACTION ISOLATION LEVEL " <= upper {
      OtherStatement(upper, "SET SESSION TRANSACTION ISOLATION LEVEL ");
      assert upper[4] == 'S';
    } else {
      OtherStatement(upper, "SET TRANSACTION ISOLATION LEVEL ");
    }
  }

  /** The isolation statements, in any case, for the session or the next transaction alike: the words of the level are
      stored in upper case with hyphens between them. */
  lemma IsolationStores(s: State, keyword: string, ws: seq<string>)
    requires ToUpper(keyword) in {"SET SESSION TRANSACTION ISOLATION LEVEL", "SET TRANSACTION ISOLATION LEVEL"}
    requires ws != [] && AllNames(ws)
    ensures SessionStep(s, keyword + (" " + Join(ws, " "))) == Changed(s.(isolation := ToUpper(Join(ws, "-"))))
  {
    hide Trim, Bare, ToUpper, IsSpace, Words, Join, SessionStep;
    var level := Join(ws, " ");
    var text := keyword + (" " + level);
    StatementIsBare(keyword, ws);
    KeywordIsPrefix(keyword, level);
    assert text[|keyword| + 1..] == level;
    LevelIsStored(s, text, level);
    TrimmedStays(level);
    WordsOfJoin(ws);
  }

  lemma KeywordIsPrefix(keyword: string, level: string)
    ensures ToUpper(keyword) + " " <= ToUpper(keyword + (" " + level))
  {
    hide ToUpper;
    UpperConcat(keyword, " " + level);
    SpaceStays(level);
  }

  lemma StatementIsBare(keyword: string, ws: seq<string>)
    requires ToUpper(keyword) != "" && ToUpper(keyword)[0] == 'S' && ws != [] && AllNames(ws)
    ensures var text := keyword + (" " + Join(ws, " ")); Bare(text) == text && Trimmed(Join(ws, " "))
  {
    hide Trim, Bare, ToUpper, IsSpace, Words, Join, IsIdentifierChar;
    var level := Join(ws, " ");
    var text := keyword + (" " + level);
    JoinEnds(ws, " ");
    IdentifierIsPlain(level[0]);
    IdentifierIsPlain(level[|level| - 1]);
    KeywordStart(keyword, 'S');
    assert text[0] == keyword[0] && text[|text| - 1] == level[|level| - 1];
    PlainIsBare(text);
  }

  lemma IdentifierIsPlain(c: char)
    requires IsIdentifierChar(c)
    ensures !IsSpace(c) && c != ';'
  {
  }
}
