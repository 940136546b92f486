/** The fallback for statements that only translate without parameters: every `?` becomes a marker literal, and the
    markers become `?` again in the translation. */
module Markers {
  import opened Text
  import opened Decimal

  // ---------------------------------------------------------------------------------------------------------------
  // Library string operations

  /** `s.replace(pattern, replacement)`: leftmost, non-overlapping. */
  function ReplaceAll(s: string, pattern: string, replacement: string): string
    requires pattern != ""
    decreases |s|
  {
    if |s| < |pattern| then s
    else if pattern <= s then replacement + ReplaceAll(s[|pattern|..], pattern, replacement)
    else [s[0]] + ReplaceAll(s[1..], pattern, replacement)
  }

  /** `s.matches(pattern).count()`. */
  function MatchCount(s: string, pattern: string): nat
    requires pattern != ""
    decreases |s|
  {
    if |s| < |pattern| then 0
    else if pattern <= s then 1 + MatchCount(s[|pattern|..], pattern)
    else MatchCount(s[1..], pattern)
  }

  predicate Occurs(s: string, pattern: string) {
    pattern <= s || (s != "" && Occurs(s[1..], pattern))
  }

  // ---------------------------------------------------------------------------------------------------------------
  // The markers

  const Core := "__mw_prepare_param_"

  /** `prepare_param_marker`. */
  function Marker(i: nat): (m: string)
    ensures m != ""
  {
    Core + (Numeral(i) + "__")
  }

  function QuotedMarker(i: nat): (m: string)
    ensures m != ""
  {
    "'" + (Marker(i) + "'")
  }

  /** The text with its question marks, in quotes or not, turned into markers numbered from `n`. */
  function Marked(s: string, n: nat): string {
    if s == "" then ""
    else if s[0] == '?' then QuotedMarker(n) + Marked(s[1..], n + 1)
    else [s[0]] + Marked(s[1..], n)
  }

  /** `replace_prepare_params_with_string_literals`. */
  method ReplaceParams(sql: string) returns (out: string)
    ensures out == Marked(sql, 1)
  {
    hide Marked;
    out := "";
    var idx := 1;
    assert sql[0..] == sql;
    for k := 0 to |sql|
      invariant out + Marked(sql[k..], idx) == Marked(sql, 1)
    {
      var ch := sql[k];
      MarkedAt(sql, k, idx);
      if ch == '?' {
        ConcatAssoc(out, QuotedMarker(idx), Marked(sql[k + 1..], idx + 1));
        out := out + QuotedMarker(idx);
        idx := idx + 1;
      } else {
        ConcatAssoc(out, [ch], Marked(sql[k + 1..], idx));
        out := out + [ch];
      }
    }
    assert sql[|sql|..] == "" && out + "" == out;
    MarkedNothing(idx);
  }

  lemma MarkedAt(sql: string, k: nat, n: nat)
    requires k < |sql|
    ensures Marked(sql[k..], n) ==
            if sql[k] == '?' then QuotedMarker(n) + Marked(sql[k + 1..], n + 1)
            else [sql[k]] + Marked(sql[k + 1..], n)
  {
    SuffixSteps(sql, k);
  }

  lemma MarkedNothing(n: nat)
    ensures Marked("", n) == ""
  {
  }

  function RestoreOne(s: string, i: nat): string {
    ReplaceAll(ReplaceAll(s, QuotedMarker(i), "?"), Marker(i), "?")
  }

  /** Restoring the markers numbered `i` to `last`, in this order. */
  function RestoreFrom(s: string, i: nat, last: nat): string
    decreases last + 1 - i
  {
    if i > last then s else RestoreFrom(RestoreOne(s, i), i + 1, last)
  }

  function Restored(s: string): string {
    var n := MatchCount(s, Core);
    RestoreFrom(s, 1, if n > 1 then n else 1)
  }

  /** `restore_prepare_param_markers`. */
  method RestoreMarkers(sql: string) returns (restored: string)
    ensures restored == Restored(sql)
  {
    hide RestoreOne;
    restored := sql;
    var n := MatchCount(sql, Core);
    var last := if n > 1 then n else 1;
    var idx := 1;
    while idx <= last
      invariant 1 <= idx <= last + 1
      invariant RestoreFrom(restored, idx, last) == RestoreFrom(sql, 1, last)
    {
      restored := RestoreOne(restored, idx);
      idx := idx + 1;
    }
  }

  // ---------------------------------------------------------------------------------------------------------------
  // Marked text as items

  datatype Item = Chr(c: char) | Mark(i: nat)

  function Piece(item: Item): string {
    match item
    case Chr(c) => [c]
    case Mark(i) => QuotedMarker(i)
  }

  function Render(items: seq<Item>): string {
    if items == [] then "" else Piece(items[0]) + Render(items[1..])
  }

  /** The text the items stand for. */
  function Original(items: seq<Item>): string {
    if items == [] then "" else [if items[0].Chr? then items[0].c else '?'] + Original(items[1..])
  }

  function ItemsOf(s: string, n: nat): seq<Item> {
    if s == "" then []
    else if s[0] == '?' then [Mark(n)] + ItemsOf(s[1..], n + 1)
    else [Chr(s[0])] + ItemsOf(s[1..], n)
  }

  /** The items once marker `i` has been restored. */
  function Settle(items: seq<Item>, i: nat): seq<Item> {
    if items == [] then []
    else [if items[0] == Mark(i) then Chr('?') else items[0]] + Settle(items[1..], i)
  }

  function CountMarks(items: seq<Item>): nat {
    if items == [] then 0 else (if items[0].Mark? then 1 else 0) + CountMarks(items[1..])
  }

  lemma RenderCons(item: Item, items: seq<Item>)
    ensures Render([item] + items) == Piece(item) + Render(items)
    ensures Original([item] + items) == [if item.Chr? then item.c else '?'] + Original(items)
    ensures CountMarks([item] + items) == (if item.Mark? then 1 else 0) + CountMarks(items)
  {
    assert ([item] + items)[1..] == items;
  }

  lemma {:induction false} ItemsFaithful(s: string, n: nat)
    ensures Render(ItemsOf(s, n)) == Marked(s, n)
    ensures Original(ItemsOf(s, n)) == s
    ensures forall k :: 0 <= k < |ItemsOf(s, n)| && ItemsOf(s, n)[k].Mark? ==>
              n <= ItemsOf(s, n)[k].i < n + CountMarks(ItemsOf(s, n))
    decreases s
  {
    hide QuotedMarker;
    if s != "" {
      var m := if s[0] == '?' then n + 1 else n;
      ItemsFaithful(s[1..], m);
      RenderCons(if s[0] == '?' then Mark(n) else Chr(s[0]), ItemsOf(s[1..], m));
      assert [s[0]] + s[1..] == s;
      var items := ItemsOf(s, n);
      forall k | 0 <= k < |items| && items[k].Mark? ensures n <= items[k].i < n + CountMarks(items) {
        assert k > 0 ==> items[k] == ItemsOf(s[1..], m)[k - 1];
      }
    }
  }

  // ---------------------------------------------------------------------------------------------------------------
  // Where a marker can be found

  lemma MarkerShape(i: nat)
    ensures |Core| == 19 && |Marker(i)| == 21 + |Numeral(i)|
    ensures forall k :: 0 <= k < |Marker(i)| ==> Marker(i)[k] != '\'' && Marker(i)[k] != '?'
    ensures forall k :: 0 <= k < |Marker(i)| && Marker(i)[k] == 'w' ==> k == 3
    ensures Marker(i)[0] == '_' && Marker(i)[3] == 'w' && Core <= Marker(i)
  {
    forall k | 0 <= k < |Marker(i)|
      ensures Marker(i)[k] != '\'' && Marker(i)[k] != '?' && (Marker(i)[k] == 'w' ==> k == 3)
    {
      if k >= 19 {
        var t := Numeral(i) + "__";
        assert Marker(i)[k] == t[k - 19];
        assert k - 19 < |Numeral(i)| ==> IsDigit(t[k - 19]);
      } else {
        CoreShape(k);
        assert Marker(i)[k] == Core[k];
      }
    }
  }

  lemma CoreShape(k: nat)
    requires k < |Core|
    ensures Core[k] != '\'' && Core[k] != '?' && (Core[k] == 'w' ==> k == 3)
  {
  }

  /** A pattern free of quotes and question marks that starts the rendering also starts the original. */
  lemma {:induction false} PlainPrefix(pattern: string, items: seq<Item>)
    requires pattern <= Render(items)
    requires forall k :: 0 <= k < |pattern| ==> pattern[k] != '\''
    ensures pattern <= Original(items)
    decreases |pattern|
  {
    hide Marker;
    if pattern != "" {
      var rest := Render(items[1..]);
      assert Render(items)[0] == pattern[0];
      assert items[0].Chr?;
      assert Render(items)[1..] == rest;
      PlainPrefix(pattern[1..], items[1..]);
    }
  }

  /** Where the original has no marker, the rendering has none at the front. */
  lemma NoMarkerInFront(items: seq<Item>, j: nat)
    requires !Occurs(Original(items), Marker(j))
    ensures !(Marker(j) <= Render(items))
  {
    hide Render, Original, Marker;
    MarkerShape(j);
    if Marker(j) <= Render(items) {
      PlainPrefix(Marker(j), items);
    }
  }

  lemma {:induction false} NumeralInjective(i: nat, j: nat)
    requires Numeral(i) == Numeral(j)
    ensures i == j
  {
    ValueOfNumeral(i);
    ValueOfNumeral(j);
  }

  lemma Differs(p: string, s: string, k: nat)
    requires k < |p| && (k >= |s| || p[k] != s[k])
    ensures !(p <= s)
  {
  }

  lemma PrefixParts(p: string, s: string, n: nat)
    requires n <= |p| && n <= |s|
    ensures p <= s ==> p[..n] == s[..n] && p[n..] <= s[n..]
  {
  }

  lemma PrefixOfPrefix(a: string, b: string, c: string)
    requires a <= b
    ensures b <= c ==> a <= c
  {
  }

  /** A numeral with a terminator that is no digit is found at the front of no other numeral. */
  lemma NumeralPrefix(i: nat, j: nat, t: string)
    requires i != j
    ensures !(Numeral(j) + "_" <= Numeral(i) + ("_" + t))
  {
    hide Numeral;
    var a, b := Numeral(j), Numeral(i);
    var p, s := a + "_", b + ("_" + t);
    if |a| < |b| {
      assert IsDigit(s[|a|]);
      Differs(p, s, |a|);
    } else if |b| < |a| {
      assert IsDigit(p[|b|]);
      Differs(p, s, |b|);
    } else {
      PrefixParts(p, s, |a|);
      assert p[..|a|] == a && s[..|a|] == b;
      if a == b {
        NumeralInjective(i, j);
      }
    }
  }

  /** One marker is not found in front of another's rendering. */
  lemma MarkerPrefix(i: nat, j: nat, t: string)
    requires i != j
    ensures !(Marker(j) <= Marker(i) + t)
  {
    hide Numeral;
    var (a, b) := (Numeral(j), Numeral(i));
    var p, s := Marker(j), Marker(i) + t;
    assert p[19..] == a + "__" && s[19..] == b + ("_" + ("_" + t));
    PrefixParts(p, s, 19);
    PrefixOfPrefix(a + "_", p[19..], s[19..]);
    NumeralPrefix(i, j, "_" + t);
  }

  /** Text in which the pattern starts nowhere is skipped. */
  lemma {:induction false} SkipText(x: string, rest: string, pattern: string, replacement: string)
    requires pattern != ""
    requires forall o :: 0 <= o < |x| ==> !(pattern <= (x + rest)[o..])
    ensures ReplaceAll(x + rest, pattern, replacement) == x + ReplaceAll(rest, pattern, replacement)
    ensures MatchCount(x + rest, pattern) == MatchCount(rest, pattern)
    decreases |x|
  {
    if x == "" {
      assert x + rest == rest;
    } else {
      var s := x + rest;
      assert s[1..] == x[1..] + rest;
      assert s[0..] == s;
      forall o | 0 <= o < |x[1..]| ensures !(pattern <= (x[1..] + rest)[o..]) {
        assert (x[1..] + rest)[o..] == s[o + 1..];
      }
      SkipText(x[1..], rest, pattern, replacement);
      if |s| < |pattern| {
        assert ReplaceAll(rest, pattern, replacement) == rest;
      } else {
        assert [s[0]] + (x[1..] + ReplaceAll(rest, pattern, replacement)) == x + ReplaceAll(rest, pattern, replacement);
      }
    }
  }

  /** A quoted marker is found inside the rendering of another one nowhere. */
  lemma QuotedNotInside(i: nat, j: nat, rest: string, o: nat)
    requires i != j && o < |QuotedMarker(i)| && !(Marker(j) <= rest)
    ensures !(QuotedMarker(j) <= (QuotedMarker(i) + rest)[o..])
  {
    hide Marker;
    var x, p := QuotedMarker(i), QuotedMarker(j);
    var s := (x + rest)[o..];
    MarkerShape(i);
    MarkerShape(j);
    assert s[0] == x[o];
    if o == 0 {
      PrefixParts(p, s, 1);
      PrefixOfPrefix(Marker(j), p[1..], s[1..]);
      assert s[1..] == Marker(i) + ("'" + rest);
      MarkerPrefix(i, j, "'" + rest);
    } else if o == |x| - 1 {
      PrefixParts(p, s, 1);
      assert s[1..] == rest;
      PrefixOfPrefix(Marker(j), p[1..], rest);
    } else {
      assert x[o] == Marker(i)[o - 1];
      Differs(p, s, 0);
    }
  }

  /** A bare marker likewise. */
  lemma BareNotInside(i: nat, j: nat, rest: string, o: nat)
    requires i != j && o < |QuotedMarker(i)|
    ensures !(Marker(j) <= (QuotedMarker(i) + rest)[o..])
  {
    hide Marker;
    var x, p := QuotedMarker(i), Marker(j);
    var s := (x + rest)[o..];
    var last := |x| - 1;
    MarkerShape(i);
    MarkerShape(j);
    assert x[last] == '\'' && x[0] == '\'' && s[0] == x[o];
    if o == 0 || o == last {
      Differs(p, s, 0);
    } else if o == 1 {
      assert s == Marker(i) + ("'" + rest);
      MarkerPrefix(i, j, "'" + rest);
    } else if o + 3 <= last {
      assert s[3] == x[o + 3];
      assert o + 3 < last ==> x[o + 3] == Marker(i)[o + 2];
      Differs(p, s, 3);
    } else {
      assert s[last - o] == x[last];
      Differs(p, s, last - o);
    }
  }

  /** After the marker text of one marker the next one is not found before its closing quote. */
  lemma CoreNotInTail(i: nat, rest: string, o: nat)
    requires o < |Numeral(i) + "__'"|
    ensures !(Core <= (Numeral(i) + "__'" + rest)[o..])
  {
    hide Numeral;
    var x := Numeral(i) + "__'";
    var s := (x + rest)[o..];
    var last := |x| - 1;
    if o + 3 <= last {
      assert s[3] == x[o + 3] && Core[3] == 'w';
      assert o + 3 < |Numeral(i)| ==> IsDigit(x[o + 3]);
      Differs(Core, s, 3);
    } else {
      assert s[last - o] == x[last] == '\'';
      CoreShape(last - o);
      Differs(Core, s, last - o);
    }
  }

  // ---------------------------------------------------------------------------------------------------------------
  // Restoring

  lemma ReplaceHead(x: string, rest: string, replacement: string)
    requires x != ""
    ensures ReplaceAll(x + rest, x, replacement) == replacement + ReplaceAll(rest, x, replacement)
    ensures MatchCount(x + rest, x) == 1 + MatchCount(rest, x)
  {
    assert (x + rest)[|x|..] == rest;
  }

  lemma OccursTail(items: seq<Item>, pattern: string)
    requires items != [] && !Occurs(Original(items), pattern)
    ensures !Occurs(Original(items[1..]), pattern)
  {
    assert Original(items)[1..] == Original(items[1..]);
  }

  /** A single character of the original is no place where the marker starts. */
  lemma {:induction false} NoMarkerAtChr(items: seq<Item>, j: nat)
    requires items != [] && items[0].Chr? && !Occurs(Original(items), Marker(j))
    ensures !(QuotedMarker(j) <= Render(items)) && !(Marker(j) <= Render(items))
  {
    hide Marker;
    var rest := Render(items[1..]);
    NoMarkerInFront(items, j);
    OccursTail(items, Marker(j));
    NoMarkerInFront(items[1..], j);
    assert Render(items)[1..] == rest;
    PrefixParts(QuotedMarker(j), Render(items), 1);
    assert QuotedMarker(j)[1..] == Marker(j) + "'";
    PrefixOfPrefix(Marker(j), Marker(j) + "'", rest);
  }

  lemma {:induction false} ReplaceQuoted(items: seq<Item>, j: nat)
    requires !Occurs(Original(items), Marker(j))
    ensures ReplaceAll(Render(items), QuotedMarker(j), "?") == Render(Settle(items, j))
    decreases |items|
  {
    hide Occurs, Original, ReplaceAll, QuotedMarker;
    if items == [] {
      ReplaceNothing(QuotedMarker(j));
    } else {
      var x, rest := Piece(items[0]), Render(items[1..]);
      OccursTail(items, Marker(j));
      ReplaceQuoted(items[1..], j);
      RenderCons(if items[0] == Mark(j) then Chr('?') else items[0], Settle(items[1..], j));
      if items[0] == Mark(j) {
        ReplaceHead(x, rest, "?");
      } else {
        forall o | 0 <= o < |x| ensures !(QuotedMarker(j) <= (x + rest)[o..]) {
          if items[0].Chr? {
            NoMarkerAtChr(items, j);
            assert (x + rest)[0..] == x + rest;
          } else {
            NoMarkerInFront(items[1..], j);
            QuotedNotInside(items[0].i, j, rest, o);
          }
        }
        SkipText(x, rest, QuotedMarker(j), "?");
      }
    }
  }

  lemma ReplaceNothing(pattern: string)
    requires pattern != ""
    ensures ReplaceAll("", pattern, "?") == "" && MatchCount("", pattern) == 0
  {
  }

  lemma {:induction false} ReplaceBare(items: seq<Item>, j: nat)
    requires !Occurs(Original(items), Marker(j)) && Mark(j) !in items
    ensures ReplaceAll(Render(items), Marker(j), "?") == Render(items)
    decreases |items|
  {
    hide Occurs, Original, ReplaceAll, QuotedMarker, Marker;
    if items == [] {
      ReplaceNothing(Marker(j));
    } else {
      var x, rest := Piece(items[0]), Render(items[1..]);
      OccursTail(items, Marker(j));
      assert items[0] in items;
      ReplaceBare(items[1..], j);
      forall o | 0 <= o < |x| ensures !(Marker(j) <= (x + rest)[o..]) {
        if items[0].Chr? {
          NoMarkerAtChr(items, j);
          assert (x + rest)[0..] == x + rest;
        } else {
          BareNotInside(items[0].i, j, rest, o);
        }
      }
      MarkerShape(j);
      SkipText(x, rest, Marker(j), "?");
    }
  }

  lemma CoreMatchesMark(i: nat, rest: string)
    ensures MatchCount(QuotedMarker(i) + rest, Core) == 1 + MatchCount(rest, Core)
  {
    hide MatchCount, Numeral;
    var tail := Numeral(i) + "__'";
    var body := Core + (tail + rest);
    assert QuotedMarker(i) + rest == "'" + body;
    forall o | 0 <= o < 1 ensures !(Core <= ("'" + body)[o..]) {
      assert ("'" + body)[0] == '\'' && Core[0] == '_';
      assert ("'" + body)[0..] == "'" + body;
    }
    SkipText("'", body, Core, "?");
    ReplaceHead(Core, tail + rest, "?");
    forall o | 0 <= o < |tail| ensures !(Core <= (tail + rest)[o..]) {
      CoreNotInTail(i, rest, o);
    }
    SkipText(tail, rest, Core, "?");
  }

  lemma {:induction false} SettleFacts(items: seq<Item>, j: nat)
    ensures Original(Settle(items, j)) == Original(items)
    ensures |Settle(items, j)| == |items|
    ensures forall k :: 0 <= k < |items| ==>
              Settle(items, j)[k] == if items[k] == Mark(j) then Chr('?') else items[k]
  {
    if items != [] {
      SettleFacts(items[1..], j);
      RenderCons(if items[0] == Mark(j) then Chr('?') else items[0], Settle(items[1..], j));
    }
  }

  lemma RestoreOneMarker(items: seq<Item>, j: nat)
    requires !Occurs(Original(items), Marker(j))
    ensures RestoreOne(Render(items), j) == Render(Settle(items, j))
  {
    hide Occurs, Original, ReplaceAll, Render, Settle;
    ReplaceQuoted(items, j);
    SettleFacts(items, j);
    ReplaceBare(Settle(items, j), j);
  }

  predicate MarksBetween(items: seq<Item>, low: nat, high: nat) {
    forall k :: 0 <= k < |items| && items[k].Mark? ==> low <= items[k].i <= high
  }

  lemma {:induction false} NoMarksLeft(items: seq<Item>)
    requires forall k :: 0 <= k < |items| ==> items[k].Chr?
    ensures Render(items) == Original(items)
  {
    if items != [] {
      NoMarksLeft(items[1..]);
    }
  }

  /** The text itself holds none of the markers `low` to `high`. */
  predicate NoMarkerBetween(s: string, low: nat, high: nat) {
    forall k :: low <= k <= high ==> !Occurs(s, Marker(k))
  }

  /** With the markers below `j` restored, restoring those up to `last` gives the original. */
  lemma {:induction false} RestoreRest(items: seq<Item>, j: nat, last: nat)
    requires NoMarkerBetween(Original(items), j, last) && MarksBetween(items, j, last)
    ensures RestoreFrom(Render(items), j, last) == Original(items)
    decreases last + 1 - j
  {
    hide Occurs, Original, RestoreOne, Render, Settle, Marker;
    if j > last {
      NoMarksLeft(items);
    } else {
      RestoreOneMarker(items, j);
      SettleFacts(items, j);
      RestoreRest(Settle(items, j), j + 1, last);
    }
  }

  /** Replacing by a question mark creates no pattern that has none. */
  lemma {:induction false} ReplacedPrefix(s: string, pattern: string, q: string)
    requires pattern != "" && q <= ReplaceAll(s, pattern, "?")
    requires forall k :: 0 <= k < |q| ==> q[k] != '?'
    ensures q <= s
    decreases |q|
  {
    if q != "" && |s| >= |pattern| {
      var r := ReplaceAll(s, pattern, "?");
      assert r[0] == q[0];
      assert r[1..] == ReplaceAll(s[1..], pattern, "?");
      ReplacedPrefix(s[1..], pattern, q[1..]);
    }
  }

  /** A pattern without question marks does not occur after it has been replaced, nor later on. */
  lemma {:induction false} ReplacedIsGone(s: string, pattern: string, q: string)
    requires pattern != "" && q != "" && (q == pattern || !Occurs(s, q))
    requires forall k :: 0 <= k < |q| ==> q[k] != '?'
    ensures !Occurs(ReplaceAll(s, pattern, "?"), q)
    decreases |s|
  {
    var r := ReplaceAll(s, pattern, "?");
    if |s| < |pattern| {
      if q == pattern {
        TooShort(s, q);
      }
    } else if pattern <= s {
      assert r[0] == '?' && q[0] != '?';
      Differs(q, r, 0);
      assert r[1..] == ReplaceAll(s[|pattern|..], pattern, "?");
      OccursSuffix(s, |pattern|, q);
      ReplacedIsGone(s[|pattern|..], pattern, q);
    } else {
      assert r[1..] == ReplaceAll(s[1..], pattern, "?");
      ReplacedIsGone(s[1..], pattern, q);
      if q <= r {
        ReplacedPrefix(s, pattern, q);
      }
    }
  }

  lemma {:induction false} TooShort(s: string, q: string)
    requires |s| < |q|
    ensures !Occurs(s, q)
  {
    if s != "" {
      TooShort(s[1..], q);
    }
  }

  lemma {:induction false} OccursSuffix(s: string, n: nat, q: string)
    requires n <= |s|
    ensures Occurs(s[n..], q) ==> Occurs(s, q)
    decreases n
  {
    if n == 0 {
      assert s[0..] == s;
    } else {
      OccursSuffix(s[1..], n - 1, q);
      assert s[1..][n - 1..] == s[n..];
    }
  }

  /** Once marker `k` is due, none of it is left in the end. */
  lemma {:induction false} MarkerIsGone(s: string, k: nat, j: nat, last: nat)
    requires k <= last && (j <= k || !Occurs(s, Marker(k)))
    ensures !Occurs(RestoreFrom(s, j, last), Marker(k))
    decreases last + 1 - j
  {
    hide Occurs, Marker, ReplaceAll;
    if j <= last {
      MarkerShape(k);
      var half := ReplaceAll(s, QuotedMarker(j), "?");
      if j > k {
        ReplacedIsGone(s, QuotedMarker(j), Marker(k));
        ReplacedIsGone(half, Marker(j), Marker(k));
      } else if j == k {
        ReplacedIsGone(half, Marker(j), Marker(k));
      }
      MarkerIsGone(RestoreOne(s, j), k, j + 1, last);
    }
  }

  function QuestionMarks(s: string): nat {
    if s == "" then 0 else (if s[0] == '?' then 1 else 0) + QuestionMarks(s[1..])
  }

  lemma MarkedCons(s: string, n: nat)
    requires s != ""
    ensures s[0] == '?' ==> Marked(s, n) == QuotedMarker(n) + Marked(s[1..], n + 1)
    ensures s[0] != '?' ==> Marked(s, n) == [s[0]] + Marked(s[1..], n) && Marked(s, n)[1..] == Marked(s[1..], n)
  {
  }

  /** Text without quotes and question marks is in front of the marked text exactly if it is in front of the text. */
  lemma {:induction false} PlainFront(p: string, s: string, n: nat)
    requires forall k :: 0 <= k < |p| ==> p[k] != '\'' && p[k] != '?'
    ensures p <= Marked(s, n) <==> p <= s
    ensures p <= s ==> Marked(s, n)[|p|..] == Marked(s[|p|..], n)
    decreases |p|
  {
    hide Marked, Marker;
    if p == "" {
      assert Marked(s, n)[0..] == Marked(s, n) && s[0..] == s;
    } else if s == "" {
      MarkedNothing(n);
    } else {
      MarkedCons(s, n);
      if s[0] == '?' {
        assert Marked(s, n)[0] == '\'' && p[0] != '\'' && p[0] != '?';
      } else {
        PlainFront(p[1..], s[1..], n);
        var t := Marked(s, n);
        assert t[0] == s[0] && t[1..][..] == t[1..];
        assert p <= t <==> p[0] == t[0] && p[1..] <= t[1..];
        assert p <= s <==> p[0] == s[0] && p[1..] <= s[1..];
        if p <= s {
          assert t[|p|..] == t[1..][|p| - 1..] && s[|p|..] == s[1..][|p| - 1..];
        }
      }
    }
  }

  lemma MatchTail(s: string, pattern: string)
    requires pattern != "" && s != "" && !(pattern <= s)
    ensures MatchCount(s, pattern) == MatchCount(s[1..], pattern)
  {
  }

  lemma MatchFront(s: string, pattern: string)
    requires pattern != "" && pattern <= s
    ensures MatchCount(s, pattern) == 1 + MatchCount(s[|pattern|..], pattern)
  {
  }

  lemma CoreIsPlain()
    ensures forall k :: 0 <= k < |Core| ==> Core[k] != '\'' && Core[k] != '?'
  {
    assert '\'' !in Core && '?' !in Core;
  }

  /** What the marked text is counted to hold: a marker for each question mark, and what the text held before. */
  lemma {:induction false} MarkersCounted(s: string, n: nat)
    ensures MatchCount(Marked(s, n), Core) == QuestionMarks(s) + MatchCount(s, Core)
    decreases |s|
  {
    hide Marked, MatchCount, QuotedMarker;
    if s == "" {
      MarkedNothing(n);
    } else {
      MarkedCons(s, n);
      CoreIsPlain();
      PlainFront(Core, s, n);
      if s[0] == '?' {
        MarkersCounted(s[1..], n + 1);
        CoreMatchesMark(n, Marked(s[1..], n + 1));
        MatchTail(s, Core);
      } else if Core <= s {
        MarkersCounted(s[|Core|..], n);
        MatchFront(s, Core);
        MatchFront(Marked(s, n), Core);
        NoQuestionMarks(s, |Core|);
      } else {
        MarkersCounted(s[1..], n);
        MatchTail(s, Core);
        MatchTail(Marked(s, n), Core);
      }
    }
  }

  lemma {:induction false} NoQuestionMarks(s: string, k: nat)
    requires k <= |s| && forall i :: 0 <= i < k ==> s[i] != '?'
    ensures QuestionMarks(s) == QuestionMarks(s[k..])
    decreases k
  {
    if k > 0 {
      NoQuestionMarks(s[1..], k - 1);
      assert s[1..][k - 1..] == s[k..];
    } else {
      assert s[0..] == s;
    }
  }

  lemma {:induction false} EveryMarkIsAsked(s: string, n: nat)
    ensures CountMarks(ItemsOf(s, n)) == QuestionMarks(s)
  {
    if s != "" {
      EveryMarkIsAsked(s[1..], if s[0] == '?' then n + 1 else n);
      assert ItemsOf(s, n)[1..] == ItemsOf(s[1..], if s[0] == '?' then n + 1 else n);
    }
  }

  /** The last marker number that restoring looks for: as many as the text has question marks and marker beginnings of
      its own, but at least one. */
  function LastMarker(sql: string): nat {
    var n := QuestionMarks(sql) + MatchCount(sql, Core);
    if n > 1 then n else 1
  }

  /** Restoring undoes marking, whatever the number of question marks, adjacent, quoted or not, exactly when the text
      does not itself hold one of the markers that will be looked for. */
  lemma MarkerRoundTrip(sql: string)
    ensures Restored(Marked(sql, 1)) == sql <==> NoMarkerBetween(sql, 1, LastMarker(sql))
  {
    hide Occurs, Original, RestoreFrom, Render, Marked, ItemsOf, MatchCount, CountMarks, Marker, QuestionMarks;
    MarkersCounted(sql, 1);
    if NoMarkerBetween(sql, 1, LastMarker(sql)) {
      var items := ItemsOf(sql, 1);
      ItemsFaithful(sql, 1);
      EveryMarkIsAsked(sql, 1);
      RestoreRest(items, 1, LastMarker(sql));
    } else {
      var k :| 1 <= k <= LastMarker(sql) && Occurs(sql, Marker(k));
      MarkerIsGone(Marked(sql, 1), k, 1, LastMarker(sql));
    }
  }

  lemma {:induction false} MarkerHoldsCore(s: string, k: nat)
    requires Occurs(s, Marker(k))
    ensures Occurs(s, Core)
  {
    hide Marker;
    MarkerShape(k);
    if Marker(k) <= s {
      PrefixOfPrefix(Core, Marker(k), s);
    } else {
      MarkerHoldsCore(s[1..], k);
    }
  }

  /** In particular for every text without the marker's fixed part. */
  lemma MarkerRoundTripWithoutCore(sql: string)
    requires !Occurs(sql, Core)
    ensures Restored(Marked(sql, 1)) == sql
  {
    hide Occurs, Marker, Marked, Restored;
    forall k | 1 <= k <= LastMarker(sql) ensures !Occurs(sql, Marker(k)) {
      if Occurs(sql, Marker(k)) {
        MarkerHoldsCore(sql, k);
      }
    }
    MarkerRoundTrip(sql);
  }

  /** The failing family is real: a text that is a marker comes back as a question mark. */
  lemma {:induction false} MarkerTextIsLost()
    ensures Restored(Marked(Marker(1), 1)) != Marker(1)
  {
    hide Restored, Marked, Marker;
    assert Occurs(Marker(1), Marker(1));
    assert !NoMarkerBetween(Marker(1), 1, LastMarker(Marker(1)));
    MarkerRoundTrip(Marker(1));
  }
}
