/** `split_sql_csv`: splitting at the commas that lie outside quotes and parentheses. */
module Csv {
  import opened Text
  import opened Lexer

  datatype Error = EmptySegment | EmptyTrailingSegment

  /** Nesting depth after a character outside quotes; a stray ')' leaves it at zero, as `saturating_sub` does. */
  function Deeper(st: State, depth: nat, c: char): nat {
    if !st.InCode() then depth
    else if c == '(' then depth + 1
    else if c == ')' && depth > 0 then depth - 1
    else depth
  }

  predicate AtTop(st: State, depth: nat) {
    st.InCode() && depth == 0
  }

  /** Text in front of the first piece. */
  function Onto(prefix: string, pieces: seq<string>): seq<string>
    requires pieces != []
  {
    [prefix + pieces[0]] + pieces[1..]
  }

  /** The pieces between top-level commas, before trimming. */
  function Pieces(st: State, depth: nat, s: string): (ps: seq<string>)
    ensures ps != []
    decreases s
  {
    if s == "" then [""]
    else if s[0] == ',' && AtTop(st, depth) then [""] + Pieces(Code, 0, s[1..])
    else Onto([s[0]], Pieces(Step(CsvDialect, st, s[0]), Deeper(st, depth, s[0]), s[1..]))
  }

  function TrimAll(ps: seq<string>): (r: seq<string>)
    ensures |r| == |ps|
    ensures forall k :: 0 <= k < |ps| ==> r[k] == Trim(ps[k])
  {
    seq(|ps|, k requires 0 <= k < |ps| => Trim(ps[k]))
  }

  /** What the split returns for given pieces: blank pieces are errors, and the last one has its own. */
  function Outcome(ps: seq<string>): Result<seq<string>, Error>
    requires ps != []
  {
    if exists k :: 0 <= k < |ps| - 1 && Trim(ps[k]) == "" then Err(EmptySegment)
    else if Trim(ps[|ps| - 1]) == "" then Err(EmptyTrailingSegment)
    else Ok(TrimAll(ps))
  }

  function Split(s: string): Result<seq<string>, Error> {
    Outcome(Pieces(Code, 0, s))
  }

  /** The scanner's flags as a state of the specification lexer. */
  predicate Flags(st: State, inSingle: bool, inDouble: bool, inBacktick: bool) {
    match st
    case Quoted(q) =>
      && (inSingle <==> q == '\'') && (inDouble <==> q == '"') && (inBacktick <==> q == '`')
      && (inSingle || inDouble || inBacktick)
    case Code => !inSingle && !inDouble && !inBacktick
    case _ => false
  }

  lemma OntoTwice(a: string, b: string, ps: seq<string>)
    requires ps != []
    ensures Onto(a, Onto(b, ps)) == Onto(a + b, ps)
  {
    ConcatAssoc(a, b, ps[0]);
  }

  lemma OntoNothing(ps: seq<string>)
    requires ps != []
    ensures Onto("", ps) == ps
  {
    assert "" + ps[0] == ps[0];
  }

  /** One character of the scan that is not a separator. */
  lemma PiecesAt(input: string, i: nat, current: string, st: State, depth: nat)
    requires i < |input| && !(input[i] == ',' && AtTop(st, depth))
    ensures Onto(current, Pieces(st, depth, input[i..])) ==
            Onto(current + [input[i]], Pieces(Step(CsvDialect, st, input[i]), Deeper(st, depth, input[i]),
                                              input[i + 1..]))
  {
    SuffixSteps(input, i);
    OntoTwice(current, [input[i]],
              Pieces(Step(CsvDialect, st, input[i]), Deeper(st, depth, input[i]), input[i + 1..]));
  }

  /** A separator. */
  lemma PiecesCut(input: string, i: nat, current: string, st: State, depth: nat)
    requires i < |input| && input[i] == ',' && AtTop(st, depth)
    ensures Onto(current, Pieces(st, depth, input[i..])) == [current] + Pieces(Code, 0, input[i + 1..])
  {
    SuffixSteps(input, i);
    assert current + "" == current;
  }

  lemma PiecesOfNothing(st: State, depth: nat, input: string)
    ensures Pieces(st, depth, input[|input|..]) == [""]
  {
  }

  lemma OntoEmptyPiece(current: string)
    ensures Onto(current, [""]) == [current]
  {
    assert current + "" == current;
  }

  lemma ScanStarts(input: string)
    ensures [] + Onto("", Pieces(Code, 0, input[0..])) == Pieces(Code, 0, input)
    ensures TrimAll([]) == [] && NoneBlank([])
  {
    assert input[0..] == input;
    OntoNothing(Pieces(Code, 0, input));
  }

  predicate NoneBlank(ps: seq<string>) {
    forall k :: 0 <= k < |ps| ==> Trim(ps[k]) != ""
  }

  /** The three ways the scan ends. */
  lemma BlankSegment(raw: seq<string>, current: string, rest: seq<string>)
    requires Trim(current) == "" && rest != []
    ensures Outcome(raw + [current] + rest) == Err(EmptySegment)
  {
    assert (raw + [current] + rest)[|raw|] == current;
  }

  lemma LastSegment(raw: seq<string>, current: string)
    requires NoneBlank(raw)
    ensures Outcome(raw + [current]) ==
            if Trim(current) == "" then Err(EmptyTrailingSegment) else Ok(TrimAll(raw) + [Trim(current)])
  {
    hide Trim;
    var ps := raw + [current];
    assert TrimAll(ps) == TrimAll(raw) + [Trim(current)];
    assert forall k :: 0 <= k < |ps| - 1 ==> ps[k] == raw[k];
  }

  lemma TrimAllGrows(raw: seq<string>, current: string)
    ensures TrimAll(raw + [current]) == TrimAll(raw) + [Trim(current)]
    ensures NoneBlank(raw) && Trim(current) != "" ==> NoneBlank(raw + [current])
  {
    hide Trim;
  }

  method SplitSqlCsv(input: string) returns (r: Result<seq<string>, Error>)
    ensures r == Split(input)
  {
    hide Pieces, Trim, Outcome, TrimAll, NoneBlank, Onto;
    var parts: seq<string> := [];
    var current := "";
    var inSingle, inDouble, inBacktick := false, false, false;
    var depth: nat := 0;
    var i := 0;
    ghost var st := Code;
    ghost var raw: seq<string> := [];
    ScanStarts(input);
    while i < |input|
      invariant i <= |input|
      invariant Flags(st, inSingle, inDouble, inBacktick)
      invariant raw + Onto(current, Pieces(st, depth, input[i..])) == Pieces(Code, 0, input)
      invariant parts == TrimAll(raw) && NoneBlank(raw)
    {
      var ch := input[i];
      i := i + 1;
      if ch == ',' && !inSingle && !inDouble && !inBacktick && depth == 0 {
        var part := Trim(current);
        ghost var rest := Pieces(Code, 0, input[i..]);
        PiecesCut(input, i - 1, current, st, depth);
        ConcatAssoc(raw, [current], rest);
        if part == "" {
          BlankSegment(raw, current, rest);
          return Err(EmptySegment);
        }
        TrimAllGrows(raw, current);
        parts, raw, current := parts + [part], raw + [current], "";
        OntoNothing(rest);
        continue;
      }
      PiecesAt(input, i - 1, current, st, depth);
      ghost var before := st;
      current, st := current + [ch], Step(CsvDialect, st, ch);
      if ch == '\\' && (inSingle || inDouble) {
        if i < |input| {
          PiecesAt(input, i, current, st, depth);
          current, st := current + [input[i]], Step(CsvDialect, st, input[i]);
          i := i + 1;
        } else {
          PiecesOfNothing(st, depth, input);
          PiecesOfNothing(before, depth, input);
          st := before;
        }
      } else if ch == '\'' && !inDouble && !inBacktick {
        if inSingle && i < |input| && input[i] == '\'' {
          PiecesAt(input, i, current, st, depth);
          current, st := current + [input[i]], Step(CsvDialect, st, input[i]);
          i := i + 1;
        } else {
          inSingle := !inSingle;
        }
      } else if ch == '"' && !inSingle && !inBacktick {
        inDouble := !inDouble;
      } else if ch == '`' && !inSingle && !inDouble {
        inBacktick := !inBacktick;
      } else if ch == '(' && !inSingle && !inDouble && !inBacktick {
        depth := depth + 1;
      } else if ch == ')' && !inSingle && !inDouble && !inBacktick {
        depth := if depth > 0 then depth - 1 else 0;
      }
    }
    var part := Trim(current);
    PiecesOfNothing(st, depth, input);
    OntoEmptyPiece(current);
    LastSegment(raw, current);
    if part == "" {
      return Err(EmptyTrailingSegment);
    }
    return Ok(parts + [part]);
  }

  // ---------------------------------------------------------------------------------------------------------------
  // Splitting and joining undo each other

  /** The untrimmed pieces joined by commas are the text itself, whatever the nesting, escapes, stray closing
      parentheses or an unclosed last quote. */
  lemma {:induction false} PiecesJoinToText(st: State, depth: nat, s: string)
    ensures Join(Pieces(st, depth, s), ",") == s
    decreases s
  {
    if s != "" {
      if s[0] == ',' && AtTop(st, depth) {
        var rest := Pieces(Code, 0, s[1..]);
        PiecesJoinToText(Code, 0, s[1..]);
        assert ([""] + rest)[1..] == rest;
        assert "" + "," + Join(rest, ",") == s;
      } else {
        var st', depth' := Step(CsvDialect, st, s[0]), Deeper(st, depth, s[0]);
        PiecesJoinToText(st', depth', s[1..]);
        OntoJoin([s[0]], Pieces(st', depth', s[1..]));
      }
    }
  }

  lemma OntoJoin(prefix: string, ps: seq<string>)
    requires ps != []
    ensures Join(Onto(prefix, ps), ",") == prefix + Join(ps, ",")
  {
    assert Onto(prefix, ps)[1..] == ps[1..];
    if |ps| > 1 {
      ConcatAssoc(prefix, ps[0], ",");
      ConcatAssoc(prefix, ps[0] + ",", Join(ps[1..], ","));
    }
  }

  /** No separator lies in `p` when it is read from the given state. */
  predicate Whole(st: State, depth: nat, p: string)
    decreases p
  {
    p != "" ==>
      && !(p[0] == ',' && AtTop(st, depth))
      && Whole(Step(CsvDialect, st, p[0]), Deeper(st, depth, p[0]), p[1..])
  }

  /** State and depth after reading `p`. */
  function End(st: State, depth: nat, p: string): (State, nat)
    decreases p
  {
    if p == "" then (st, depth) else End(Step(CsvDialect, st, p[0]), Deeper(st, depth, p[0]), p[1..])
  }

  /** Every piece holds no separator, and all but the last end outside quotes and parentheses. */
  lemma {:induction false} PiecesAreWhole(st: State, depth: nat, s: string, k: nat)
    requires k < |Pieces(st, depth, s)|
    ensures var p := Pieces(st, depth, s)[k];
            var (from, at) := if k == 0 then (st, depth) else (Code, 0);
            && Whole(from, at, p)
            && (k < |Pieces(st, depth, s)| - 1 ==> AtTop(End(from, at, p).0, End(from, at, p).1))
    decreases s
  {
    if s != "" {
      if s[0] == ',' && AtTop(st, depth) {
        if k > 0 {
          PiecesAreWhole(Code, 0, s[1..], k - 1);
        }
      } else {
        var st', depth' := Step(CsvDialect, st, s[0]), Deeper(st, depth, s[0]);
        var rest := Pieces(st', depth', s[1..]);
        PiecesAreWhole(st', depth', s[1..], k);
        if k == 0 {
          assert ([s[0]] + rest[0])[1..] == rest[0];
        }
      }
    }
  }

  lemma {:induction false} WholeIsOnePiece(st: State, depth: nat, p: string)
    requires Whole(st, depth, p)
    ensures Pieces(st, depth, p) == [p]
    decreases p
  {
    if p != "" {
      WholeIsOnePiece(Step(CsvDialect, st, p[0]), Deeper(st, depth, p[0]), p[1..]);
      assert [p[0]] + p[1..] == p;
    }
  }

  lemma {:induction false} WholeThenComma(st: State, depth: nat, p: string, rest: string)
    requires Whole(st, depth, p) && AtTop(End(st, depth, p).0, End(st, depth, p).1)
    ensures Pieces(st, depth, p + ("," + rest)) == [p] + Pieces(Code, 0, rest)
    decreases p
  {
    if p == "" {
      assert p + ("," + rest) == "," + rest && ("," + rest)[1..] == rest;
    } else {
      var st', depth' := Step(CsvDialect, st, p[0]), Deeper(st, depth, p[0]);
      WholeThenComma(st', depth', p[1..], rest);
      assert (p + ("," + rest))[1..] == p[1..] + ("," + rest);
      assert Onto([p[0]], [p[1..]] + Pieces(Code, 0, rest)) == [[p[0]] + p[1..]] + Pieces(Code, 0, rest);
      assert [p[0]] + p[1..] == p;
    }
  }

  // Trimming keeps a piece whole

  lemma {:induction false} WholeConcat(st: State, depth: nat, a: string, b: string)
    ensures End(st, depth, a + b) == End(End(st, depth, a).0, End(st, depth, a).1, b)
    ensures Whole(st, depth, a + b) <==> Whole(st, depth, a) && Whole(End(st, depth, a).0, End(st, depth, a).1, b)
    decreases a
  {
    if a == "" {
      assert a + b == b;
    } else {
      assert (a + b)[1..] == a[1..] + b;
      WholeConcat(Step(CsvDialect, st, a[0]), Deeper(st, depth, a[0]), a[1..], b);
    }
  }

  /** The states the splitter can stand in. */
  predicate Reachable(st: State) {
    st.Code? || (st.InQuote() && IsQuote(st.quote))
  }

  lemma {:induction false} CsvStates(st: State, depth: nat, p: string)
    requires Reachable(st)
    ensures Reachable(End(st, depth, p).0)
    decreases p
  {
    if p != "" {
      CsvStates(Step(CsvDialect, st, p[0]), Deeper(st, depth, p[0]), p[1..]);
    }
  }

  lemma {:induction false} BlankKeepsTop(st: State, depth: nat, b: string)
    requires AllSpace(b) && Reachable(st)
    ensures AtTop(End(st, depth, b).0, End(st, depth, b).1) ==> AtTop(st, depth)
    ensures st == Code ==> End(st, depth, b) == (Code, depth) && Whole(st, depth, b)
    decreases b
  {
    if b != "" {
      assert IsSpace(b[0]);
      BlankKeepsTop(Step(CsvDialect, st, b[0]), Deeper(st, depth, b[0]), b[1..]);
    }
  }

  lemma BlankEndsDoNotMatter(lead: string, t: string, trail: string)
    requires AllSpace(lead) && AllSpace(trail)
    ensures Whole(Code, 0, lead + (t + trail)) ==> Whole(Code, 0, t)
    ensures AtTop(End(Code, 0, lead + (t + trail)).0, End(Code, 0, lead + (t + trail)).1) ==>
              AtTop(End(Code, 0, t).0, End(Code, 0, t).1)
  {
    WholeConcat(Code, 0, lead, t + trail);
    BlankKeepsTop(Code, 0, lead);
    WholeConcat(Code, 0, t, trail);
    CsvStates(Code, 0, t);
    BlankKeepsTop(End(Code, 0, t).0, End(Code, 0, t).1, trail);
  }

  /** A part: trimmed, not blank, and whole. */
  predicate Part(p: string) {
    p != "" && Trimmed(p) && Whole(Code, 0, p)
  }

  predicate Closed(p: string) {
    AtTop(End(Code, 0, p).0, End(Code, 0, p).1)
  }

  predicate Parts(ps: seq<string>) {
    forall k :: 0 <= k < |ps| ==> Part(ps[k]) && (k < |ps| - 1 ==> Closed(ps[k]))
  }

  lemma TrimKeepsWhole(p: string)
    requires Whole(Code, 0, p)
    ensures Whole(Code, 0, Trim(p))
    ensures Closed(p) ==> Closed(Trim(p))
  {
    var lead, trail := TrimSplits(p);
    BlankEndsDoNotMatter(lead, Trim(p), trail);
  }

  lemma OutcomeOfPieces(ps: seq<string>)
    requires ps != []
    ensures Outcome(ps).Ok? <==> NoneBlank(ps)
    ensures Outcome(ps).Ok? ==> Outcome(ps).value == TrimAll(ps)
  {
  }

  lemma SplitYieldsParts(s: string)
    requires Split(s).Ok?
    ensures Parts(Split(s).value)
  {
    var ps := Pieces(Code, 0, s);
    OutcomeOfPieces(ps);
    forall k | 0 <= k < |ps| ensures Part(TrimAll(ps)[k]) && (k < |ps| - 1 ==> Closed(TrimAll(ps)[k])) {
      PiecesAreWhole(Code, 0, s, k);
      TrimKeepsWhole(ps[k]);
      var lead, trail := TrimSplits(ps[k]);
    }
  }

  lemma JoinCons(lead: string, parts: seq<string>)
    requires |parts| > 1
    ensures lead + Join(parts, ", ") == lead + parts[0] + ("," + (" " + Join(parts[1..], ", ")))
  {
    var rest := Join(parts[1..], ", ");
    ConcatAssoc(parts[0], ", ", rest);
    ConcatAssoc(",", " ", rest);
    assert "," + " " == ", ";
    ConcatAssoc(lead, parts[0], ", " + rest);
  }

  lemma TrimAllCons(p: string, ps: seq<string>)
    ensures TrimAll([p] + ps) == [Trim(p)] + TrimAll(ps)
  {
  }

  /** The pieces of parts joined by ", " are the parts, the later ones behind one blank. */
  lemma {:induction false} PiecesOfJoined(lead: string, parts: seq<string>)
    requires parts != [] && AllSpace(lead) && Parts(parts)
    ensures TrimAll(Pieces(Code, 0, lead + Join(parts, ", "))) == parts
    decreases |parts|
  {
    var p := parts[0];
    assert Part(p);
    WholeConcat(Code, 0, lead, p);
    BlankKeepsTop(Code, 0, lead);
    TrimPadded(lead, p);
    if |parts| == 1 {
      WholeIsOnePiece(Code, 0, lead + p);
    } else {
      assert Closed(p);
      var rest := " " + Join(parts[1..], ", ");
      PiecesOfJoined(" ", parts[1..]);
      WholeThenComma(Code, 0, lead + p, rest);
      JoinCons(lead, parts);
      TrimAllCons(lead + p, Pieces(Code, 0, rest));
    }
  }

  /** Splitting the parts joined by ", " gives the parts again. */
  lemma SplitAfterJoin(s: string)
    requires Split(s).Ok?
    ensures Split(Join(Split(s).value, ", ")) == Split(s)
  {
    var parts := Split(s).value;
    SplitYieldsParts(s);
    PiecesOfJoined("", parts);
    assert "" + Join(parts, ", ") == Join(parts, ", ");
    var ps := Pieces(Code, 0, Join(parts, ", "));
    forall k | 0 <= k < |ps| ensures Trim(ps[k]) != "" {
      assert TrimAll(ps)[k] == parts[k];
    }
    OutcomeOfPieces(ps);
  }

  /** Splitting any single part gives just that part. */
  lemma SplitOfPart(s: string, k: nat)
    requires Split(s).Ok? && k < |Split(s).value|
    ensures Split(Split(s).value[k]) == Ok([Split(s).value[k]])
  {
    var p := Split(s).value[k];
    SplitYieldsParts(s);
    assert Part(p);
    WholeIsOnePiece(Code, 0, p);
    TrimPadded("", p);
    assert "" + p == p;
    OutcomeOfPieces([p]);
    assert TrimAll([p]) == [p];
  }

  /** What the cuts are, without the scan: the only way to write a text as comma-joined pieces of which none holds
      a separator and all but the last end outside quotes and parentheses. */
  lemma {:induction false} PiecesAreUnique(ps: seq<string>)
    requires ps != []
    requires forall k :: 0 <= k < |ps| ==> Whole(Code, 0, ps[k]) && (k < |ps| - 1 ==> Closed(ps[k]))
    ensures Pieces(Code, 0, Join(ps, ",")) == ps
    decreases |ps|
  {
    if |ps| == 1 {
      WholeIsOnePiece(Code, 0, ps[0]);
    } else {
      var rest := Join(ps[1..], ",");
      PiecesAreUnique(ps[1..]);
      assert Closed(ps[0]);
      WholeThenComma(Code, 0, ps[0], rest);
      ConcatAssoc(ps[0], ",", rest);
    }
  }

  /** Together with uniqueness: the text is its untrimmed pieces joined by commas, each of them is whole and all but
      the last are closed, and a successful split trims exactly those. */
  lemma SplitCoversText(s: string, k: nat)
    requires k < |Pieces(Code, 0, s)|
    ensures Join(Pieces(Code, 0, s), ",") == s
    ensures Whole(Code, 0, Pieces(Code, 0, s)[k])
    ensures k < |Pieces(Code, 0, s)| - 1 ==> Closed(Pieces(Code, 0, s)[k])
    ensures Split(s).Ok? ==> Split(s).value == TrimAll(Pieces(Code, 0, s))
  {
    PiecesJoinToText(Code, 0, s);
    PiecesAreWhole(Code, 0, s, k);
  }
}
