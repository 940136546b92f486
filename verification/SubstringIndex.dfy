/** What the SUBSTRING_INDEX rewrite means: PostgreSQL's `split_part`, on reversed strings for negative counts,
    against MySQL's SUBSTRING_INDEX (MySQL 8.4 Reference Manual, section 14.8). */
module SubstringIndex {
  import opened Text

  predicate OccursAt(s: string, d: string, i: nat) {
    i + |d| <= |s| && s[i..i + |d|] == d
  }

  /** The first occurrence of `d` in `s`. */
  function Find(s: string, d: string): (r: Option<nat>)
    ensures r.Some? ==> r.value + |d| <= |s|
  {
    if |s| < |d| then None
    else if s[..|d|] == d then Some(0)
    else if s == "" then None
    else match Find(s[1..], d)
         case None => None
         case Some(i) => Some(i + 1)
  }

  /** The last occurrence of `d` in `s`. */
  function FindLast(s: string, d: string): (r: Option<nat>)
    ensures r.Some? ==> r.value + |d| <= |s|
  {
    if |s| < |d| then None
    else if s[|s| - |d|..] == d then Some(|s| - |d|)
    else if s == "" then None
    else FindLast(s[..|s| - 1], d)
  }

  lemma OccursInTail(s: string, d: string, j: nat)
    requires s != ""
    ensures OccursAt(s, d, j + 1) <==> OccursAt(s[1..], d, j)
  {
    if j + 1 + |d| <= |s| {
      SliceOfSuffix(s, 1, j, j + |d|);
    }
  }

  lemma OccursInFront(s: string, d: string, j: nat)
    requires s != "" && j + |d| < |s|
    ensures OccursAt(s, d, j) <==> OccursAt(s[..|s| - 1], d, j)
  {
    SliceOfPrefix(s, |s| - 1, j, j + |d|);
  }

  lemma {:induction false} FindIsFirst(s: string, d: string, j: nat)
    ensures Find(s, d).Some? ==> OccursAt(s, d, Find(s, d).value)
    ensures OccursAt(s, d, j) ==> Find(s, d).Some? && Find(s, d).value <= j
    decreases |s|
  {
    if |s| >= |d| && s[..|d|] != d && s != "" {
      hide OccursAt;
      assert !OccursAt(s, d, 0) by { NotInFront(s, d); }
      FindIsFirst(s[1..], d, if j > 0 then j - 1 else 0);
      if j > 0 {
        OccursInTail(s, d, j - 1);
      }
      if Find(s[1..], d).Some? {
        OccursInTail(s, d, Find(s[1..], d).value);
      }
    }
  }

  lemma NotInFront(s: string, d: string)
    requires |s| >= |d| && s[..|d|] != d
    ensures !OccursAt(s, d, 0)
  {
  }

  lemma {:induction false} FindLastIsLast(s: string, d: string, j: nat)
    ensures FindLast(s, d).Some? ==> OccursAt(s, d, FindLast(s, d).value)
    ensures OccursAt(s, d, j) ==> FindLast(s, d).Some? && FindLast(s, d).value >= j
    decreases |s|
  {
    if |s| >= |d| && s[|s| - |d|..] != d && s != "" {
      hide OccursAt;
      assert !OccursAt(s, d, |s| - |d|) && (OccursAt(s, d, j) ==> j + |d| <= |s|) by { NotAtEnd(s, d, j); }
      FindLastIsLast(s[..|s| - 1], d, j);
      if j + |d| < |s| {
        OccursInFront(s, d, j);
      }
      if FindLast(s[..|s| - 1], d).Some? {
        OccursInFront(s, d, FindLast(s[..|s| - 1], d).value);
      }
    }
  }

  lemma NotAtEnd(s: string, d: string, j: nat)
    requires |s| >= |d| && s[|s| - |d|..] != d
    ensures !OccursAt(s, d, |s| - |d|) && (OccursAt(s, d, j) ==> j + |d| <= |s|)
  {
  }

  // ---------------------------------------------------------------------------------------------------------------
  // The two functions

  /** `split_part(s, d, n)` for a positive field number (PostgreSQL documentation, section 9.4). */
  function SplitPart(s: string, d: string, n: nat): string
    requires n > 0
    decreases n
  {
    if d == "" then if n == 1 then s else ""
    else match Find(s, d)
         case None => if n == 1 then s else ""
         case Some(i) => if n == 1 then s[..i] else SplitPart(s[i + |d|..], d, n - 1)
  }

  /** SUBSTRING_INDEX with count `n`: everything before the n-th delimiter from the left, all if there are fewer. */
  function Before(s: string, d: string, n: nat): string
    requires n > 0
    decreases n
  {
    if d == "" then ""
    else match Find(s, d)
         case None => s
         case Some(i) => if n == 1 then s[..i] else s[..i + |d|] + Before(s[i + |d|..], d, n - 1)
  }

  /** SUBSTRING_INDEX with count `-n`: everything after the n-th delimiter from the right. */
  function Behind(s: string, d: string, n: nat): string
    requires n > 0
    decreases n
  {
    if d == "" then ""
    else match FindLast(s, d)
         case None => s
         case Some(i) => if n == 1 then s[i + |d|..] else Behind(s[..i], d, n - 1) + s[i..]
  }

  function Reverse(s: string): (r: string)
    ensures |r| == |s|
    ensures forall k :: 0 <= k < |s| ==> r[k] == s[|s| - 1 - k]
  {
    seq(|s|, k requires 0 <= k < |s| => s[|s| - 1 - k])
  }

  /** The value of SUBSTRING_INDEX(s, d, count), and of the expression it is rewritten to. */
  function MySqlValue(s: string, d: string, count: int): string
    requires count != 0
  {
    if count > 0 then Before(s, d, count) else Behind(s, d, -count)
  }

  function PostgresValue(s: string, d: string, count: int): string
    requires count != 0
  {
    if count > 0 then SplitPart(s, d, count) else Reverse(SplitPart(Reverse(s), Reverse(d), -count))
  }

  // ---------------------------------------------------------------------------------------------------------------
  // Positive counts

  lemma {:induction false} FieldIsShorter(s: string, d: string, n: nat)
    requires n > 0 && d != ""
    ensures |SplitPart(s, d, n)| <= |Before(s, d, n)|
    ensures n > 1 && s != "" ==> |SplitPart(s, d, n)| < |Before(s, d, n)|
    decreases n
  {
    hide Find;
    if n > 1 && Find(s, d).Some? {
      FieldIsShorter(s[Find(s, d).value + |d|..], d, n - 1);
    }
  }

  /** When a field is what MySQL returns. */
  predicate Faithful(s: string, d: string, n: nat) {
    s == "" || (if d == "" then n >= 2 else n == 1)
  }

  lemma {:induction false} EmptySource(d: string, n: nat)
    requires n > 0
    ensures SplitPart("", d, n) == "" && Before("", d, n) == ""
  {
  }

  lemma PositiveCount(s: string, d: string, n: nat)
    requires n > 0
    ensures SplitPart(s, d, n) == Before(s, d, n) <==> Faithful(s, d, n)
  {
    if s == "" {
      EmptySource(d, n);
    } else if d != "" && n > 1 {
      FieldIsShorter(s, d, n);
    }
  }

  // ---------------------------------------------------------------------------------------------------------------
  // Negative counts

  lemma ReverseTwice(s: string)
    ensures Reverse(Reverse(s)) == s
  {
  }

  lemma ReversePrefix(s: string, i: nat)
    requires i <= |s|
    ensures Reverse(s[..i]) == Reverse(s)[|s| - i..]
  {
  }

  lemma ReverseSuffix(s: string, i: nat)
    requires i <= |s|
    ensures Reverse(s[i..]) == Reverse(s)[..|s| - i]
  {
  }

  lemma ReverseConcat(a: string, b: string)
    ensures Reverse(a + b) == Reverse(b) + Reverse(a)
  {
  }

  lemma ReversedOccurrence(s: string, d: string, i: nat)
    requires OccursAt(Reverse(s), Reverse(d), i)
    ensures i + |d| <= |s| && OccursAt(s, d, |s| - |d| - i)
  {
    var j := |s| - |d| - i;
    forall k | 0 <= k < |d| ensures s[j..j + |d|][k] == d[k] {
      var m := |d| - 1 - k;
      assert Reverse(s)[i..i + |d|][m] == Reverse(d)[m];
    }
  }

  lemma {:induction false} FirstGivesLast(s: string, d: string, i: nat)
    requires Find(Reverse(s), Reverse(d)) == Some(i)
    ensures i + |d| <= |s| && FindLast(s, d).Some? && FindLast(s, d).value >= |s| - |d| - i
  {
    hide Find, FindLast, Reverse, OccursAt;
    FindIsFirst(Reverse(s), Reverse(d), 0);
    ReversedOccurrence(s, d, i);
    FindLastIsLast(s, d, |s| - |d| - i);
  }

  lemma {:induction false} LastGivesFirst(s: string, d: string, j: nat)
    requires FindLast(s, d) == Some(j)
    ensures j + |d| <= |s| && Find(Reverse(s), Reverse(d)).Some?
    ensures Find(Reverse(s), Reverse(d)).value <= |s| - |d| - j
  {
    hide Find, FindLast, Reverse, OccursAt;
    FindLastIsLast(s, d, 0);
    ReverseTwice(s);
    ReverseTwice(d);
    var rs, rd := Reverse(s), Reverse(d);
    assert OccursAt(Reverse(rs), Reverse(rd), j);
    ReversedOccurrence(rs, rd, j);
    FindIsFirst(rs, rd, |s| - |d| - j);
  }

  /** The first occurrence in the reversed string is the last one, self-overlapping delimiters included. */
  lemma {:induction false} FirstReversedIsLast(s: string, d: string)
    ensures match Find(Reverse(s), Reverse(d))
            case None => FindLast(s, d) == None
            case Some(i) => i + |d| <= |s| && FindLast(s, d) == Some(|s| - |d| - i)
  {
    hide Find, FindLast, Reverse;
    var first, last := Find(Reverse(s), Reverse(d)), FindLast(s, d);
    if first.Some? {
      FirstGivesLast(s, d, first.value);
    }
    if last.Some? {
      LastGivesFirst(s, d, last.value);
    }
  }

  /** One step of `Before` at the first occurrence. */
  lemma {:induction false} BeforeStep(s: string, d: string, n: nat, i: nat)
    requires n > 0 && d != "" && Find(s, d) == Some(i)
    ensures i + |d| <= |s|
    ensures Before(s, d, n) == if n == 1 then s[..i] else s[..i + |d|] + Before(s[i + |d|..], d, n - 1)
  {
    hide Find;
  }

  /** Counting from the right is counting from the left in the reversed string. */
  lemma {:induction false} BehindIsReversedBefore(s: string, d: string, n: nat)
    requires n > 0
    ensures Behind(s, d, n) == Reverse(Before(Reverse(s), Reverse(d), n))
    decreases n
  {
    hide Find, FindLast, Reverse;
    FirstReversedIsLast(s, d);
    ReverseTwice(s);
    if d == "" {
      ReverseOfNothing();
    } else if FindLast(s, d).Some? {
      hide Before;
      var j := FindLast(s, d).value;
      BeforeStep(Reverse(s), Reverse(d), n, |s| - |d| - j);
      ReversedCuts(s, |d|, j);
      if n > 1 {
        BehindIsReversedBefore(s[..j], d, n - 1);
        ReverseConcat(Reverse(s[j..]), Before(Reverse(s[..j]), Reverse(d), n - 1));
      }
    }
  }

  lemma ReverseOfNothing()
    ensures Reverse("") == ""
  {
  }

  /** Where the cuts around an occurrence lie in the reversed string. */
  lemma ReversedCuts(s: string, n: nat, j: nat)
    requires j + n <= |s|
    ensures Reverse(s)[..|s| - n - j] == Reverse(s[j + n..]) && Reverse(Reverse(s[j + n..])) == s[j + n..]
    ensures Reverse(s)[..|s| - j] == Reverse(s[j..]) && Reverse(Reverse(s[j..])) == s[j..]
    ensures Reverse(s)[|s| - j..] == Reverse(s[..j])
  {
    hide Reverse;
    ReverseSuffix(s, j + n);
    ReverseSuffix(s, j);
    ReversePrefix(s, j);
    ReverseTwice(s[j + n..]);
    ReverseTwice(s[j..]);
  }

  lemma ReverseInjective(a: string, b: string)
    ensures Reverse(a) == Reverse(b) <==> a == b
  {
    ReverseTwice(a);
    ReverseTwice(b);
  }

  /** The rewritten expression has MySQL's value exactly for an empty source, for the counts 1 and -1 with a
      delimiter, and for other counts without one. */
  lemma SubstringIndexValue(s: string, d: string, count: int)
    requires count != 0
    ensures PostgresValue(s, d, count) == MySqlValue(s, d, count) <==>
            s == "" || (if d == "" then count != 1 && count != -1 else count == 1 || count == -1)
  {
    hide SplitPart, Before, Behind, Reverse;
    if count > 0 {
      PositiveCount(s, d, count);
    } else {
      var n := -count;
      PositiveCount(Reverse(s), Reverse(d), n);
      BehindIsReversedBefore(s, d, n);
      ReverseInjective(SplitPart(Reverse(s), Reverse(d), n), Before(Reverse(s), Reverse(d), n));
    }
  }

  /** Failing inputs: a second field is only itself, and an empty delimiter finds nothing to cut. */
  lemma OtherCountsDiffer()
    ensures PostgresValue("a.b.c", ".", 2) != MySqlValue("a.b.c", ".", 2)
    ensures PostgresValue("a.b.c", ".", -2) != MySqlValue("a.b.c", ".", -2)
    ensures PostgresValue("a", "", 1) != MySqlValue("a", "", 1)
  {
    hide PostgresValue, MySqlValue;
    SubstringIndexValue("a.b.c", ".", 2);
    SubstringIndexValue("a.b.c", ".", -2);
    SubstringIndexValue("a", "", 1);
  }

  /** With count 1: all before the first occurrence of the delimiter, or everything. */
  lemma FirstField(s: string, d: string, i: nat)
    requires d != ""
    ensures OccursAt(s, d, i) && (forall j: nat :: j < i ==> !OccursAt(s, d, j)) ==> PostgresValue(s, d, 1) == s[..i]
    ensures (forall j: nat :: !OccursAt(s, d, j)) ==> PostgresValue(s, d, 1) == s
  {
    hide Find, OccursAt;
    FindIsFirst(s, d, i);
  }

  /** With count -1: all after the last occurrence of the delimiter, or everything. */
  lemma LastField(s: string, d: string, i: nat)
    requires d != ""
    ensures OccursAt(s, d, i) && (forall j: nat :: j > i ==> !OccursAt(s, d, j)) ==>
              PostgresValue(s, d, -1) == s[i + |d|..]
    ensures (forall j: nat :: !OccursAt(s, d, j)) ==> PostgresValue(s, d, -1) == s
  {
    hide Find, FindLast, OccursAt, Reverse, SplitPart, PostgresValue;
    SubstringIndexValue(s, d, -1);
    FindLastIsLast(s, d, i);
  }
}
