/** Symbols that no scanner treats specially, and the sequence of them that stands outside quotes and comments.

    To speak of the order of placeholders although all of them look alike, statements are about any class of such
    symbols. */
module NeutralMarks {
  import opened Text
  import opened Lexer
  import opened Placeholders

  predicate Neutral(c: char) {
    !IsIdentifierChar(c) && !IsQuote(c) && !IsSpace(c) && c !in {'(', ')', ',', '-', '/', '*', '#'}
  }

  ghost predicate NeutralClass(m: char -> bool) {
    forall c :: m(c) ==> Neutral(c)
  }

  /** The symbols of a class that stand in code, in order. */
  function Marks(m: char -> bool, st: State, s: string): string
    decreases s
  {
    if s == "" then ""
    else (if m(s[0]) && st.InCode() then [s[0]] else "") + Marks(m, Next(st, s[0]), s[1..])
  }

  /** No comment is entered and no backslash stands inside backticks. */
  predicate Safe(st: State, s: string)
    decreases s
  {
    s != "" ==>
      && !Next(st, s[0]).InComment()
      && !(st == Quoted('`') && s[0] == '\\')
      && Safe(Next(st, s[0]), s[1..])
  }

  function Reach(st: State, s: string): State {
    After(PrepareDialect, st, s)
  }

  /** Comment-free text with closed quotes and no backslash inside backticks. */
  predicate Clean(s: string) {
    Safe(Code, s) && Reach(Code, s).InCode()
  }

  lemma {:induction false} ReadConcat(m: char -> bool, st: State, a: string, b: string)
    ensures Reach(st, a + b) == Reach(Reach(st, a), b)
    ensures Marks(m, st, a + b) == Marks(m, st, a) + Marks(m, Reach(st, a), b)
    ensures Safe(st, a + b) <==> Safe(st, a) && Safe(Reach(st, a), b)
    decreases a
  {
    if a == "" {
      assert a + b == b;
    } else {
      assert (a + b)[1..] == a[1..] + b;
      ReadConcat(m, Next(st, a[0]), a[1..], b);
      ConcatAssoc(if m(a[0]) && st.InCode() then [a[0]] else "",
                  Marks(m, Next(st, a[0]), a[1..]), Marks(m, Reach(st, a), b));
    }
  }

  // ---------------------------------------------------------------------------------------------------------------
  // Text that always reads the same

  predicate Inert(c: char) {
    IsIdentifierChar(c) || IsSpace(c) || c in {'(', ')', ','}
  }

  predicate AllInert(s: string) {
    forall k :: 0 <= k < |s| ==> Inert(s[k])
  }

  lemma {:induction false} InertReads(m: char -> bool, st: State, s: string)
    requires NeutralClass(m) && st.InCode() && s != "" && AllInert(s)
    ensures Reach(st, s) == Code && Marks(m, st, s) == "" && Safe(st, s)
    decreases s
  {
    assert Inert(s[0]) && (m(s[0]) ==> Neutral(s[0]));
    if |s| > 1 {
      InertReads(m, Code, s[1..]);
    } else {
      assert s[1..] == "" && After(PrepareDialect, Code, s[1..]) == Code;
    }
  }

  /** A text that starts with an inert character, ends in code, is safe, and holds exactly the given marks. */
  ghost predicate Solid(m: char -> bool, s: string, marks: string) {
    s != "" && Inert(s[0]) && Safe(Code, s) && Reach(Code, s) == Code && Marks(m, Code, s) == marks
  }

  lemma SolidFromAnyCode(m: char -> bool, st: State, s: string, marks: string)
    requires NeutralClass(m) && Solid(m, s, marks) && st.InCode()
    ensures Safe(st, s) && Reach(st, s) == Code && Marks(m, st, s) == marks
  {
    assert m(s[0]) ==> Neutral(s[0]);
    assert Next(st, s[0]) == Next(Code, s[0]);
  }

  lemma SolidInert(m: char -> bool, s: string)
    requires NeutralClass(m) && s != "" && AllInert(s)
    ensures Solid(m, s, "")
  {
    InertReads(m, Code, s);
  }

  /** One step of a template: literal text, an argument, the rest. */
  lemma SolidSegment(m: char -> bool, text: string, arg: string, rest: string, marks: string)
    requires NeutralClass(m) && text != "" && AllInert(text) && Clean(arg) && Solid(m, rest, marks)
    ensures Solid(m, text + (arg + rest), Marks(m, Code, arg) + marks)
  {
    hide Marks, Safe, After;
    InertReads(m, Code, text);
    ReadConcat(m, Code, text, arg + rest);
    ReadConcat(m, Code, arg, rest);
    SolidFromAnyCode(m, Reach(Code, arg), rest, marks);
    assert "" + (Marks(m, Code, arg) + marks) == Marks(m, Code, arg) + marks;
    assert text[0] == (text + (arg + rest))[0];
  }
}
