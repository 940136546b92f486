/** The rendered text of SUBSTRING_INDEX, and its value. */
module SubstringIndexText {
  import opened Text
  import opened Decimal
  import opened Literals
  import opened SqlFunctions
  import opened SubstringIndex
  import opened Expressions

  /** What SUBSTRING_INDEX is rendered as. */
  function Rendered(t: Expr, d: Expr, n: nat, negative: bool): Expr {
    if negative then Backwards(Field(Backwards(Cast(t)), Backwards(Cast(d)), n)) else Field(Cast(t), Cast(d), n)
  }

  function CountText(n: nat, negative: bool): string {
    (if negative then "-" else "") + Numeral(n)
  }

  lemma NumeralIsTrimmed(n: nat, negative: bool)
    ensures Trimmed(CountText(n, negative))
  {
    hide Numeral;
    var s := CountText(n, negative);
    assert IsDigit(Numeral(n)[0]) && IsDigit(Numeral(n)[|Numeral(n)| - 1]);
    assert s[|s| - 1] == Numeral(n)[|Numeral(n)| - 1];
    assert s[0] == if negative then '-' else Numeral(n)[0];
  }

  lemma PositiveText(x: string, y: string, n: string)
    ensures "split_part(CAST(" + (x + (" AS text), CAST(" + (y + (" AS text), " + (n + ")"))))) ==
            "split_part(" + (("CAST(" + (x + " AS text)")) + (", " +
               (("CAST(" + (y + " AS text)")) + (", " + (n + ")")))))
  {
    var end := n + ")";
    ConcatAssoc(y, " AS text)", ", " + end);
    ConcatAssoc("CAST(", y + " AS text)", ", " + end);
    assert " AS text), " + end == " AS text)" + (", " + end);
    var second := "CAST(" + (y + (" AS text), " + end));
    ConcatAssoc(x, " AS text)", ", " + second);
    ConcatAssoc("CAST(", x + " AS text)", ", " + second);
    assert " AS text), CAST(" + (y + (" AS text), " + end)) == " AS text)" + (", " + second);
    assert "split_part(CAST(" + (x + (" AS text)" + (", " + second))) ==
           "split_part(" + ("CAST(" + (x + (" AS text)" + (", " + second))));
  }

  lemma NegativeText(x: string, y: string, n: string)
    ensures "reverse(split_part(reverse(CAST(" +
            (x + (" AS text)), reverse(CAST(" + (y + (" AS text)), " + (n + "))"))))) ==
            "reverse(" + (("split_part(" + (("reverse(" + (("CAST(" + (x + " AS text)")) + ")")) + (", " +
               (("reverse(" + (("CAST(" + (y + " AS text)")) + ")")) + (", " + (n + ")")))))) + ")")
  {
    var end := n + "))";
    var rx := "reverse(" + (("CAST(" + (x + " AS text)")) + ")");
    var ry := "reverse(" + (("CAST(" + (y + " AS text)")) + ")");
    ConcatAssoc("split_part(", rx + (", " + (ry + (", " + (n + ")")))), ")");
    ConcatAssoc(rx, ", " + (ry + (", " + (n + ")"))), ")");
    ConcatAssoc(", ", ry + (", " + (n + ")")), ")");
    ConcatAssoc(ry, ", " + (n + ")"), ")");
    ConcatAssoc(", ", n + ")", ")");
    ConcatAssoc(n, ")", ")");
    assert ")" + ")" == "))";
    var second := "reverse(" + ("CAST(" + (y + (" AS text)" + (")" + (", " + end)))));
    Nested("reverse(", "CAST(", y, " AS text)", ")", ", " + end);
    Nested("reverse(", "CAST(", x, " AS text)", ")", ", " + second);
    Middle(end);
    Middle2(y + (" AS text)" + (")" + (", " + end))));
    Front(x + (" AS text)" + (")" + (", " + second))));
  }

  lemma Middle(rest: string)
    ensures " AS text)), " + rest == " AS text)" + (")" + (", " + rest))
  {
  }

  lemma Middle2(rest: string)
    ensures " AS text)), reverse(CAST(" + rest == " AS text)" + (")" + (", " + ("reverse(" + ("CAST(" + rest))))
  {
    assert ", reverse(CAST(" + rest == ", " + ("reverse(" + ("CAST(" + rest));
    assert " AS text))" + (", reverse(CAST(" + rest) == " AS text)" + (")" + (", reverse(CAST(" + rest));
    assert " AS text))" + ", reverse(CAST(" == " AS text)), reverse(CAST(";
    ConcatAssoc(" AS text))", ", reverse(CAST(", rest);
  }

  lemma Front(rest: string)
    ensures "reverse(split_part(reverse(CAST(" + rest == "reverse(" + ("split_part(" + ("reverse(" + ("CAST(" + rest)))
  {
    ConcatAssoc("reverse(", "CAST(", rest);
    ConcatAssoc("split_part(", "reverse(" + "CAST(", rest);
    ConcatAssoc("reverse(", "split_part(" + ("reverse(" + "CAST("), rest);
    assert "reverse(" + ("split_part(" + ("reverse(" + "CAST(")) == "reverse(split_part(reverse(CAST(";
  }

  lemma Nested(a: string, b: string, x: string, c: string, d: string, rest: string)
    ensures (a + ((b + (x + c)) + d)) + rest == a + (b + (x + (c + (d + rest))))
  {
    ConcatAssoc(a, (b + (x + c)) + d, rest);
    ConcatAssoc(b + (x + c), d, rest);
    ConcatAssoc(b, x + c, d + rest);
    ConcatAssoc(x, c, d + rest);
  }

  /** Rendering the texts of expressions gives the text of that expression. */
  lemma RenderedText(t: Expr, d: Expr, n: nat, negative: bool)
    requires Trimmed(Show(t)) && Trimmed(Show(d))
    ensures RenderSubstringIndex([Show(t), Show(d), CountText(n, negative)]) == Some(Show(Rendered(t, d, n, negative)))
  {
    hide Trim, Numeral;
    var (x, y, count) := (Show(t), Show(d), CountText(n, negative));
    TrimmedStays(x);
    TrimmedStays(y);
    NumeralIsTrimmed(n, negative);
    TrimmedStays(count);
    if negative {
      assert count[1..] == Numeral(n);
      NegativeText(x, y, Numeral(n));
      ShowNegative(t, d, n);
    } else {
      assert count == Numeral(n) && IsDigit(count[0]);
      PositiveText(x, y, Numeral(n));
      ShowPositive(t, d, n);
    }
  }

  lemma ShowPositive(t: Expr, d: Expr, n: nat)
    ensures Show(Field(Cast(t), Cast(d), n)) ==
            "split_part(" + (("CAST(" + (Show(t) + " AS text)")) + (", " + (("CAST(" + (Show(d) + " AS text)"))
            + (", " + (Numeral(n) + ")")))))
  {
  }

  lemma ShowNegative(t: Expr, d: Expr, n: nat)
    ensures Show(Rendered(t, d, n, true)) ==
            "reverse(" + (("split_part(" + (("reverse(" + (("CAST(" + (Show(t) + " AS text)")) + ")")) + (", " +
               (("reverse(" + (("CAST(" + (Show(d) + " AS text)")) + ")")) + (", " + (Numeral(n) + ")")))))) + ")")
  {
    var (x, y) := (Backwards(Cast(t)), Backwards(Cast(d)));
    assert Show(x) == "reverse(" + (("CAST(" + (Show(t) + " AS text)")) + ")");
    assert Show(y) == "reverse(" + (("CAST(" + (Show(d) + " AS text)")) + ")");
    assert Show(Field(x, y, n)) == "split_part(" + (Show(x) + (", " + (Show(y) + (", " + (Numeral(n) + ")")))));
  }

  lemma ConstantsHaveNoColumns(t: Expr, d: Expr, n: nat, negative: bool)
    requires ColumnsAreNames(t) && ColumnsAreNames(d)
    ensures ColumnsAreNames(Rendered(t, d, n, negative))
  {
    var (x, y) := (Backwards(Cast(t)), Backwards(Cast(d)));
    assert ColumnsAreNames(Cast(t)) && ColumnsAreNames(Cast(d));
    assert ColumnsAreNames(x) && ColumnsAreNames(y) && ColumnsAreNames(Field(x, y, n));
  }

  function Count(n: nat, negative: bool): int {
    if negative then -(n as int) else n
  }

  /** The value of what strings are rendered as. */
  lemma RenderedValue(row: Row, t: Expr, d: Expr, n: nat, negative: bool, s: string, x: string)
    requires ValueIn(row, t) == Some(Chars(s)) && ValueIn(row, d) == Some(Chars(x))
    ensures ValueIn(row, Rendered(t, d, n, negative)) ==
            if IsField(n) then Some(Chars(PostgresValue(s, x, Count(n, negative)))) else None
  {
    hide Reverse, SplitPart;
    assert ValueIn(row, Cast(t)) == Some(Chars(s)) && ValueIn(row, Cast(d)) == Some(Chars(x));
    if negative {
      assert ValueIn(row, Backwards(Cast(t))) == Some(Chars(Reverse(s)));
      assert ValueIn(row, Backwards(Cast(d))) == Some(Chars(Reverse(x)));
      var field := Field(Backwards(Cast(t)), Backwards(Cast(d)), n);
      assert ValueIn(row, field) == FieldValue(Chars(Reverse(s)), Chars(Reverse(x)), n);
    } else {
      assert ValueIn(row, Field(Cast(t), Cast(d), n)) == FieldValue(Chars(s), Chars(x), n);
    }
  }

  /** The rendering of a constant source, delimiter and count evaluates to the value that is compared with MySQL's; with
      a count of 0 or one beyond 32 bits it is an error. */
  lemma RenderingEvaluates(row: Row, s: string, d: string, n: nat, negative: bool)
    ensures var text := RenderSubstringIndex([Encode(s), Encode(d), CountText(n, negative)]);
            && text.Some?
            && Evaluate(row, text.value) ==
               if IsField(n) then Some((Chars(PostgresValue(s, d, Count(n, negative))), "")) else None
  {
    hide Evaluate, Encode, Numeral, Reverse, SplitPart, RenderSubstringIndex, PostgresValue;
    var (t, x) := (Constant(Chars(s)), Constant(Chars(d)));
    EncodedIsTrimmed(s);
    EncodedIsTrimmed(d);
    RenderedText(t, x, n, negative);
    var e := Rendered(t, x, n, negative);
    ConstantsHaveNoColumns(t, x, n, negative);
    RenderedValue(row, t, x, n, negative, s, d);
    ShowEvaluates(row, e, "");
    assert Show(e) + "" == Show(e);
  }

  /** So for any count but 0 the text that is rendered has MySQL's value exactly if the count is not beyond 32 bits, and
      the source is empty, or the count is 1 or -1 with a delimiter, or it is another count without one. */
  lemma RenderingIsRight(row: Row, s: string, d: string, n: nat, negative: bool)
    requires n > 0
    ensures var text := RenderSubstringIndex([Encode(s), Encode(d), CountText(n, negative)]);
            && text.Some?
            && (Evaluate(row, text.value) == Some((Chars(MySqlValue(s, d, Count(n, negative))), "")) <==>
                IsField(n) && (s == "" || (d == "") == (n != 1)))
  {
    hide Evaluate, Encode, Numeral, RenderSubstringIndex, PostgresValue, MySqlValue;
    RenderingEvaluates(row, s, d, n, negative);
    SubstringIndexValue(s, d, Count(n, negative));
  }

  lemma EncodedIsTrimmed(v: string)
    ensures Trimmed(Encode(v))
  {
  }
}
