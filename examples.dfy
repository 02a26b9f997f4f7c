/**
 * Worked examples, evaluated on the model. They sit in their own module, outside the
 * components they exercise.
 */
module Examples {
  import opened Options
  import opened Strings
  import opened DateConverter
  import opened NumericExtractor

  // The date example is evaluated one field at a time: each `Padded` call on a literal
  // unfolds the digit recursion, and doing all of them in one context is expensive.

  lemma ChristmasDay() ensures Padded(25, 2) == "25" { }
  lemma ChristmasMonth() ensures Padded(12, 2) == "12" { }
  lemma ChristmasHour() ensures Padded(10, 2) == "10" { }
  lemma ChristmasZero() ensures Padded(0, 2) == "00" { }
  lemma ChristmasYear() ensures Padded(2023, 4) == "2023" {
    assert Padded(202, 3) == "202";
  }

  lemma ChristmasFields()
    ensures Padded(25, 2) == "25" && Padded(12, 2) == "12" && Padded(2023, 4) == "2023"
    ensures Padded(10, 2) == "10" && Padded(0, 2) == "00"
  {
    ChristmasDay();
    ChristmasMonth();
    ChristmasYear();
    ChristmasHour();
    ChristmasZero();
  }

  lemma ChristmasNovadaxText()
    ensures NovadaxText(DateTime(2023, 12, 25, 10, 0, 0)) == "25/12/2023 10:00:00"
  {
    ChristmasFields();
    assert "25" + "/" + "12" + "/" + "2023" + " " + "10" + ":" + "00" + ":" + "00" == "25/12/2023 10:00:00";
  }

  lemma ChristmasKoinlyText()
    ensures KoinlyText(DateTime(2023, 12, 25, 10, 0, 0)) == "2023-12-25 10:00 UTC"
  {
    ChristmasFields();
    assert "2023" + "-" + "12" + "-" + "25" + " " + "10" + ":" + "00" + " UTC" == "2023-12-25 10:00 UTC";
  }

  /** A worked example: "25/12/2023 10:00:00" becomes "2023-12-25 10:00 UTC". */
  lemma ChristmasConverts()
    ensures ConvertDate("25/12/2023 10:00:00") == "2023-12-25 10:00 UTC"
  {
    ChristmasNovadaxText();
    ChristmasKoinlyText();
    ConvertValid(DateTime(2023, 12, 25, 10, 0, 0));
  }

  // The extractor's examples take their text as a parameter pinned by `requires`: with a
  // literal argument the verifier keeps unfolding the scanner on the literal.

  lemma SmallAmountRun(text: string)
    requires text == "R$ 0,0123"
    ensures FirstRun(text, 0) == Some((2, 9))
  {
    assert MatchAt(text, 0).None? by { assert text[0] == 'R' && SkipSpaces(text, 0) == 0; }
    assert MatchAt(text, 1).None? by { assert text[1] == '$' && SkipSpaces(text, 1) == 1; }
    assert MatchAt(text, 2) == Some(9) by {
      assert text[2] == ' ' && text[3] == '0' && SkipSpaces(text, 2) == 3;
      assert SkipRunChars(text, 4) == 9;
    }
  }

  /** A comma is the decimal point, and the run starts at the space before the digit:
      "R$ 0,0123" gives "0.0123". */
  lemma ExtractSmallAmount(text: string)
    requires text == "R$ 0,0123"
    ensures ExtractNumericValue(text) == "0.0123"
  {
    SmallAmountRun(text);
    assert text[2..9] == " 0" + [','] + "0123";
    ExtractLastSeparator(text, 2, 9, " 0", ',', "0123");
    assert DropSeparators(" 0") == "0";
    var r := "0" + "." + "0123";
    assert |r| == 6 && r[0] == '0' && r[1] == '.' && r[2..] == "0123";
    assert r == "0.0123";
  }

  lemma SignedAmountRun(text: string)
    requires text == "+ 1,234.56"
    ensures FirstRun(text, 0) == Some((0, 10))
  {
    assert text[0] == '+' && SkipSpaces(text, 1) == 2 && text[2] == '1';
    assert SkipRunChars(text, 3) == 10;
  }

  /** The sign stays, the space after it and the thousands comma go, the dot is the decimal
      point: "+ 1,234.56" gives "+1234.56". */
  lemma ExtractSignedAmount(text: string)
    requires text == "+ 1,234.56"
    ensures ExtractNumericValue(text) == "+1234.56"
  {
    SignedAmountRun(text);
    assert text[0..10] == "+ 1,234" + ['.'] + "56";
    ExtractLastSeparator(text, 0, 10, "+ 1,234", '.', "56");
    SignedAmountDigits();
  }

  lemma SignedAmountDigits()
    ensures DropSeparators("+ 1,234") + "." + "56" == "+1234.56"
  {
    assert DropSeparators("+ 1,234") == "+1234" by {
      assert DropSeparators(",234") == "234";
    }
    var r := "+1234" + "." + "56";
    assert |r| == 8 && r[..5] == "+1234" && r[5] == '.' && r[6..] == "56";
  }

  lemma GroupedAmountRun(text: string)
    requires text == "1.234.567"
    ensures FirstRun(text, 0) == Some((0, 9))
  {
    assert text[0] == '1' && SkipSpaces(text, 0) == 0;
    assert SkipRunChars(text, 1) == 9;
  }

  /** Only the last dot survives: "1.234.567" gives "1234.567". */
  lemma ExtractGroupedAmount(text: string)
    requires text == "1.234.567"
    ensures ExtractNumericValue(text) == "1234.567"
  {
    GroupedAmountRun(text);
    assert text[0..9] == "1.234" + ['.'] + "567";
    ExtractLastSeparator(text, 0, 9, "1.234", '.', "567");
    assert DropSeparators("1.234") == "1234";
    var r := "1234" + "." + "567";
    assert |r| == 8 && r[..4] == "1234" && r[4] == '.' && r[5..] == "567";
    assert r == "1234.567";
  }

  lemma ThousandRun(text: string)
    requires text == "1.234"
    ensures FirstRun(text, 0) == Some((0, 5))
  {
    assert text[0] == '1' && SkipSpaces(text, 0) == 0;
    assert SkipRunChars(text, 1) == 5;
  }

  /** A single dot is kept where it is, even when it was a thousands separator: "1.234" stays
      "1.234". */
  lemma ExtractThousand(text: string)
    requires text == "1.234"
    ensures ExtractNumericValue(text) == "1.234"
  {
    ThousandRun(text);
    assert text[0..5] == "1" + ['.'] + "234";
    ExtractLastSeparator(text, 0, 5, "1", '.', "234");
    var r := "1" + "." + "234";
    assert |r| == 5 && r[0] == '1' && r[1] == '.' && r[2..] == "234";
    assert r == "1.234";
  }

  /** No match starts inside "(≈R$". */
  lemma AnnotationPrefixHasNoRun(text: string)
    requires text == "(≈R$50,00) -89,10"
    ensures forall m :: 0 <= m < 4 ==> MatchAt(text, m).None?
  {
    assert MatchAt(text, 0).None? by { assert text[0] == '(' && SkipSpaces(text, 0) == 0; }
    assert MatchAt(text, 1).None? by { assert text[1] == '≈' && SkipSpaces(text, 1) == 1; }
    assert MatchAt(text, 2).None? by { assert text[2] == 'R' && SkipSpaces(text, 2) == 2; }
    assert MatchAt(text, 3).None? by { assert text[3] == '$' && SkipSpaces(text, 3) == 3; }
  }

  lemma AnnotatedAmountMatch(text: string)
    requires text == "(≈R$50,00) -89,10"
    ensures MatchAt(text, 4) == Some(9)
  {
    assert text[4] == '5' && SkipSpaces(text, 4) == 4;
    assert text[5] == '0' && text[6] == ',' && text[7] == '0' && text[8] == '0' && text[9] == ')';
    assert SkipRunChars(text, 5) == 9;
  }

  lemma AnnotatedAmountRun(text: string)
    requires text == "(≈R$50,00) -89,10"
    ensures FirstRun(text, 0) == Some((4, 9))
  {
    AnnotationPrefixHasNoRun(text);
    AnnotatedAmountMatch(text);
    FirstRunLeftmost(text, 0, 4);
  }

  /** The annotation is not removed, so the amount inside it is the first run:
      "(≈R$50,00) -89,10" gives "50.00". */
  lemma ExtractAnnotatedAmount(text: string)
    requires text == "(≈R$50,00) -89,10"
    ensures ExtractNumericValue(text) == "50.00"
  {
    AnnotatedAmountRun(text);
    assert text[4..9] == "50" + [','] + "00";
    ExtractLastSeparator(text, 4, 9, "50", ',', "00");
    assert DropSeparators("50") == "50";
    var r := "50" + "." + "00";
    assert |r| == 5 && r[..2] == "50" && r[2] == '.' && r[3..] == "00";
    assert r == "50.00";
  }

  /** Text without a digit gives the empty string. */
  lemma ExtractNoNumber(text: string)
    requires text == "no numbers here"
    ensures ExtractNumericValue(text) == ""
  {
    forall m | 0 <= m < |text| ensures !IsDigit(text[m]) {
    }
    ExtractEmptyIffNoDigit(text);
  }

  lemma ExtractEmptyText()
    ensures ExtractNumericValue("") == ""
  {
    ExtractEmptyIffNoDigit("");
  }
}
