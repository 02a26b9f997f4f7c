/**
 * The date converter (`convert_date`): a NovaDAX time stamp `DD/MM/YYYY HH:MM:SS` becomes
 * a Koinly time stamp `YYYY-MM-DD HH:MM UTC`, seconds dropped; anything that does not parse
 * as a real calendar date and time becomes the sentinel "Invalid Date".
 */
module DateConverter {
  import opened Strings
  import opened Options

  const InvalidDate: string := "Invalid Date"

  /** The fields of a parsed time stamp. */
  datatype DateTime = DateTime(year: nat, month: nat, day: nat, hour: nat, minute: nat, second: nat)

  /** Gregorian leap year. */
  predicate IsLeapYear(year: int) {
    year % 4 == 0 && (year % 100 != 0 || year % 400 == 0)
  }

  function DaysInMonth(year: int, month: int): (days: int)
    requires 1 <= month <= 12
    ensures 28 <= days <= 31
    ensures days == 29 <==> month == 2 && IsLeapYear(year)
  {
    if month == 2 then (if IsLeapYear(year) then 29 else 28)
    else if month == 4 || month == 6 || month == 9 || month == 11 then 30
    else 31
  }

  /** The values a date-time object accepts: years 1 to 9999, a day that exists in its
      month, and a time of day with seconds below 60. */
  predicate IsValid(t: DateTime)
    ensures IsValid(t) ==> FitsWidths(t)
  {
    && 1 <= t.year <= 9999
    && 1 <= t.month <= 12
    && 1 <= t.day <= DaysInMonth(t.year, t.month)
    && t.hour < 24 && t.minute < 60 && t.second < 60
  }

  /** Every field fits the number of digits the textual form gives it. */
  predicate FitsWidths(t: DateTime) {
    t.year < 10000 && t.month < 100 && t.day < 100 && t.hour < 100 && t.minute < 100 && t.second < 100
  }

  predicate AllDigits(s: string) {
    forall i :: 0 <= i < |s| ==> IsDigit(s[i])
  }

  function DigitChar(n: nat): (c: char)
    requires n < 10
    ensures IsDigit(c)
  {
    ('0' as int + n) as char
  }

  function Pow10(n: nat): (p: nat)
    ensures p >= 1
  {
    if n == 0 then 1 else 10 * Pow10(n - 1)
  }

  /** The value of a run of decimal digits. */
  function DecimalValue(s: string): (v: nat)
    requires AllDigits(s)
  {
    if s == [] then 0 else DecimalValue(s[..|s| - 1]) * 10 + (s[|s| - 1] as int - '0' as int)
  }

  /** `n` written with exactly `width` digits, zero-padded on the left. */
  function Padded(n: nat, width: nat): (r: string)
    ensures |r| == width && AllDigits(r)
  {
    if width == 0 then [] else Padded(n / 10, width - 1) + [DigitChar(n % 10)]
  }

  lemma {:induction false} DecimalValueBound(s: string)
    requires AllDigits(s)
    ensures DecimalValue(s) < Pow10(|s|)
    decreases |s|
  {
    if s != [] {
      DecimalValueBound(s[..|s| - 1]);
    }
  }

  /** Reading back a padded number gives the number, when it fits the width. */
  lemma {:induction false} DecimalValueOfPadded(n: nat, width: nat)
    requires n < Pow10(width)
    ensures DecimalValue(Padded(n, width)) == n
    decreases width
  {
    if width > 0 {
      DecimalValueOfPadded(n / 10, width - 1);
      var r := Padded(n, width);
      assert r[..|r| - 1] == Padded(n / 10, width - 1);
    }
  }

  /** Padding the value of a digit run to the run's length gives the run back. */
  lemma {:induction false} PaddedOfDecimalValue(s: string)
    requires AllDigits(s)
    ensures Padded(DecimalValue(s), |s|) == s
    decreases |s|
  {
    if s != [] {
      var init := s[..|s| - 1];
      PaddedOfDecimalValue(init);
      var v := DecimalValue(s);
      var d := s[|s| - 1] as int - '0' as int;
      assert v / 10 == DecimalValue(init) && v % 10 == d;
      assert s == init + [s[|s| - 1]];
    }
  }

  /** The NovaDAX form `DD/MM/YYYY HH:MM:SS`. */
  function NovadaxText(t: DateTime): (r: string)
    ensures |r| == 19
  {
    Padded(t.day, 2) + "/" + Padded(t.month, 2) + "/" + Padded(t.year, 4) + " "
    + Padded(t.hour, 2) + ":" + Padded(t.minute, 2) + ":" + Padded(t.second, 2)
  }

  /** The Koinly form `YYYY-MM-DD HH:MM UTC`; the seconds are not written. */
  function KoinlyText(t: DateTime): (r: string)
    ensures |r| == 20
  {
    Padded(t.year, 4) + "-" + Padded(t.month, 2) + "-" + Padded(t.day, 2) + " "
    + Padded(t.hour, 2) + ":" + Padded(t.minute, 2) + " UTC"
  }

  /** The text has the fixed-width layout `DD/MM/YYYY HH:MM:SS`, digits in every field. */
  predicate HasNovadaxLayout(s: string) {
    && |s| == 19
    && s[2] == '/' && s[5] == '/' && s[10] == ' ' && s[13] == ':' && s[16] == ':'
    && AllDigits(s[0..2]) && AllDigits(s[3..5]) && AllDigits(s[6..10])
    && AllDigits(s[11..13]) && AllDigits(s[14..16]) && AllDigits(s[17..19])
  }

  /** The fields the layout's digit groups spell. */
  function Fields(s: string): (t: DateTime)
    requires HasNovadaxLayout(s)
    ensures FitsWidths(t)
  {
    DecimalValueBound(s[0..2]);
    DecimalValueBound(s[3..5]);
    DecimalValueBound(s[6..10]);
    DecimalValueBound(s[11..13]);
    DecimalValueBound(s[14..16]);
    DecimalValueBound(s[17..19]);
    assert Pow10(2) == 100 && Pow10(4) == 10000;
    DateTime(DecimalValue(s[6..10]), DecimalValue(s[3..5]), DecimalValue(s[0..2]),
             DecimalValue(s[11..13]), DecimalValue(s[14..16]), DecimalValue(s[17..19]))
  }

  /** Parsing with the format `%d/%m/%Y %H:%M:%S`, restricted to its fixed-width form. A
      parsed time stamp is valid and is exactly what the text spells. */
  function ParseNovadax(s: string): (o: Option<DateTime>)
    ensures o.Some? ==> IsValid(o.value) && NovadaxText(o.value) == s
  {
    if HasNovadaxLayout(s) && IsValid(Fields(s)) then
      FieldsSpellText(s);
      Some(Fields(s))
    else None
  }

  /** The text of the digit groups is the padded text of their values. */
  lemma FieldsSpellText(s: string)
    requires HasNovadaxLayout(s)
    ensures NovadaxText(Fields(s)) == s
  {
    PaddedOfDecimalValue(s[0..2]);
    PaddedOfDecimalValue(s[3..5]);
    PaddedOfDecimalValue(s[6..10]);
    PaddedOfDecimalValue(s[11..13]);
    PaddedOfDecimalValue(s[14..16]);
    PaddedOfDecimalValue(s[17..19]);
    assert s == s[0..2] + "/" + s[3..5] + "/" + s[6..10] + " " + s[11..13] + ":" + s[14..16] + ":" + s[17..19];
  }

  /** Where each field sits in the NovaDAX text. */
  lemma NovadaxTextSlices(t: DateTime)
    ensures var s := NovadaxText(t);
      && s[0..2] == Padded(t.day, 2) && s[3..5] == Padded(t.month, 2)
      && s[6..10] == Padded(t.year, 4) && s[11..13] == Padded(t.hour, 2)
      && s[14..16] == Padded(t.minute, 2) && s[17..19] == Padded(t.second, 2)
      && s[2] == '/' && s[5] == '/' && s[10] == ' ' && s[13] == ':' && s[16] == ':'
  {
  }

  /** Where each field sits in the Koinly text. */
  lemma KoinlyTextSlices(t: DateTime)
    ensures var r := KoinlyText(t);
      && r[0..4] == Padded(t.year, 4) && r[5..7] == Padded(t.month, 2)
      && r[8..10] == Padded(t.day, 2) && r[11..13] == Padded(t.hour, 2)
      && r[14..16] == Padded(t.minute, 2)
      && r[4] == '-' && r[7] == '-' && r[10] == ' ' && r[13] == ':' && r[16..] == " UTC"
  {
  }

  /** Printing then parsing: every time stamp whose fields fit their widths parses back to
      itself when it is valid, and is rejected when it is not. */
  lemma ParseNovadaxText(t: DateTime)
    requires FitsWidths(t)
    ensures ParseNovadax(NovadaxText(t)) == if IsValid(t) then Some(t) else None
  {
    var s := NovadaxText(t);
    NovadaxTextSlices(t);
    assert Pow10(2) == 100 && Pow10(4) == 10000;
    DecimalValueOfPadded(t.day, 2);
    DecimalValueOfPadded(t.month, 2);
    DecimalValueOfPadded(t.year, 4);
    DecimalValueOfPadded(t.hour, 2);
    DecimalValueOfPadded(t.minute, 2);
    DecimalValueOfPadded(t.second, 2);
    assert HasNovadaxLayout(s);
    assert Fields(s) == t;
  }

  /** `convert_date`. The sentinel comes back exactly when the text does not parse, in
      particular for wrong delimiters and trailing text; otherwise the result rearranges the
      text's own digit groups as `YYYY-MM-DD HH:MM UTC`. */
  function ConvertDate(s: string): (r: string)
    ensures r == InvalidDate <==> ParseNovadax(s).None?
    ensures !HasNovadaxLayout(s) ==> r == InvalidDate
    ensures ParseNovadax(s).Some? ==>
      && |r| == 20 && |s| == 19
      && r[0..4] == s[6..10] && r[4] == '-' && r[5..7] == s[3..5] && r[7] == '-'
      && r[8..10] == s[0..2] && r[10] == ' ' && r[11..13] == s[11..13] && r[13] == ':'
      && r[14..16] == s[14..16] && r[16..] == " UTC"
  {
    match ParseNovadax(s)
    case None => InvalidDate
    case Some(t) =>
      NovadaxTextSlices(t);
      KoinlyTextSlices(t);
      KoinlyText(t)
  }

  /** A valid NovaDAX time stamp converts to the Koinly form of the same instant. */
  lemma ConvertValid(t: DateTime)
    requires IsValid(t)
    ensures ConvertDate(NovadaxText(t)) == KoinlyText(t)
  {
    ParseNovadaxText(t);
  }

  /** Seconds are truncated: two time stamps that differ only in their seconds convert alike. */
  lemma ConvertDropsSeconds(t: DateTime, second: nat)
    requires IsValid(t) && second < 60
    ensures ConvertDate(NovadaxText(t)) == ConvertDate(NovadaxText(t.(second := second)))
  {
    ConvertValid(t);
    ConvertValid(t.(second := second));
  }

  /** Out-of-range fields and days a month does not have give the sentinel. */
  lemma ConvertInvalid(t: DateTime)
    requires FitsWidths(t) && !IsValid(t)
    ensures ConvertDate(NovadaxText(t)) == InvalidDate
  {
    ParseNovadaxText(t);
  }

  /** The sentinel itself does not parse, so converting it again is harmless. */
  lemma ConvertSentinel()
    ensures ConvertDate(InvalidDate) == InvalidDate
  {
  }

  /** 29 February exists exactly in leap years. */
  lemma LeapDay(year: nat)
    requires 1 <= year <= 9999
    ensures ConvertDate(NovadaxText(DateTime(year, 2, 29, 0, 0, 0))) == InvalidDate <==> !IsLeapYear(year)
  {
    ParseNovadaxText(DateTime(year, 2, 29, 0, 0, 0));
  }

  /** Month 13, hour 24, minute 60, second 60 and 31 April are all rejected. */
  lemma RejectedExamples()
    ensures ConvertDate(NovadaxText(DateTime(2023, 13, 1, 0, 0, 0))) == InvalidDate
    ensures ConvertDate(NovadaxText(DateTime(2023, 12, 25, 24, 0, 0))) == InvalidDate
    ensures ConvertDate(NovadaxText(DateTime(2023, 12, 25, 10, 60, 0))) == InvalidDate
    ensures ConvertDate(NovadaxText(DateTime(2023, 12, 25, 10, 0, 60))) == InvalidDate
    ensures ConvertDate(NovadaxText(DateTime(2023, 4, 31, 10, 0, 0))) == InvalidDate
    ensures ConvertDate(NovadaxText(DateTime(2023, 2, 29, 10, 0, 0))) == InvalidDate
  {
    ConvertInvalid(DateTime(2023, 13, 1, 0, 0, 0));
    ConvertInvalid(DateTime(2023, 12, 25, 24, 0, 0));
    ConvertInvalid(DateTime(2023, 12, 25, 10, 60, 0));
    ConvertInvalid(DateTime(2023, 12, 25, 10, 0, 60));
    ConvertInvalid(DateTime(2023, 4, 31, 10, 0, 0));
    ConvertInvalid(DateTime(2023, 2, 29, 10, 0, 0));
  }
}
