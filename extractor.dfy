/**
 * The numeric extractor (`extract_numeric_value`): the amount column is free text such as
 * "R$ 1.234,56" or "+ 0,0123 BTC". The extractor keeps the first numeric run of the text as a
 * string: whitespace removed, commas turned into dots, and all dots but the last dropped, so
 * that the last separator is the decimal point. No rounding, no numeric conversion.
 */
module NumericExtractor {
  import opened Strings
  import opened Options

  predicate IsSign(c: char) {
    c == '+' || c == '-'
  }

  /** A character of the class `[\d.,]` that continues a numeric run. */
  predicate IsRunChar(c: char) {
    IsDigit(c) || c == '.' || c == ','
  }

  predicate IsSeparator(c: char) {
    c == '.' || c == ','
  }

  predicate AllSpaces(s: string, from: nat, to: nat)
    requires from <= to <= |s|
  {
    forall m :: from <= m < to ==> IsSpace(s[m])
  }

  predicate AllRunChars(s: string, from: nat, to: nat)
    requires from <= to <= |s|
  {
    forall m :: from <= m < to ==> IsRunChar(s[m])
  }

  // ---------------------------------------------------------------------------------------
  // Step 1: removing "(≈R$...)" annotations with the pattern as it is written.
  //
  // In the raw pattern the characters `\\$` are an escaped backslash followed by the anchor
  // `$`, not an escaped dollar sign. A match would need a backslash, then the end of the text
  // (or a final newline), and then still a `)`: no text has that, so the step changes nothing.
  // ---------------------------------------------------------------------------------------

  /** The anchor `$` without multi-line mode: the end of the text, or just before a newline
      that ends the text. */
  predicate AtEnd(s: string, k: nat) {
    k == |s| || (k + 1 == |s| && s[k] == '\n')
  }

  /** The first `)` at or after `k`: where `[^)]*\)` starting at `k` ends its match. */
  function FindClose(s: string, k: nat): (o: Option<nat>)
    ensures o.Some? ==> k <= o.value < |s| && s[o.value] == ')'
    ensures o.None? ==> forall m :: k <= m < |s| ==> s[m] != ')'
    decreases |s| - k
  {
    if k >= |s| then None
    else if s[k] == ')' then Some(k)
    else FindClose(s, k + 1)
  }

  /** Where a match of `\(≈R\\$[^)]*\)` starting at `i` ends, if one starts there. */
  function AnnotationAt(s: string, i: nat): (o: Option<nat>)
    ensures o.Some? ==> i < o.value <= |s|
  {
    if i + 4 <= |s| && s[i] == '(' && s[i + 1] == '≈' && s[i + 2] == 'R' && s[i + 3] == '\\'
       && AtEnd(s, i + 4)
    then
      match FindClose(s, i + 4)
      case Some(j) => Some(j + 1)
      case None => None
    else None
  }

  /** Substitution of every annotation by the empty string, scanning from `i`. */
  function StripAnnotations(s: string, i: nat): (r: string)
    requires i <= |s|
    ensures |r| <= |s| - i
    decreases |s| - i
  {
    if i == |s| then []
    else
      match AnnotationAt(s, i)
      case Some(e) => StripAnnotations(s, e)
      case None => [s[i]] + StripAnnotations(s, i + 1)
  }

  /** The pattern as written matches nowhere: after the anchor only a final newline can
      follow, and it is not the `)` the pattern still needs. */
  lemma AnnotationNeverMatches(s: string, i: nat)
    ensures AnnotationAt(s, i) == None
  {
    if i + 4 < |s| && AtEnd(s, i + 4) {
      assert FindClose(s, i + 5) == None;
    }
  }

  /** So the removal step leaves every text as it is. */
  lemma {:induction false} StripAnnotationsIsIdentity(s: string, i: nat)
    requires i <= |s|
    ensures StripAnnotations(s, i) == s[i..]
    decreases |s| - i
  {
    if i < |s| {
      AnnotationNeverMatches(s, i);
      StripAnnotationsIsIdentity(s, i + 1);
      assert s[i..] == [s[i]] + s[i + 1..];
    }
  }

  // ---------------------------------------------------------------------------------------
  // Step 2: the leftmost match of `[+-]?\s*\d[\d.,]*`.
  // ---------------------------------------------------------------------------------------

  /** The greedy `\s*` from `k`: the first index at or after `k` that is not whitespace. */
  function SkipSpaces(s: string, k: nat): (j: nat)
    requires k <= |s|
    ensures k <= j <= |s| && AllSpaces(s, k, j)
    ensures j == |s| || !IsSpace(s[j])
    decreases |s| - k
  {
    if k < |s| && IsSpace(s[k]) then SkipSpaces(s, k + 1) else k
  }

  /** The greedy `[\d.,]*` from `k`. */
  function SkipRunChars(s: string, k: nat): (j: nat)
    requires k <= |s|
    ensures k <= j <= |s| && AllRunChars(s, k, j)
    ensures j == |s| || !IsRunChar(s[j])
    decreases |s| - k
  {
    if k < |s| && IsRunChar(s[k]) then SkipRunChars(s, k + 1) else k
  }

  /** `s[i..e]` is a match of the pattern: an optional sign, whitespace, a digit, then the
      longest run of digits, dots and commas. */
  ghost predicate IsRun(s: string, i: nat, e: nat) {
    exists j: nat, k: nat {:trigger AllSpaces(s, j, k)} ::
      && i <= j <= k < e <= |s|
      && (j == i || (j == i + 1 && IsSign(s[i])))
      && AllSpaces(s, j, k) && IsDigit(s[k]) && AllRunChars(s, k + 1, e)
      && (e == |s| || !IsRunChar(s[e]))
  }

  /** Where the pattern tried at `i` needs its first digit: past `[+-]?` and the greedy `\s*`.
      Only a sign and whitespace come before it. */
  function LeadEnd(s: string, i: nat): (j: nat)
    requires i < |s|
    ensures i <= j <= |s|
    ensures forall m :: i <= m < j ==> (m == i && IsSign(s[m])) || IsSpace(s[m])
    ensures j == |s| || !IsSpace(s[j])
  {
    if IsSign(s[i]) then SkipSpaces(s, i + 1) else SkipSpaces(s, i)
  }

  /** Where the match of the pattern that starts exactly at `i` ends. A sign counts only when
      whitespace and then a digit follow it. */
  function MatchAt(s: string, i: nat): (o: Option<nat>)
    requires i < |s|
    ensures o.Some? ==> LeadEnd(s, i) < o.value <= |s| && IsDigit(s[LeadEnd(s, i)])
    ensures o.Some? ==> AllRunChars(s, LeadEnd(s, i), o.value)
    ensures o.Some? ==> o.value == |s| || !IsRunChar(s[o.value])
  {
    var j := LeadEnd(s, i);
    if j < |s| && IsDigit(s[j]) then Some(SkipRunChars(s, j + 1)) else None
  }

  /** The greedy whitespace skip stops exactly at a non-whitespace character that ends a run of
      whitespace. */
  lemma SkipSpacesAt(s: string, j: nat, k: nat)
    requires j <= k < |s| && AllSpaces(s, j, k) && !IsSpace(s[k])
    ensures SkipSpaces(s, j) == k
  {
  }

  lemma SkipRunCharsAt(s: string, k: nat, e: nat)
    requires k <= e <= |s| && AllRunChars(s, k, e) && (e == |s| || !IsRunChar(s[e]))
    ensures SkipRunChars(s, k) == e
  {
  }

  /** The scanner at `i` agrees with the pattern's definition: it finds a match ending at `e`
      exactly when `s[i..e]` is one. */
  lemma MatchAtIff(s: string, i: nat, e: nat)
    requires i < |s|
    ensures MatchAt(s, i) == Some(e) <==> IsRun(s, i, e)
  {
    var j := LeadEnd(s, i);
    if MatchAt(s, i) == Some(e) {
      assert AllSpaces(s, j, j);
      assert IsRun(s, i, e) by {
        var k := j;
        var j0 := if IsSign(s[i]) then i + 1 else i;
        assert AllSpaces(s, j0, k);
      }
    }
    if IsRun(s, i, e) {
      var j1: nat, k: nat :| && i <= j1 <= k < e <= |s|
                           && (j1 == i || (j1 == i + 1 && IsSign(s[i])))
                           && AllSpaces(s, j1, k) && IsDigit(s[k]) && AllRunChars(s, k + 1, e)
                           && (e == |s| || !IsRunChar(s[e]));
      if IsSign(s[i]) {
        assert j1 == i + 1;
      }
      SkipSpacesAt(s, j1, k);
      SkipRunCharsAt(s, k + 1, e);
    }
  }

  /** re.search: the leftmost start at or after `i` where the pattern matches, and its end. */
  function FirstRun(s: string, i: nat): (o: Option<(nat, nat)>)
    ensures o.Some? ==> i <= o.value.0 < o.value.1 <= |s| && MatchAt(s, o.value.0) == Some(o.value.1)
    ensures o.Some? ==> forall m :: i <= m < o.value.0 ==> MatchAt(s, m).None?
    ensures o.None? ==> forall m :: i <= m < |s| ==> MatchAt(s, m).None?
    decreases |s| - i
  {
    if i >= |s| then None
    else
      match MatchAt(s, i)
      case Some(e) => Some((i, e))
      case None => FirstRun(s, i + 1)
  }

  /** The search finds the leftmost match: a match at `k` with none between `i` and `k` is
      the one `FirstRun` reports. */
  lemma {:induction false} FirstRunLeftmost(s: string, i: nat, k: nat)
    requires i <= k < |s| && MatchAt(s, k).Some?
    requires forall m :: i <= m < k ==> MatchAt(s, m).None?
    ensures FirstRun(s, i) == Some((k, MatchAt(s, k).value))
    decreases k - i
  {
    if i < k {
      FirstRunLeftmost(s, i + 1, k);
    }
  }

  /** A match starts wherever a digit stands, and every match holds a digit: so there is a
      match exactly when the text has a digit. */
  lemma FirstRunIffDigit(s: string)
    ensures FirstRun(s, 0).None? <==> forall m :: 0 <= m < |s| ==> !IsDigit(s[m])
  {
    forall m | 0 <= m < |s| && IsDigit(s[m]) ensures MatchAt(s, m).Some? {
      assert SkipSpaces(s, m) == m;
    }
    if FirstRun(s, 0).Some? {
      var (a, e) := FirstRun(s, 0).value;
      assert IsDigit(s[LeadEnd(s, a)]);
    }
  }

  // ---------------------------------------------------------------------------------------
  // Steps 3 to 5: whitespace removed, commas to dots, all dots but the last dropped.
  // ---------------------------------------------------------------------------------------

  /** `re.sub(r'\s+', '', s)`. */
  function RemoveSpaces(s: string): (r: string)
    ensures forall m :: 0 <= m < |r| ==> !IsSpace(r[m])
  {
    if s == [] then []
    else if IsSpace(s[0]) then RemoveSpaces(s[1..])
    else [s[0]] + RemoveSpaces(s[1..])
  }

  /** `s.replace(',', '.')`. */
  function CommasToDots(s: string): (r: string)
    ensures |r| == |s|
    ensures forall m :: 0 <= m < |r| ==> r[m] != ','
  {
    if s == [] then [] else [if s[0] == ',' then '.' else s[0]] + CommasToDots(s[1..])
  }

  /** `s.split('.')`: the pieces between the dots, empty pieces included. */
  function SplitDots(s: string): (parts: seq<string>)
    ensures |parts| >= 1
  {
    if s == [] then [[]]
    else if s[0] == '.' then [[]] + SplitDots(s[1..])
    else
      var rest := SplitDots(s[1..]);
      [[s[0]] + rest[0]] + rest[1..]
  }

  /** `''.join(parts)`. */
  function Join(parts: seq<string>): (r: string)
    ensures (forall k :: 0 <= k < |parts| ==> '.' !in parts[k]) ==> '.' !in r
  {
    if parts == [] then [] else parts[0] + Join(parts[1..])
  }

  /** Lines 49-54: with three or more pieces, glue all but the last and keep the last after
      a single dot. */
  function KeepLastDot(s: string): (r: string)
    ensures r == [] <==> s == []
  {
    var parts := SplitDots(s);
    if |parts| > 2 then Join(parts[..|parts| - 1]) + "." + parts[|parts| - 1] else s
  }

  /** `extract_numeric_value`. The result is empty exactly when the search finds no run;
      what a found run becomes is stated by the lemmas below. */
  function ExtractNumericValue(text: string): (r: string)
    ensures r == [] <==> FirstRun(StripAnnotations(text, 0), 0).None?
  {
    var temp := StripAnnotations(text, 0);
    match FirstRun(temp, 0)
    case None => ""
    case Some((start, end)) =>
      RemoveSpacesNonEmpty(temp[start..end], LeadEnd(temp, start) - start);
      var raw := RemoveSpaces(temp[start..end]);
      var dotted := CommasToDots(raw);
      KeepLastDot(dotted)
  }

  /** Whitespace removal keeps any character that is not whitespace. */
  lemma {:induction false} RemoveSpacesNonEmpty(s: string, k: nat)
    requires k < |s| && !IsSpace(s[k])
    ensures RemoveSpaces(s) != []
    decreases |s|
  {
    if k > 0 && IsSpace(s[0]) {
      RemoveSpacesNonEmpty(s[1..], k - 1);
    }
  }

  // ---------------------------------------------------------------------------------------
  // Reference definitions and what the extractor promises.
  // ---------------------------------------------------------------------------------------

  /** The text without its dots. */
  function DropDots(s: string): (r: string)
    ensures '.' !in r
  {
    if s == [] then [] else (if s[0] == '.' then [] else [s[0]]) + DropDots(s[1..])
  }

  /** The text without whitespace, dots and commas: what the run keeps whatever its layout. */
  function DropSeparators(s: string): (r: string)
    ensures forall m :: 0 <= m < |r| ==> !IsSpace(r[m]) && !IsSeparator(r[m])
  {
    if s == [] then []
    else (if IsSpace(s[0]) || IsSeparator(s[0]) then [] else [s[0]]) + DropSeparators(s[1..])
  }

  lemma {:induction false} SplitDotsNoDot(s: string)
    requires '.' !in s
    ensures SplitDots(s) == [s]
    decreases |s|
  {
    if s != [] {
      assert '.' !in s[1..];
      SplitDotsNoDot(s[1..]);
      assert s == [s[0]] + s[1..];
    }
  }

  /** Splitting at a dot splits the pieces list in two. */
  lemma {:induction false} SplitDotsAppend(a: string, b: string)
    ensures SplitDots(a + ['.'] + b) == SplitDots(a) + SplitDots(b)
    decreases |a|
  {
    if a == [] {
      assert a + ['.'] + b == ['.'] + b;
      assert (['.'] + b)[1..] == b;
    } else {
      assert (a + ['.'] + b)[0] == a[0];
      assert (a + ['.'] + b)[1..] == a[1..] + ['.'] + b;
      SplitDotsAppend(a[1..], b);
    }
  }

  /** Gluing the pieces back without dots is dropping the dots. */
  lemma {:induction false} JoinSplitDots(s: string)
    ensures Join(SplitDots(s)) == DropDots(s)
    decreases |s|
  {
    if s != [] {
      JoinSplitDots(s[1..]);
      var rest := SplitDots(s[1..]);
      if s[0] != '.' {
        assert Join(rest) == rest[0] + Join(rest[1..]);
        assert Join([[s[0]] + rest[0]] + rest[1..]) == [s[0]] + rest[0] + Join(rest[1..]);
      } else {
        assert Join([[]] + rest) == Join(rest);
      }
    }
  }

  /** A text splits into a single piece exactly when it has no dot. */
  lemma {:induction false} SplitDotsCount(s: string)
    ensures |SplitDots(s)| == 1 <==> '.' !in s
    decreases |s|
  {
    if s != [] {
      SplitDotsCount(s[1..]);
      assert '.' in s <==> s[0] == '.' || '.' in s[1..];
    }
  }

  /** The decimal-point rule: for a text whose last dot splits it into `a` and `b`, the result
      is `a` without dots, one dot, then `b`. */
  lemma KeepLastDotSplit(a: string, b: string)
    requires '.' !in b
    ensures KeepLastDot(a + ['.'] + b) == DropDots(a) + ['.'] + b
  {
    SplitDotsAppend(a, b);
    SplitDotsNoDot(b);
    var parts := SplitDots(a + ['.'] + b);
    assert parts[..|parts| - 1] == SplitDots(a) && parts[|parts| - 1] == b;
    SplitDotsCount(a);
    if '.' in a {
      JoinSplitDots(a);
    } else {
      DropDotsNoDot(a);
    }
  }

  /** A text without dots is left as it is. */
  lemma KeepLastDotNoDot(s: string)
    requires '.' !in s
    ensures KeepLastDot(s) == s
  {
    SplitDotsNoDot(s);
  }

  lemma {:induction false} DropDotsNoDot(s: string)
    requires '.' !in s
    ensures DropDots(s) == s
    decreases |s|
  {
    if s != [] {
      assert '.' !in s[1..];
      DropDotsNoDot(s[1..]);
    }
  }

  lemma {:induction false} DropDotsAppend(a: string, b: string)
    ensures DropDots(a + b) == DropDots(a) + DropDots(b)
    decreases |a|
  {
    if a == [] {
      assert a + b == b;
    } else {
      assert (a + b)[0] == a[0] && (a + b)[1..] == a[1..] + b;
      DropDotsAppend(a[1..], b);
    }
  }

  lemma {:induction false} RemoveSpacesAppend(a: string, b: string)
    ensures RemoveSpaces(a + b) == RemoveSpaces(a) + RemoveSpaces(b)
    decreases |a|
  {
    if a == [] {
      assert a + b == b;
    } else {
      assert (a + b)[0] == a[0] && (a + b)[1..] == a[1..] + b;
      RemoveSpacesAppend(a[1..], b);
    }
  }

  lemma {:induction false} CommasToDotsAppend(a: string, b: string)
    ensures CommasToDots(a + b) == CommasToDots(a) + CommasToDots(b)
    decreases |a|
  {
    if a == [] {
      assert a + b == b;
    } else {
      assert (a + b)[0] == a[0] && (a + b)[1..] == a[1..] + b;
      CommasToDotsAppend(a[1..], b);
    }
  }

  lemma {:induction false} DropSeparatorsAppend(a: string, b: string)
    ensures DropSeparators(a + b) == DropSeparators(a) + DropSeparators(b)
    decreases |a|
  {
    if a == [] {
      assert a + b == b;
    } else {
      assert (a + b)[0] == a[0] && (a + b)[1..] == a[1..] + b;
      DropSeparatorsAppend(a[1..], b);
    }
  }

  /** Text made only of characters a filter keeps passes through it unchanged. */
  lemma {:induction false} FiltersKeepPlainText(s: string)
    requires forall m :: 0 <= m < |s| ==> !IsSpace(s[m]) && !IsSeparator(s[m])
    ensures RemoveSpaces(s) == s && CommasToDots(s) == s && DropDots(s) == s && DropSeparators(s) == s
    decreases |s|
  {
    if s != [] {
      FiltersKeepPlainText(s[1..]);
      assert s == [s[0]] + s[1..];
    }
  }

  /** Removing whitespace, turning commas into dots and then dropping the dots leaves what
      dropping whitespace and both separators leaves. */
  lemma {:induction false} CleanThenDropDots(s: string)
    ensures DropDots(CommasToDots(RemoveSpaces(s))) == DropSeparators(s)
    decreases |s|
  {
    if s != [] {
      CleanThenDropDots(s[1..]);
      if !IsSpace(s[0]) {
        var c := if s[0] == ',' then '.' else s[0];
        assert CommasToDots(RemoveSpaces(s)) == [c] + CommasToDots(RemoveSpaces(s[1..]));
        DropDotsAppend([c], CommasToDots(RemoveSpaces(s[1..])));
      }
    }
  }

  /** The extraction is the cleaning of the leftmost run (the annotation step being void). */
  lemma ExtractOfRun(text: string, a: nat, e: nat)
    requires FirstRun(text, 0) == Some((a, e))
    ensures ExtractNumericValue(text) == KeepLastDot(CommasToDots(RemoveSpaces(text[a..e])))
  {
    StripAnnotationsIsIdentity(text, 0);
    assert text[0..] == text;
  }

  /** Inside the leftmost run, whatever follows a dot or a comma is digits, dots and commas. */
  lemma RunTailAfterSeparator(text: string, a: nat, e: nat, x: string, sep: char, y: string)
    requires FirstRun(text, 0) == Some((a, e))
    requires text[a..e] == x + [sep] + y && IsSeparator(sep)
    ensures forall m :: 0 <= m < |y| ==> IsRunChar(y[m])
  {
    var p := a + |x|;
    assert text[p] == (x + [sep] + y)[|x|];
    assert p >= LeadEnd(text, a);
    forall m | 0 <= m < |y| ensures IsRunChar(y[m]) {
      assert y[m] == (x + [sep] + y)[|x| + 1 + m] == text[p + 1 + m];
    }
  }

  lemma RemoveSpacesAround(x: string, c: char, y: string)
    requires !IsSpace(c) && RemoveSpaces(y) == y
    ensures RemoveSpaces(x + [c] + y) == RemoveSpaces(x) + [c] + y
  {
    calc {
      RemoveSpaces(x + [c] + y);
    == { assert x + [c] + y == x + ([c] + y); }
      RemoveSpaces(x + ([c] + y));
    == { RemoveSpacesAppend(x, [c] + y); }
      RemoveSpaces(x) + RemoveSpaces([c] + y);
    == { assert ([c] + y)[0] == c && ([c] + y)[1..] == y; }
      RemoveSpaces(x) + ([c] + y);
    }
  }

  lemma CommasToDotsAround(x: string, c: char, y: string)
    requires CommasToDots(y) == y
    ensures CommasToDots(x + [c] + y) == CommasToDots(x) + [if c == ',' then '.' else c] + y
  {
    var d := if c == ',' then '.' else c;
    calc {
      CommasToDots(x + [c] + y);
    == { assert x + [c] + y == x + ([c] + y); }
      CommasToDots(x + ([c] + y));
    == { CommasToDotsAppend(x, [c] + y); }
      CommasToDots(x) + CommasToDots([c] + y);
    == { assert ([c] + y)[0] == c && ([c] + y)[1..] == y; }
      CommasToDots(x) + ([d] + y);
    }
  }

  /** Whitespace removal and comma replacement leave a plain tail after a separator alone. */
  lemma CleanKeepsPlainTail(x: string, sep: char, y: string)
    requires IsSeparator(sep)
    requires forall m :: 0 <= m < |y| ==> !IsSpace(y[m]) && !IsSeparator(y[m])
    ensures CommasToDots(RemoveSpaces(x + [sep] + y)) == CommasToDots(RemoveSpaces(x)) + ['.'] + y
  {
    FiltersKeepPlainText(y);
    RemoveSpacesAround(x, sep, y);
    CommasToDotsAround(RemoveSpaces(x), sep, y);
  }

  /** Cleaning a run whose last separator is `sep`: everything before it loses its
      whitespace, dots and commas, the separator becomes the one decimal point, and the
      digits after it stay as they are. */
  lemma CleanAroundLastSeparator(x: string, sep: char, y: string)
    requires IsSeparator(sep)
    requires forall m :: 0 <= m < |y| ==> !IsSpace(y[m]) && !IsSeparator(y[m])
    ensures KeepLastDot(CommasToDots(RemoveSpaces(x + [sep] + y))) == DropSeparators(x) + "." + y
  {
    CleanKeepsPlainTail(x, sep, y);
    assert '.' !in y by {
      forall m | 0 <= m < |y| ensures y[m] != '.' {
        assert !IsSeparator(y[m]);
      }
    }
    KeepLastDotSplit(CommasToDots(RemoveSpaces(x)), y);
    CleanThenDropDots(x);
  }

  /** The decimal-point rule, stated on the original run: when the run's last dot or comma
      splits it into `x` and `y`, the result is `x` without whitespace, dots and commas, then
      one dot, then `y`. */
  lemma ExtractLastSeparator(text: string, a: nat, e: nat, x: string, sep: char, y: string)
    requires FirstRun(text, 0) == Some((a, e))
    requires text[a..e] == x + [sep] + y && IsSeparator(sep)
    requires forall m :: 0 <= m < |y| ==> !IsSeparator(y[m])
    ensures ExtractNumericValue(text) == DropSeparators(x) + "." + y
  {
    ExtractOfRun(text, a, e);
    RunTailAfterSeparator(text, a, e, x, sep, y);
    CleanAroundLastSeparator(x, sep, y);
  }

  /** A run without dots or commas is an integer: only its whitespace goes. */
  lemma ExtractWholeRun(text: string, a: nat, e: nat)
    requires FirstRun(text, 0) == Some((a, e))
    requires forall m :: a <= m < e ==> !IsSeparator(text[m])
    ensures ExtractNumericValue(text) == RemoveSpaces(text[a..e]) == DropSeparators(text[a..e])
  {
    ExtractOfRun(text, a, e);
    var run := text[a..e];
    assert forall m :: 0 <= m < |run| ==> !IsSeparator(run[m]) by {
      forall m | 0 <= m < |run| ensures !IsSeparator(run[m]) {
        assert run[m] == text[a + m];
      }
    }
    NoSeparatorsFilters(run);
    KeepLastDotNoDot(RemoveSpaces(run));
  }

  lemma {:induction false} NoSeparatorsFilters(s: string)
    requires forall m :: 0 <= m < |s| ==> !IsSeparator(s[m])
    ensures CommasToDots(RemoveSpaces(s)) == RemoveSpaces(s) == DropSeparators(s)
    ensures '.' !in RemoveSpaces(s)
    decreases |s|
  {
    if s != [] {
      NoSeparatorsFilters(s[1..]);
    }
  }

  // ---------------------------------------------------------------------------------------
  // The run as sign plus digit body.
  // ---------------------------------------------------------------------------------------

  /** The sign the match starting at `i` begins with, if any. */
  function SignOf(s: string, i: nat): (r: string)
    requires i < |s|
    ensures |r| <= 1 && forall m :: 0 <= m < |r| ==> IsSign(r[m])
  {
    if IsSign(s[i]) then [s[i]] else []
  }

  /** Digits and dots only: what comma replacement leaves of the run's body. */
  predicate DigitsAndDots(s: string) {
    forall m :: 0 <= m < |s| ==> IsDigit(s[m]) || s[m] == '.'
  }

  lemma {:induction false} FiltersDropSpaces(s: string)
    requires forall m :: 0 <= m < |s| ==> IsSpace(s[m])
    ensures RemoveSpaces(s) == [] && DropSeparators(s) == []
    decreases |s|
  {
    if s != [] {
      FiltersDropSpaces(s[1..]);
    }
  }

  lemma {:induction false} RemoveSpacesNoSpace(s: string)
    requires forall m :: 0 <= m < |s| ==> !IsSpace(s[m])
    ensures RemoveSpaces(s) == s
    decreases |s|
  {
    if s != [] {
      RemoveSpacesNoSpace(s[1..]);
      assert s == [s[0]] + s[1..];
    }
  }

  lemma {:induction false} CommasToDotsOfRunChars(s: string)
    requires forall m :: 0 <= m < |s| ==> IsRunChar(s[m])
    ensures DigitsAndDots(CommasToDots(s))
    decreases |s|
  {
    if s != [] {
      CommasToDotsOfRunChars(s[1..]);
      var r := CommasToDots(s);
      forall m | 0 <= m < |r| ensures IsDigit(r[m]) || r[m] == '.' {
        if m > 0 {
          assert r[m] == CommasToDots(s[1..])[m - 1];
        }
      }
    }
  }

  /** What comes before the first digit, the sign and the whitespace, cleans to the sign. */
  lemma LeadCleansToSign(s: string, i: nat)
    requires i < |s|
    ensures RemoveSpaces(s[i..LeadEnd(s, i)]) == SignOf(s, i)
    ensures DropSeparators(s[i..LeadEnd(s, i)]) == SignOf(s, i)
  {
    var j := LeadEnd(s, i);
    var lead := s[i..j];
    var from := if IsSign(s[i]) then i + 1 else i;
    var spaces := s[from..j];
    forall m | 0 <= m < |spaces| ensures IsSpace(spaces[m]) {
      assert spaces[m] == s[from + m];
    }
    FiltersDropSpaces(spaces);
    if IsSign(s[i]) {
      assert lead == [s[i]] + spaces;
    } else {
      assert lead == spaces;
    }
  }

  /** A dot-free prefix is untouched by the decimal-point rule. */
  lemma KeepLastDotPrefix(pre: string, b: string)
    requires '.' !in pre
    ensures KeepLastDot(pre + b) == pre + KeepLastDot(b)
  {
    if '.' in b {
      var p := LastDot(b);
      var x, y := b[..p], b[p + 1..];
      assert b == x + ['.'] + y;
      KeepLastDotPrefixAround(pre, x, y);
    } else {
      KeepLastDotNoDot(b);
      KeepLastDotNoDot(pre + b);
    }
  }

  lemma KeepLastDotPrefixAround(pre: string, x: string, y: string)
    requires '.' !in pre && '.' !in y
    ensures KeepLastDot(pre + (x + ['.'] + y)) == pre + KeepLastDot(x + ['.'] + y)
  {
    calc {
      KeepLastDot(pre + (x + ['.'] + y));
    == { assert pre + (x + ['.'] + y) == (pre + x) + ['.'] + y; }
      KeepLastDot((pre + x) + ['.'] + y);
    == { KeepLastDotSplit(pre + x, y); }
      DropDots(pre + x) + ['.'] + y;
    == { DropDotsAppend(pre, x); DropDotsNoDot(pre); }
      pre + DropDots(x) + ['.'] + y;
    == { KeepLastDotSplit(x, y); }
      pre + KeepLastDot(x + ['.'] + y);
    }
  }

  /** The position of the last dot, or -1 when there is none. */
  function LastDot(s: string): (p: int)
    ensures -1 <= p < |s|
    ensures p >= 0 ==> s[p] == '.'
    ensures p == -1 <==> '.' !in s
    ensures forall m :: p < m < |s| ==> s[m] != '.'
  {
    if s == [] then -1
    else if s[|s| - 1] == '.' then |s| - 1
    else
      assert s == s[..|s| - 1] + [s[|s| - 1]];
      LastDot(s[..|s| - 1])
  }

  /** The decimal-point rule on digits and dots with a last dot between `x` and `y`: the
      result is digits and dots, with exactly one dot. */
  lemma KeepLastDotShapeAt(x: string, y: string)
    requires DigitsAndDots(x) && DigitsAndDots(y) && '.' !in y
    ensures DigitsAndDots(DropDots(x) + ['.'] + y)
    ensures multiset(DropDots(x) + ['.'] + y)['.'] == 1
    ensures x != [] && IsDigit(x[0]) ==> (DropDots(x) + ['.'] + y)[0] == x[0]
  {
    var dx := DropDots(x);
    OneDotBetween(dx, y);
    DropDotsKeepsDigits(x);
    assert DigitsAndDots(dx + ['.'] + y) by {
      var r := dx + ['.'] + y;
      forall m | 0 <= m < |r| ensures IsDigit(r[m]) || r[m] == '.' {
        if m < |dx| {
          assert r[m] == dx[m];
        } else if m > |dx| {
          assert r[m] == y[m - |dx| - 1];
        }
      }
    }
    if x != [] && IsDigit(x[0]) {
      assert dx[0] == x[0];
    }
  }

  /** Text with one dot between two dot-free parts holds exactly one dot. */
  lemma OneDotBetween(a: string, b: string)
    requires '.' !in a && '.' !in b
    ensures multiset(a + ['.'] + b)['.'] == 1
  {
    assert multiset(a + ['.'] + b) == multiset(a) + multiset(['.']) + multiset(b);
    assert multiset(a)['.'] == 0 && multiset(b)['.'] == 0;
  }

  /** ... and it keeps the digits of `x` and `y` in order. */
  lemma KeepLastDotDigitsAt(x: string, y: string)
    requires '.' !in y
    ensures DropDots(DropDots(x) + ['.'] + y) == DropDots(x + ['.'] + y)
  {
    var dx := DropDots(x);
    DropDotsAppend(dx + ['.'], y);
    DropDotsAppend(dx, ['.']);
    DropDotsAppend(x + ['.'], y);
    DropDotsAppend(x, ['.']);
    DropDotsNoDot(dx);
  }

  /** The result of the decimal-point rule on digits and dots: digits and at most one dot,
      the same digits in the same order, and the same first character when that is a digit. */
  lemma KeepLastDotShape(s: string)
    requires DigitsAndDots(s)
    ensures DigitsAndDots(KeepLastDot(s))
    ensures multiset(KeepLastDot(s))['.'] <= 1
    ensures DropDots(KeepLastDot(s)) == DropDots(s)
    ensures s != [] && IsDigit(s[0]) ==> KeepLastDot(s) != [] && KeepLastDot(s)[0] == s[0]
  {
    var p := LastDot(s);
    if p < 0 {
      KeepLastDotNoDot(s);
      assert multiset(s)['.'] == 0;
    } else {
      var x, y := s[..p], s[p + 1..];
      assert s == x + ['.'] + y;
      KeepLastDotShapeAround(x, y);
    }
  }

  /** `KeepLastDotShape` for text split at its last dot. */
  lemma KeepLastDotShapeAround(x: string, y: string)
    requires DigitsAndDots(x + ['.'] + y) && '.' !in y
    ensures DigitsAndDots(KeepLastDot(x + ['.'] + y))
    ensures multiset(KeepLastDot(x + ['.'] + y))['.'] <= 1
    ensures DropDots(KeepLastDot(x + ['.'] + y)) == DropDots(x + ['.'] + y)
    ensures x != [] && IsDigit(x[0]) ==> KeepLastDot(x + ['.'] + y)[0] == x[0]
  {
    assert DigitsAndDots(x) && DigitsAndDots(y) by {
      assert forall m :: 0 <= m < |x| ==> x[m] == (x + ['.'] + y)[m];
      assert forall m :: 0 <= m < |y| ==> y[m] == (x + ['.'] + y)[|x| + 1 + m];
    }
    KeepLastDotSplit(x, y);
    KeepLastDotShapeAt(x, y);
    KeepLastDotDigitsAt(x, y);
  }

  lemma {:induction false} DropDotsKeepsDigits(s: string)
    requires DigitsAndDots(s)
    ensures forall m :: 0 <= m < |DropDots(s)| ==> IsDigit(DropDots(s)[m])
    decreases |s|
  {
    if s != [] {
      DropDotsKeepsDigits(s[1..]);
    }
  }

  /** The extraction is the run's sign, if any, followed by the decimal-point rule applied to
      the run's body from its first digit on, commas read as dots; the whitespace between
      sign and digit goes. */
  lemma ExtractSignAndBody(text: string, a: nat, e: nat)
    requires FirstRun(text, 0) == Some((a, e))
    ensures LeadEnd(text, a) < e
    ensures DigitsAndDots(CommasToDots(text[LeadEnd(text, a)..e]))
    ensures ExtractNumericValue(text) == SignOf(text, a) + KeepLastDot(CommasToDots(text[LeadEnd(text, a)..e]))
  {
    ExtractOfRun(text, a, e);
    CleanSignAndBody(text, a, e);
  }

  /** Cleaning a run with a sign-and-whitespace lead: the lead shrinks to its sign and the
      body, made of digits, dots and commas, loses nothing to the whitespace removal. */
  lemma CleanSignAndBody(text: string, a: nat, e: nat)
    requires a < |text| && LeadEnd(text, a) <= e <= |text|
    requires AllRunChars(text, LeadEnd(text, a), e)
    ensures DigitsAndDots(CommasToDots(text[LeadEnd(text, a)..e]))
    ensures KeepLastDot(CommasToDots(RemoveSpaces(text[a..e])))
      == SignOf(text, a) + KeepLastDot(CommasToDots(text[LeadEnd(text, a)..e]))
  {
    var j := LeadEnd(text, a);
    var body := text[j..e];
    assert text[a..e] == text[a..j] + body;
    forall m | 0 <= m < |body| ensures IsRunChar(body[m]) && !IsSpace(body[m]) {
      assert body[m] == text[j + m];
    }
    RemoveSpacesNoSpace(body);
    RemoveSpacesAppend(text[a..j], body);
    LeadCleansToSign(text, a);
    CommasToDotsAppend(SignOf(text, a), body);
    assert CommasToDots(SignOf(text, a)) == SignOf(text, a);
    CommasToDotsOfRunChars(body);
    KeepLastDotPrefix(SignOf(text, a), CommasToDots(body));
  }

  /** Digits and dots, a sign only in front, and at most one dot. */
  predicate NumberShape(r: string) {
    && (forall m :: 0 <= m < |r| ==> IsDigit(r[m]) || r[m] == '.' || (m == 0 && IsSign(r[m])))
    && multiset(r)['.'] <= 1
  }

  lemma SignedNumberShape(sign: string, body: string)
    requires |sign| <= 1 && forall m :: 0 <= m < |sign| ==> IsSign(sign[m])
    requires DigitsAndDots(body) && multiset(body)['.'] <= 1
    ensures NumberShape(sign + body)
  {
    var r := sign + body;
    forall m | 0 <= m < |r| ensures IsDigit(r[m]) || r[m] == '.' || (m == 0 && IsSign(r[m])) {
      if m >= |sign| {
        assert r[m] == body[m - |sign|];
      }
    }
    assert multiset(r) == multiset(sign) + multiset(body);
    assert multiset(sign)['.'] == 0;
  }

  /** Shape of every result: digits and dots, a sign only in front, and at most one dot. */
  lemma ExtractShape(text: string)
    ensures NumberShape(ExtractNumericValue(text))
  {
    StripAnnotationsIsIdentity(text, 0);
    assert text[0..] == text;
    match FirstRun(text, 0)
    case None =>
    case Some((a, e)) =>
      ExtractSignAndBody(text, a, e);
      var dotted := CommasToDots(text[LeadEnd(text, a)..e]);
      KeepLastDotShape(dotted);
      SignedNumberShape(SignOf(text, a), KeepLastDot(dotted));
  }

  /** The result opens with the run's sign when it has one, and otherwise with the run's first
      digit; in particular a text with a digit never gives the empty string. */
  lemma ExtractKeepsSign(text: string, a: nat, e: nat)
    requires FirstRun(text, 0) == Some((a, e))
    ensures ExtractNumericValue(text) != []
    ensures ExtractNumericValue(text)[0] == if IsSign(text[a]) then text[a] else text[LeadEnd(text, a)]
  {
    ExtractSignAndBody(text, a, e);
    var j := LeadEnd(text, a);
    var dotted := CommasToDots(text[j..e]);
    assert dotted[0] == text[j];
    KeepLastDotShape(dotted);
  }

  /** The result is empty exactly when the text has no digit. */
  lemma ExtractEmptyIffNoDigit(text: string)
    ensures ExtractNumericValue(text) == [] <==> forall m :: 0 <= m < |text| ==> !IsDigit(text[m])
  {
    FirstRunIffDigit(text);
    StripAnnotationsIsIdentity(text, 0);
    assert text[0..] == text;
    if FirstRun(text, 0).Some? {
      var (a, e) := FirstRun(text, 0).value;
      ExtractKeepsSign(text, a, e);
    }
  }

  /** On a body without whitespace, cleaning then dropping dots drops the separators. */
  lemma BodyKeepsDigits(body: string)
    requires forall m :: 0 <= m < |body| ==> IsRunChar(body[m])
    ensures DropDots(KeepLastDot(CommasToDots(body))) == DropSeparators(body)
  {
    var dotted := CommasToDots(body);
    calc {
      DropDots(KeepLastDot(dotted));
    == { CommasToDotsOfRunChars(body); KeepLastDotShape(dotted); }
      DropDots(dotted);
    == { RemoveSpacesNoSpace(body); }
      DropDots(CommasToDots(RemoveSpaces(body)));
    == { CleanThenDropDots(body); }
      DropSeparators(body);
    }
  }

  /** Without whitespace, dots and commas, a run is its sign and its body's digits. */
  lemma RunDropsToSignAndBody(text: string, a: nat, e: nat)
    requires a < |text| && LeadEnd(text, a) <= e <= |text|
    ensures DropSeparators(text[a..e]) == SignOf(text, a) + DropSeparators(text[LeadEnd(text, a)..e])
  {
    var j := LeadEnd(text, a);
    assert text[a..e] == text[a..j] + text[j..e];
    DropSeparatorsAppend(text[a..j], text[j..e]);
    LeadCleansToSign(text, a);
  }

  /** No digit is lost, added or reordered: without its dots, the result is the leftmost run
      without its whitespace, dots and commas. */
  lemma ExtractKeepsDigits(text: string, a: nat, e: nat)
    requires FirstRun(text, 0) == Some((a, e))
    ensures DropDots(ExtractNumericValue(text)) == DropSeparators(text[a..e])
  {
    ExtractSignAndBody(text, a, e);
    SignAndBodyKeepDigits(text, a, e);
  }

  /** Without dots, the sign followed by the cleaned body is the run without whitespace, dots
      and commas. */
  lemma SignAndBodyKeepDigits(text: string, a: nat, e: nat)
    requires a < |text| && LeadEnd(text, a) <= e <= |text|
    requires AllRunChars(text, LeadEnd(text, a), e)
    ensures DropDots(SignOf(text, a) + KeepLastDot(CommasToDots(text[LeadEnd(text, a)..e])))
      == DropSeparators(text[a..e])
  {
    var j := LeadEnd(text, a);
    var body := text[j..e];
    var sign := SignOf(text, a);
    assert forall m :: 0 <= m < |body| ==> IsRunChar(body[m]) by {
      forall m | 0 <= m < |body| ensures IsRunChar(body[m]) {
        assert body[m] == text[j + m];
      }
    }
    calc {
      DropDots(sign + KeepLastDot(CommasToDots(body)));
    == { DropDotsAppend(sign, KeepLastDot(CommasToDots(body))); }
      DropDots(sign) + DropDots(KeepLastDot(CommasToDots(body)));
    == { DropDotsNoDot(sign); BodyKeepsDigits(body); }
      sign + DropSeparators(body);
    == { RunDropsToSignAndBody(text, a, e); }
      DropSeparators(text[a..e]);
    }
  }
}
