# NovaDAX to Koinly converter, modelled in Dafny

`converter_novadax_koinly.py` turns the CSV export of the NovaDAX brokerage into the CSV
layout the Koinly tax tool imports. Each NovaDAX row has five fields: date, type label,
currency, amount text and status. Each becomes one twelve-column Koinly row. This project
models the converter's logic and proves what it promises. It has one module per component:

- `Strings` (`strings.dfy`): the character classes (`\d` and `\s` read as ASCII) and Python's
  substring test `p in s`. The substring test is proved equal to "occurs at some index".
- `TextNormalizer` (`normalizer.dfy`): `normalize_str`. The model applies NFKD decomposition
  to the accented Portuguese letters, drops combining marks, and lower-cases ASCII.
- `DateConverter` (`dates.dfy`): `convert_date`.
  - Parsing with `%d/%m/%Y %H:%M:%S` is modelled on the fixed-width form with Gregorian
    validity: month lengths, leap years, hours below 24, minutes and seconds below 60.
  - A parsed time stamp is re-printed as `%Y-%m-%d %H:%M UTC`.
  - Anything that does not parse gives `"Invalid Date"`.
- `NumericExtractor` (`extractor.dfy`): `extract_numeric_value`, step by step.
  - The annotation removal of line 32 is one step.
  - The leftmost match of `[+-]?\s*\d[\d.,]*` is a recursive scanner. The scanner is proved
    equal to the pattern's definition and to be the leftmost match.
  - Then come whitespace removal, commas to dots, and the split on dots that keeps only the
    last dot.
- `RowClassifier` (`rows.dfy`): `process_novadax_row`. The `if`/`elif` chain is a
  classification into the first rule whose phrase occurs in the normalised label. A booking
  step says which column pair receives the amount.
- `Converter` (`converter.dfy`): the row loop of `convert_novadax_to_koinly`. It is a method
  with a `while` loop that appends the Koinly header and then one converted row per input row
  after the NovaDAX header.
- `Examples` (`examples.dfy`): worked examples, evaluated on the model.

Amounts stay strings throughout, as in the source.

The annotation removal at line 32 is modelled as the code is written, not as its comment at
line 31 describes it. In the raw pattern `\(≈R\\$[^)]*\)`, the characters `\\$` are a literal
backslash followed by the end-of-text anchor. A match would need a `)` after the end of the
text, so the substitution never changes anything (`NumericExtractor.StripAnnotationsIsIdentity`).
As a consequence, `"(≈R$50,00) -89,10"` gives `"50.00"`, the amount inside the annotation,
and not `"-89.10"`. The code also turns `"+ 1,234.56"` into `"+1234.56"`. The model follows
the code on both inputs.

## Model

| member | source | states |
|---|---|---|
| Strings.ToAsciiLower | converter_novadax_koinly.py:12 | the result is never an ASCII capital; an ASCII capital becomes the small letter at the same place of the alphabet, and every other character is kept |
| Strings.ToAsciiUpper | converter_novadax_koinly.py:105 | the result is never an ASCII small letter; an ASCII small letter becomes the capital at the same place of the alphabet, and every other character is kept |
| Strings.CaseRoundTrip | converter_novadax_koinly.py:105 | lower-casing a capital and upper-casing the result gives the capital back, and the mirror for small letters |
| Strings.Contains | converter_novadax_koinly.py:88-122 | the empty phrase is in every label, and a phrase found is no longer than the label |
| Strings.ContainsIff | converter_novadax_koinly.py:88-122 | the scan used for `phrase in label` is true exactly when the phrase occurs at some index of the label |
| Strings.ContainsAt | converter_novadax_koinly.py:88-122 | an occurrence at a known index is found by the scan |
| Strings.ContainsTransitive | converter_novadax_koinly.py:88-122 | a label that holds a phrase holds every substring of that phrase |
| TextNormalizer.FoldChar | converter_novadax_koinly.py:11-12 | one character becomes at most one character, always in normal form; a combining mark is dropped; an accented letter becomes one ASCII small letter, its base letter (the fold-table lemmas below); a character already in normal form is kept |
| TextNormalizer.Normalize | converter_novadax_koinly.py:6-12 | the result is never longer than the input (so the empty string stays empty) and holds only characters in normal form: no ASCII capitals, no combining marks, no accented letters; what each character becomes is FoldChar's contract, carried to whole texts by NormalizeAppend and NormalizeCharwise |
| TextNormalizer.NormalizeAppend | converter_novadax_koinly.py:11-12 | normalising works character by character: it distributes over concatenation |
| TextNormalizer.NormalizeFixesFolded | converter_novadax_koinly.py:11-12 | text already in normal form is unchanged |
| TextNormalizer.NormalizeIdempotent | converter_novadax_koinly.py:6-12 | normalising twice equals normalising once |
| TextNormalizer.NormalizeAscii | converter_novadax_koinly.py:11-12 | on ASCII text the normaliser is exactly ASCII lower-casing |
| TextNormalizer.LowercaseAlphabet | converter_novadax_koinly.py:12 | the capitals A to Z lower-case to a to z, letter for letter |
| TextNormalizer.NormalizeCharwise | converter_novadax_koinly.py:11-12 | a text whose every character folds to the character at the same index of `t` normalises to `t` |
| TextNormalizer.FoldTableA | converter_novadax_koinly.py:11-12 | "áàâãÁÀÂÃ" becomes "aaaaaaaa" |
| TextNormalizer.FoldTableC | converter_novadax_koinly.py:11-12 | "çÇ" becomes "cc" |
| TextNormalizer.FoldTableE | converter_novadax_koinly.py:11-12 | "éêÉÊ" becomes "eeee" |
| TextNormalizer.FoldTableI | converter_novadax_koinly.py:11-12 | "íÍ" becomes "ii" |
| TextNormalizer.FoldTableO | converter_novadax_koinly.py:11-12 | "óôõÓÔÕ" becomes "oooooo" |
| TextNormalizer.FoldTableU | converter_novadax_koinly.py:11-12 | "úÚ" becomes "uu" |
| TextNormalizer.NormalizeCompra | converter_novadax_koinly.py:72 | "Compra" becomes "compra" |
| TextNormalizer.NormalizeTransacao | converter_novadax_koinly.py:72 | "Taxa de Transação" becomes "taxa de transacao" |
| TextNormalizer.NormalizeDeposito | converter_novadax_koinly.py:72 | "Depósito em Reais" becomes "deposito em reais" |
| DateConverter.IsValid | converter_novadax_koinly.py:20 | a valid date and time has fields that fit the widths `%d/%m/%Y %H:%M:%S` prints: four digits for the year, two for the others |
| DateConverter.Fields | converter_novadax_koinly.py:20 | the digit groups read from a well-laid-out text fit those widths |
| DateConverter.NovadaxText | converter_novadax_koinly.py:20 | the NovaDAX form of a time stamp is 19 characters long |
| DateConverter.KoinlyText | converter_novadax_koinly.py:21 | the Koinly form of a time stamp is 20 characters long |
| DateConverter.DaysInMonth | converter_novadax_koinly.py:20 | a month has 28 to 31 days, and 29 exactly for February of a Gregorian leap year |
| DateConverter.DecimalValueOfPadded | converter_novadax_koinly.py:20-21 | reading back a zero-padded field gives its value |
| DateConverter.PaddedOfDecimalValue | converter_novadax_koinly.py:20-21 | padding a digit field's value to the field's width gives the field back |
| DateConverter.ParseNovadax | converter_novadax_koinly.py:20 | a parsed time stamp is a valid date and time, and printing it in the NovaDAX form gives back exactly the parsed text |
| DateConverter.FieldsSpellText | converter_novadax_koinly.py:20 | the digit groups of a well-laid-out text, printed again, are the text |
| DateConverter.ParseNovadaxText | converter_novadax_koinly.py:20 | the printing and parsing round trip: a printed time stamp parses back to itself when it is valid, and is rejected when it is not |
| DateConverter.ConvertDate | converter_novadax_koinly.py:14-23 | the result is "Invalid Date" exactly when the text does not parse, in particular whenever the text is not the 19-character `DD/MM/YYYY HH:MM:SS` layout (wrong delimiters, trailing text); otherwise it is 20 characters long and holds the text's own digit groups as `YYYY-MM-DD HH:MM UTC` |
| DateConverter.ConvertValid | converter_novadax_koinly.py:19-21 | a valid time stamp converts to the Koinly form of the same date, hour and minute |
| DateConverter.ConvertDropsSeconds | converter_novadax_koinly.py:21 | the seconds are truncated: time stamps that differ only in their seconds convert alike |
| DateConverter.ConvertInvalid | converter_novadax_koinly.py:19-23 | a time stamp with an out-of-range field, or a day its month lacks, gives "Invalid Date" |
| DateConverter.ConvertSentinel | converter_novadax_koinly.py:22-23 | "Invalid Date" itself converts to "Invalid Date" |
| DateConverter.LeapDay | converter_novadax_koinly.py:20 | 29 February is rejected exactly in the years that are not leap years |
| DateConverter.RejectedExamples | converter_novadax_koinly.py:19-23 | month 13, hour 24, minute 60, second 60, 31 April and 29 February 2023 all give "Invalid Date" |
| NumericExtractor.AnnotationAt | converter_novadax_koinly.py:32 | a match of the annotation pattern at `i` ends after `i` and within the text |
| NumericExtractor.StripAnnotations | converter_novadax_koinly.py:32 | the removal never lengthens the text |
| NumericExtractor.FindClose | converter_novadax_koinly.py:32 | `[^)]*\)` ends at a `)` at or after the start, and fails only when there is none |
| NumericExtractor.AnnotationNeverMatches | converter_novadax_koinly.py:32 | the annotation pattern as written matches at no position of any text |
| NumericExtractor.StripAnnotationsIsIdentity | converter_novadax_koinly.py:31-32 | so the annotation removal returns every text unchanged |
| NumericExtractor.SkipSpaces | converter_novadax_koinly.py:35 | the greedy `\s*` stops at the first character that is not whitespace |
| NumericExtractor.SkipRunChars | converter_novadax_koinly.py:35 | the greedy `[\d.,]*` stops at the first character outside the class |
| NumericExtractor.LeadEnd | converter_novadax_koinly.py:35 | only an optional sign and whitespace stand before the place where the digit is needed |
| NumericExtractor.MatchAt | converter_novadax_koinly.py:35 | a match starts with the optional sign and whitespace, then a digit; it holds only digits, dots and commas from there and cannot be extended |
| NumericExtractor.MatchAtIff | converter_novadax_koinly.py:35 | the scanner finds a match from `i` to `e` exactly when that slice is a match of the pattern, both directions |
| NumericExtractor.FirstRun | converter_novadax_koinly.py:35-40 | the search reports a match with no match starting earlier, or reports none when no position starts one |
| NumericExtractor.FirstRunLeftmost | converter_novadax_koinly.py:35-40 | a match with none before it is the one the search reports: the first element of `re.findall` |
| NumericExtractor.FirstRunIffDigit | converter_novadax_koinly.py:35-37 | there is no match exactly when the text holds no digit |
| NumericExtractor.RemoveSpaces | converter_novadax_koinly.py:43 | the result holds no whitespace |
| NumericExtractor.CommasToDots | converter_novadax_koinly.py:46 | the length is kept and no comma is left |
| NumericExtractor.SplitDots | converter_novadax_koinly.py:49 | splitting gives at least one piece |
| NumericExtractor.SplitDotsAppend | converter_novadax_koinly.py:49 | splitting `a`, a dot, then `b` gives the pieces of `a` followed by the pieces of `b` |
| NumericExtractor.SplitDotsCount | converter_novadax_koinly.py:49-50 | a text splits into a single piece exactly when it has no dot |
| NumericExtractor.Join | converter_novadax_koinly.py:54 | joining pieces without dots gives text without dots |
| NumericExtractor.KeepLastDot | converter_novadax_koinly.py:49-54 | the decimal-point rule gives the empty text exactly for the empty text |
| NumericExtractor.JoinSplitDots | converter_novadax_koinly.py:49-54 | joining the pieces of a split gives the text without its dots |
| NumericExtractor.KeepLastDotSplit | converter_novadax_koinly.py:49-54 | the decimal-point rule on text whose last dot splits it into `a` and `b` gives `a` without dots, one dot, then `b` |
| NumericExtractor.KeepLastDotNoDot | converter_novadax_koinly.py:49-50 | text without a dot passes unchanged |
| NumericExtractor.KeepLastDotPrefix | converter_novadax_koinly.py:49-54 | a dot-free prefix such as the sign is untouched by the rule |
| NumericExtractor.KeepLastDotShape | converter_novadax_koinly.py:49-54 | on digits and dots, the rule leaves digits and at most one dot, keeps the digits in order and keeps a leading digit |
| NumericExtractor.CleanThenDropDots | converter_novadax_koinly.py:43-46 | cleaning and then dropping dots leaves the text without whitespace, dots and commas |
| NumericExtractor.ExtractNumericValue | converter_novadax_koinly.py:25-56 | the result is empty exactly when the search finds no number; what a found number becomes is stated by ExtractLastSeparator, ExtractWholeRun, ExtractShape, ExtractKeepsDigits and ExtractEmptyIffNoDigit |
| NumericExtractor.ExtractOfRun | converter_novadax_koinly.py:25-56 | the result is the cleaning of the leftmost run, the annotation step having no effect |
| NumericExtractor.ExtractLastSeparator | converter_novadax_koinly.py:42-54 | when the run's last dot or comma splits it into `x` and `y`, the result is `x` without whitespace, dots and commas, then a dot, then `y` |
| NumericExtractor.ExtractWholeRun | converter_novadax_koinly.py:42-56 | a run without dots or commas loses only its whitespace |
| NumericExtractor.ExtractSignAndBody | converter_novadax_koinly.py:35-54 | the result is the run's sign, if any, followed by the decimal-point rule on the body from its first digit |
| NumericExtractor.ExtractShape | converter_novadax_koinly.py:25-56 | every result is digits and dots with a sign only in front and at most one dot: no whitespace and no comma |
| NumericExtractor.ExtractKeepsSign | converter_novadax_koinly.py:27-54 | when a number is found the result is not empty, and starts with the run's sign when it has one, and otherwise with its first digit |
| NumericExtractor.ExtractEmptyIffNoDigit | converter_novadax_koinly.py:29-37 | the result is empty exactly when the text holds no digit |
| NumericExtractor.ExtractKeepsDigits | converter_novadax_koinly.py:27-54 | no digit is lost, added or moved: without its dots, the result is the leftmost run without whitespace, dots and commas |
| RowClassifier.HeaderLayout | converter_novadax_koinly.py:151-157 | the header and every converted row agree column by column: "Date" stands over the converted date, "Description" over the original type label, "Label" over the reward tag, which is "reward" exactly for a redeemed bonus, and the net-worth pair and "TxHash" over empty cells |
| RowClassifier.Classify | converter_novadax_koinly.py:88-122 | the chain's answer is the first rule, in source order, whose phrase occurs in the label; or no phrase occurs |
| RowClassifier.ClassifyIsFirstMatch | converter_novadax_koinly.py:88-122 | the chain's answer is the only kind that is the first match, both directions |
| RowClassifier.UppercaseAlphabet | converter_novadax_koinly.py:105 | the small letters a to z upper-case to A to Z, letter for letter |
| RowClassifier.IsBrl | converter_novadax_koinly.py:105 | a currency equal to BRL in upper case has three characters |
| RowClassifier.IsBrlIgnoresCase | converter_novadax_koinly.py:105 | `moeda.upper() == "BRL"` holds exactly for the three letters B, R, L in either case |
| RowClassifier.Book | converter_novadax_koinly.py:78-122 | the label is "reward" exactly for a redeemed bonus |
| RowClassifier.BookFillsOnePair | converter_novadax_koinly.py:88-122 | a branch fills at most one of the sent, received and fee pairs |
| RowClassifier.Cells | converter_novadax_koinly.py:125-138 | the Koinly row has twelve columns, and the net-worth pair and the transaction hash are empty |
| RowClassifier.ProcessRow | converter_novadax_koinly.py:58-138 | twelve columns always; a row of fewer than five fields is twelve "Invalid Row"; otherwise column 0 is the converted date, column 10 the original type label, and columns 7, 8 and 11 are empty |
| RowClassifier.ProcessIgnoresStatus | converter_novadax_koinly.py:66 | the status field and any later fields play no part |
| RowClassifier.AtMostOnePair | converter_novadax_koinly.py:88-122 | at most one of the sent, received and fee pairs of a converted row is filled |
| RowClassifier.FeeRows | converter_novadax_koinly.py:88-93 | both fee rules put the amount and the given currency in the fee pair and leave the sent and received pairs empty |
| RowClassifier.WithdrawalFeeMentionsWithdrawal | converter_novadax_koinly.py:91-119 | the withdrawal-fee phrase holds the withdrawal phrase |
| RowClassifier.FeeShadowsWithdrawal | converter_novadax_koinly.py:88-122 | a label holding "taxa de saque de criptomoedas" also holds "saque de criptomoedas", yet the row is a fee: the first match wins |
| RowClassifier.PurchaseDirection | converter_novadax_koinly.py:103-110 | a purchase in BRL, in any case, is sent with the currency written "BRL"; in any other currency it is received |
| RowClassifier.SaleDirection | converter_novadax_koinly.py:111-118 | a sale into BRL, in any case, is received with the currency written "BRL"; in any other currency it is sent |
| RowClassifier.InflowRows | converter_novadax_koinly.py:94-102 | deposits in reais and redeemed bonuses fill the received pair only |
| RowClassifier.WithdrawalRows | converter_novadax_koinly.py:119-122 | crypto withdrawals fill the sent pair only |
| RowClassifier.RewardLabel | converter_novadax_koinly.py:98-102 | the label column is "reward" exactly for redeemed bonuses and empty on every other well-formed row |
| RowClassifier.UnmatchedRow | converter_novadax_koinly.py:78-85 | a label that matches no rule leaves all six amount and currency columns empty |
| Converter.ConvertRows | converter_novadax_koinly.py:151-164 | the output is the Koinly header followed by the converted form of every input row after the first, in order: one row fewer than the input plus the header, and the header alone for an empty input; every output row has twelve columns |
| Examples.ChristmasConverts | converter_novadax_koinly.py:14-23 | "25/12/2023 10:00:00" becomes "2023-12-25 10:00 UTC" |
| Examples.ExtractSmallAmount | converter_novadax_koinly.py:25-56 | "R$ 0,0123" gives "0.0123" |
| Examples.ExtractSignedAmount | converter_novadax_koinly.py:25-56 | "+ 1,234.56" gives "+1234.56" |
| Examples.ExtractGroupedAmount | converter_novadax_koinly.py:48-54 | "1.234.567" gives "1234.567" |
| Examples.ExtractThousand | converter_novadax_koinly.py:48-54 | "1.234" stays "1.234" |
| Examples.ExtractAnnotatedAmount | converter_novadax_koinly.py:31-40 | "(≈R$50,00) -89,10" gives "50.00": the annotation is not removed |
| Examples.ExtractNoNumber | converter_novadax_koinly.py:36-37 | text without a digit gives the empty string |
| Examples.ExtractEmptyText | converter_novadax_koinly.py:36-37 | the empty text gives the empty string |

## Left out

- File handling, the UTF-8 encoding, `csv.reader` and `csv.writer` quoting, and the `__main__` block with its `print` (lines 144-148 and 166-170). These are I/O; the model takes and returns rows as sequences of strings.
- TextNormalizer.Normalize: the full Unicode tables behind `unicodedata.normalize`, `unicodedata.combining` and `str.lower` are not modelled. Accented letters outside the Portuguese set, compatibility decompositions (ligatures, full-width forms), non-ASCII case mappings, and combining marks outside U+0300 to U+036F (the blocks U+1AB0 to U+1AFF, U+1DC0 to U+1DFF, U+20D0 to U+20FF and U+FE20 to U+FE2F, which Python drops) are kept as they are.
- RowClassifier.IsBrl: `str.upper` is modelled on ASCII only. A non-ASCII character whose Unicode upper case is an ASCII letter is not modelled.
- DateConverter.ConvertDate: it accepts only the fixed-width form. `strptime` also accepts one-digit day, month and time fields and several whitespace characters for the format's space, and its `\d` also takes non-ASCII digits. In `strptime`'s patterns `\d` stands for the year's four digits, the second digit of the day, hour, minute and second, and a one-digit hour, minute or second; the month and the first digit of the day are ASCII only. So "2５/12/２０２３ 1０:0０:0０" parses in Python, and the model rejects it and gives "Invalid Date".
- DateConverter.ConvertDate: years 1 to 999 are written with four zero-padded digits. The C library behind `strftime`'s `%Y` may print them unpadded, so for those years the output is the model's choice.
- NumericExtractor.MatchAt: `\d` and `\s` are read as ASCII digits and ASCII whitespace. Python's Unicode classes also hold other scripts' digits and further space characters, among them the ASCII separators U+001C to U+001F, which `\s` matches and the model does not.
- The amounts are never read as numbers, as in the source, so no rounding or numeric value is modelled.
