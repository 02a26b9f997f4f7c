/**
 * The row mapper (`process_novadax_row`): one row of the NovaDAX export (date, type label,
 * currency, amount text, status) becomes one twelve-column Koinly row. The type label is
 * normalised and tested against seven phrases in a fixed order; the first phrase found
 * decides which of the sent, received and fee column pairs receives the amount.
 */
module RowClassifier {
  import opened Strings
  import opened TextNormalizer
  import opened DateConverter
  import opened NumericExtractor

  const InvalidRow: string := "Invalid Row"

  /** The number of columns of a Koinly row. */
  const Width: nat := 12

  /** Koinly's column names, in order. */
  const Header: seq<string> := [
    "Date", "Sent Amount", "Sent Currency", "Received Amount", "Received Currency",
    "Fee Amount", "Fee Currency", "Net Worth Amount", "Net Worth Currency",
    "Label", "Description", "TxHash"
  ]


  /** The rules of the chain, in the order they are tested, and the case where none applies. */
  datatype Kind =
    | TransactionFee | WithdrawalFee | FiatDeposit | RedeemedBonus
    | Purchase | Sale | CryptoWithdrawal | Unmatched

  /** The phrase a rule looks for in the normalised type label. */
  function Phrase(k: Kind): (p: string)
    requires k != Unmatched
    ensures p != []
  {
    match k
    case TransactionFee => "taxa de transacao"
    case WithdrawalFee => "taxa de saque de criptomoedas"
    case FiatDeposit => "deposito em reais"
    case RedeemedBonus => "redeemed bonus"
    case Purchase => "compra"
    case Sale => "venda"
    case CryptoWithdrawal => "saque de criptomoedas"
  }

  /** The position of a rule in the chain; the unmatched case comes after all of them. */
  function Rank(k: Kind): (n: nat)
    ensures n <= 7 && (n == 7 <==> k == Unmatched)
  {
    match k
    case TransactionFee => 0
    case WithdrawalFee => 1
    case FiatDeposit => 2
    case RedeemedBonus => 3
    case Purchase => 4
    case Sale => 5
    case CryptoWithdrawal => 6
    case Unmatched => 7
  }

  /** `k` is the first rule, in chain order, whose phrase occurs in `typeText`; or no rule's
      phrase occurs and `k` is the unmatched case. */
  predicate IsFirstMatch(typeText: string, k: Kind) {
    && (k != Unmatched ==> Contains(typeText, Phrase(k)))
    && forall j: Kind :: Rank(j) < Rank(k) ==> !Contains(typeText, Phrase(j))
  }

  /** The `if`/`elif` chain of lines 88-122, on the normalised label. */
  function Classify(typeText: string): (k: Kind)
    ensures IsFirstMatch(typeText, k)
  {
    if Contains(typeText, Phrase(TransactionFee)) then TransactionFee
    else if Contains(typeText, Phrase(WithdrawalFee)) then WithdrawalFee
    else if Contains(typeText, Phrase(FiatDeposit)) then FiatDeposit
    else if Contains(typeText, Phrase(RedeemedBonus)) then RedeemedBonus
    else if Contains(typeText, Phrase(Purchase)) then Purchase
    else if Contains(typeText, Phrase(Sale)) then Sale
    else if Contains(typeText, Phrase(CryptoWithdrawal)) then CryptoWithdrawal
    else Unmatched
  }

  lemma RankInjective(a: Kind, b: Kind)
    requires Rank(a) == Rank(b)
    ensures a == b
  {
  }

  /** The chain's answer is the only kind that is the first match: the classification is
      exactly "the earliest rule whose phrase occurs". */
  lemma ClassifyIsFirstMatch(typeText: string, k: Kind)
    ensures Classify(typeText) == k <==> IsFirstMatch(typeText, k)
  {
    var c := Classify(typeText);
    if IsFirstMatch(typeText, k) && Rank(c) == Rank(k) {
      RankInjective(c, k);
    }
  }

  /** ASCII upper case of a whole string. */
  function AsciiUppercase(s: string): (r: string)
    ensures |r| == |s|
  {
    seq(|s|, i requires 0 <= i < |s| => ToAsciiUpper(s[i]))
  }

  /** ASCII upper-casing sends each small letter to the capital of the same name. */
  lemma UppercaseAlphabet(smalls: string)
    requires smalls == "abcdefghijklmnopqrstuvwxyz"
    ensures AsciiUppercase(smalls) == "ABCDEFGHIJKLMNOPQRSTUVWXYZ"
  {
  }

  /** `moeda.upper() == "BRL"`. */
  predicate IsBrl(currency: string)
    ensures IsBrl(currency) ==> |currency| == 3
  {
    AsciiUppercase(currency) == "BRL"
  }

  /** The comparison ignores case, and only case. */
  lemma IsBrlIgnoresCase(currency: string)
    ensures IsBrl(currency) <==>
      |currency| == 3 && currency[0] in "Bb" && currency[1] in "Rr" && currency[2] in "Ll"
  {
    if |currency| == 3 {
      var u := AsciiUppercase(currency);
      assert u == "BRL" <==> u[0] == 'B' && u[1] == 'R' && u[2] == 'L';
    }
  }

  /** The seven locals of lines 78-84 after the chain has run. */
  datatype Posting = Posting(
    sentAmount: string, sentCurrency: string,
    receivedAmount: string, receivedCurrency: string,
    feeAmount: string, feeCurrency: string,
    rowLabel: string)

  const Blank: Posting := Posting("", "", "", "", "", "", "")

  /** The branch bodies of lines 88-122: which pair receives the amount, and the currency
      written beside it. */
  function Book(k: Kind, currency: string, amount: string): (p: Posting)
    ensures p.rowLabel == (if k == RedeemedBonus then "reward" else "")
  {
    match k
    case TransactionFee => Blank.(feeAmount := amount, feeCurrency := currency)
    case WithdrawalFee => Blank.(feeAmount := amount, feeCurrency := currency)
    case FiatDeposit => Blank.(receivedAmount := amount, receivedCurrency := currency)
    case RedeemedBonus =>
      Blank.(receivedAmount := amount, receivedCurrency := currency, rowLabel := "reward")
    case Purchase =>
      if IsBrl(currency) then Blank.(sentAmount := amount, sentCurrency := "BRL")
      else Blank.(receivedAmount := amount, receivedCurrency := currency)
    case Sale =>
      if IsBrl(currency) then Blank.(receivedAmount := amount, receivedCurrency := "BRL")
      else Blank.(sentAmount := amount, sentCurrency := currency)
    case CryptoWithdrawal => Blank.(sentAmount := amount, sentCurrency := currency)
    case Unmatched => Blank
  }

  /** The Koinly row: the posting's columns around the date and the description, with the
      net-worth pair and the transaction hash left empty. */
  function Cells(date: string, p: Posting, description: string): (r: seq<string>)
    ensures |r| == Width
    ensures r[7] == "" && r[8] == "" && r[11] == ""
  {
    [date, p.sentAmount, p.sentCurrency, p.receivedAmount, p.receivedCurrency,
     p.feeAmount, p.feeCurrency, "", "", p.rowLabel, description, ""]
  }

  /** The kind the row's type label is classified as. */
  function KindOf(row: seq<string>): Kind
    requires |row| >= 5
  {
    Classify(Normalize(row[1]))
  }

  /** `process_novadax_row`. A row of fewer than five fields is twelve sentinels; otherwise
      the date is converted, the description is the label as given, and the three unused
      columns are empty. */
  function ProcessRow(row: seq<string>): (r: seq<string>)
    ensures |r| == Width
    ensures |row| < 5 ==> forall i :: 0 <= i < Width ==> r[i] == InvalidRow
    ensures |row| >= 5 ==>
      && r[0] == ConvertDate(row[0]) && r[10] == row[1]
      && r[7] == "" && r[8] == "" && r[11] == ""
  {
    if |row| < 5 then seq(Width, _ => InvalidRow)
    else
      var date := ConvertDate(row[0]);
      var kind := Classify(Normalize(row[1]));
      var amount := ExtractNumericValue(row[3]);
      Cells(date, Book(kind, row[2], amount), row[1])
  }

  /** The status field and any field after it play no part: rows that agree on their first
      four fields map alike. */
  lemma ProcessIgnoresStatus(row: seq<string>, other: seq<string>)
    requires |row| >= 5 && |other| >= 5 && row[..4] == other[..4]
    ensures ProcessRow(row) == ProcessRow(other)
  {
    assert row[0] == row[..4][0] && row[1] == row[..4][1];
    assert row[2] == row[..4][2] && row[3] == row[..4][3];
    assert other[0] == other[..4][0] && other[1] == other[..4][1];
    assert other[2] == other[..4][2] && other[3] == other[..4][3];
  }

  /** The amount and label columns of a well-formed row are those of the posting its kind,
      currency and amount text book. */
  lemma ProcessRowColumns(row: seq<string>)
    requires |row| >= 5
    ensures var r := ProcessRow(row); var p := Book(KindOf(row), row[2], ExtractNumericValue(row[3]));
      && r[1] == p.sentAmount && r[2] == p.sentCurrency
      && r[3] == p.receivedAmount && r[4] == p.receivedCurrency
      && r[5] == p.feeAmount && r[6] == p.feeCurrency && r[9] == p.rowLabel
  {
    var p := Book(KindOf(row), row[2], ExtractNumericValue(row[3]));
    assert ProcessRow(row) == Cells(ConvertDate(row[0]), p, row[1]);
  }

  /** An amount and currency pair holds something. */
  predicate Filled(amount: string, currency: string) {
    amount != "" || currency != ""
  }

  /** Column pair `i`, `i + 1` holds something. */
  predicate PairUsed(r: seq<string>, i: nat)
    requires i + 1 < |r|
  {
    Filled(r[i], r[i + 1])
  }

  /** A posting fills at most one of its three pairs. */
  lemma BookFillsOnePair(k: Kind, currency: string, amount: string)
    ensures var p := Book(k, currency, amount);
      && !(Filled(p.sentAmount, p.sentCurrency) && Filled(p.receivedAmount, p.receivedCurrency))
      && !(Filled(p.sentAmount, p.sentCurrency) && Filled(p.feeAmount, p.feeCurrency))
      && !(Filled(p.receivedAmount, p.receivedCurrency) && Filled(p.feeAmount, p.feeCurrency))
  {
  }

  /** At most one of the sent, received and fee pairs is filled in. */
  lemma AtMostOnePair(row: seq<string>)
    requires |row| >= 5
    ensures var r := ProcessRow(row);
      && !(PairUsed(r, 1) && PairUsed(r, 3))
      && !(PairUsed(r, 1) && PairUsed(r, 5))
      && !(PairUsed(r, 3) && PairUsed(r, 5))
  {
    ProcessRowColumns(row);
    BookFillsOnePair(KindOf(row), row[2], ExtractNumericValue(row[3]));
  }

  /** Both fee rules put the amount and the currency as given in the fee pair, and nothing in
      the sent and received pairs. */
  lemma FeeRows(row: seq<string>)
    requires |row| >= 5 && KindOf(row) in {TransactionFee, WithdrawalFee}
    ensures var r := ProcessRow(row);
      && r[5] == ExtractNumericValue(row[3]) && r[6] == row[2]
      && r[1] == "" && r[2] == "" && r[3] == "" && r[4] == ""
  {
    ProcessRowColumns(row);
  }

  /** The withdrawal-fee phrase holds the withdrawal phrase, from its ninth character on. */
  lemma WithdrawalFeeMentionsWithdrawal()
    ensures Contains(Phrase(WithdrawalFee), Phrase(CryptoWithdrawal))
  {
    assert OccursAt(Phrase(WithdrawalFee), Phrase(CryptoWithdrawal), 8) by {
      assert Phrase(WithdrawalFee)[8..] == Phrase(CryptoWithdrawal);
    }
    ContainsAt(Phrase(WithdrawalFee), Phrase(CryptoWithdrawal), 8);
  }

  /** The first match wins: a label holding "taxa de saque de criptomoedas" also holds
      "saque de criptomoedas", yet the row is a fee and not a withdrawal. */
  lemma FeeShadowsWithdrawal(row: seq<string>)
    requires |row| >= 5 && Contains(Normalize(row[1]), "taxa de saque de criptomoedas")
    ensures Contains(Normalize(row[1]), Phrase(CryptoWithdrawal))
    ensures KindOf(row) in {TransactionFee, WithdrawalFee}
    ensures var r := ProcessRow(row);
      r[5] == ExtractNumericValue(row[3]) && r[1] == "" && r[2] == ""
  {
    WithdrawalFeeMentionsWithdrawal();
    ContainsTransitive(Normalize(row[1]), Phrase(WithdrawalFee), Phrase(CryptoWithdrawal));
    FeeRows(row);
  }

  /** A purchase paid in reais is money sent, written as "BRL"; a purchase in any other
      currency is the crypto received. */
  lemma PurchaseDirection(row: seq<string>)
    requires |row| >= 5 && KindOf(row) == Purchase
    ensures var r := ProcessRow(row); var amount := ExtractNumericValue(row[3]);
      if IsBrl(row[2]) then r[1] == amount && r[2] == "BRL" && r[3] == "" && r[4] == ""
      else r[3] == amount && r[4] == row[2] && r[1] == "" && r[2] == ""
    ensures ProcessRow(row)[5] == "" && ProcessRow(row)[6] == ""
  {
    ProcessRowColumns(row);
  }

  /** A sale into reais is money received, written as "BRL"; a sale in any other currency is
      the crypto sent. */
  lemma SaleDirection(row: seq<string>)
    requires |row| >= 5 && KindOf(row) == Sale
    ensures var r := ProcessRow(row); var amount := ExtractNumericValue(row[3]);
      if IsBrl(row[2]) then r[3] == amount && r[4] == "BRL" && r[1] == "" && r[2] == ""
      else r[1] == amount && r[2] == row[2] && r[3] == "" && r[4] == ""
    ensures ProcessRow(row)[5] == "" && ProcessRow(row)[6] == ""
  {
    ProcessRowColumns(row);
  }

  /** Deposits in reais and redeemed bonuses are money received. */
  lemma InflowRows(row: seq<string>)
    requires |row| >= 5 && KindOf(row) in {FiatDeposit, RedeemedBonus}
    ensures var r := ProcessRow(row);
      && r[3] == ExtractNumericValue(row[3]) && r[4] == row[2]
      && r[1] == "" && r[2] == "" && r[5] == "" && r[6] == ""
  {
    ProcessRowColumns(row);
  }

  /** Crypto withdrawals are sent. */
  lemma WithdrawalRows(row: seq<string>)
    requires |row| >= 5 && KindOf(row) == CryptoWithdrawal
    ensures var r := ProcessRow(row);
      && r[1] == ExtractNumericValue(row[3]) && r[2] == row[2]
      && r[3] == "" && r[4] == "" && r[5] == "" && r[6] == ""
  {
    ProcessRowColumns(row);
  }

  /** The label column is "reward" exactly for redeemed bonuses, and empty on every other
      well-formed row. */
  lemma RewardLabel(row: seq<string>)
    requires |row| >= 5
    ensures ProcessRow(row)[9] == "reward" <==> KindOf(row) == RedeemedBonus
    ensures KindOf(row) != RedeemedBonus ==> ProcessRow(row)[9] == ""
  {
    ProcessRowColumns(row);
  }

  /** The header and the converted rows agree column by column: under "Date" stands the
      converted date, under "Description" the original type label, under "Label" the reward
      tag of a redeemed bonus, and the net-worth pair and "TxHash" stay empty. */
  lemma HeaderLayout(row: seq<string>)
    requires |row| >= 5
    ensures |Header| == |ProcessRow(row)| == Width
    ensures forall i :: 0 <= i < Width ==>
      && (Header[i] == "Date" ==> ProcessRow(row)[i] == ConvertDate(row[0]))
      && (Header[i] == "Description" ==> ProcessRow(row)[i] == row[1])
      && (Header[i] == "Label" ==> (ProcessRow(row)[i] == "reward" <==> KindOf(row) == RedeemedBonus))
      && (Header[i] in {"Net Worth Amount", "Net Worth Currency", "TxHash"} ==> ProcessRow(row)[i] == "")
  {
    var r := ProcessRow(row);
    RewardLabel(row);
    forall i | 0 <= i < Width
      ensures && (Header[i] == "Date" ==> r[i] == ConvertDate(row[0]))
              && (Header[i] == "Description" ==> r[i] == row[1])
              && (Header[i] == "Label" ==> (r[i] == "reward" <==> KindOf(row) == RedeemedBonus))
              && (Header[i] in {"Net Worth Amount", "Net Worth Currency", "TxHash"} ==> r[i] == "")
    {
      HeaderColumn(i);
    }
  }

  /** Where each name the converter fills by itself stands in the header. */
  lemma HeaderColumn(i: nat)
    requires i < Width
    ensures Header[i] == "Date" ==> i == 0
    ensures Header[i] == "Label" ==> i == 9
    ensures Header[i] == "Description" ==> i == 10
    ensures Header[i] in {"Net Worth Amount", "Net Worth Currency", "TxHash"} ==> i == 7 || i == 8 || i == 11
  {
    if i == 0 {
    } else if i < 7 {
    } else if i < 9 {
    } else if i == 9 {
    } else if i == 10 {
    } else {
    }
  }

  /** A label that matches no rule leaves all six amount and currency columns empty. */
  lemma UnmatchedRow(row: seq<string>)
    requires |row| >= 5 && forall k: Kind :: k != Unmatched ==> !Contains(Normalize(row[1]), Phrase(k))
    ensures forall i :: 1 <= i <= 6 ==> ProcessRow(row)[i] == ""
  {
    ClassifyIsFirstMatch(Normalize(row[1]), Unmatched);
    ProcessRowColumns(row);
  }
}
