/**
 * The text normaliser (`normalize_str`): compatibility decomposition (Unicode Standard
 * Annex #15, form NFKD), removal of combining marks, then lower case. The model decomposes
 * the accented Portuguese letters the classifier meets, drops the combining diacritical
 * marks and lower-cases ASCII; every other character is kept as it is.
 */
module TextNormalizer {
  import opened Strings

  /** A combining diacritical mark: the block U+0300..U+036F, whose members all have a
      non-zero canonical combining class except U+034F COMBINING GRAPHEME JOINER. */
  predicate IsCombiningMark(c: char) {
    '\U{300}' <= c <= '\U{36F}' && c != '\U{34F}'
  }

  /** The base letter, lower-cased, that NFKD puts in front of the combining mark of a
      Portuguese accented letter; any other character is its own base. */
  function AccentBase(c: char): char {
    match c
    case 'á' | 'à' | 'â' | 'ã' | 'Á' | 'À' | 'Â' | 'Ã' => 'a'
    case 'ç' | 'Ç' => 'c'
    case 'é' | 'ê' | 'É' | 'Ê' => 'e'
    case 'í' | 'Í' => 'i'
    case 'ó' | 'ô' | 'õ' | 'Ó' | 'Ô' | 'Õ' => 'o'
    case 'ú' | 'Ú' => 'u'
    case _ => c
  }

  /** A Portuguese accented letter, which NFKD splits into a base letter and a combining mark. */
  predicate IsAccented(c: char) {
    AccentBase(c) != c
  }

  /** A character the normaliser leaves as it is. */
  predicate IsFolded(c: char) {
    !IsAsciiUpper(c) && !IsCombiningMark(c) && !IsAccented(c)
  }

  predicate IsAscii(c: char) {
    c < '\U{80}'
  }

  /** What one character becomes: nothing for a combining mark, the lower-case base letter for
      an accented letter, the ASCII lower case otherwise. */
  function FoldChar(c: char): (r: string)
    ensures |r| <= 1
    ensures forall i :: 0 <= i < |r| ==> IsFolded(r[i])
    ensures IsFolded(c) ==> r == [c]
    ensures IsCombiningMark(c) ==> r == []
    ensures IsAccented(c) ==> |r| == 1 && IsAsciiLower(r[0])
  {
    if IsCombiningMark(c) then []
    else if IsAccented(c) then [AccentBase(c)]
    else [ToAsciiLower(c)]
  }

  /** `normalize_str`. The result never grows and holds only characters the normaliser fixes. */
  function Normalize(s: string): (r: string)
    ensures |r| <= |s|
    ensures forall i :: 0 <= i < |r| ==> IsFolded(r[i])
  {
    if s == [] then [] else FoldChar(s[0]) + Normalize(s[1..])
  }

  /** ASCII lower case of a whole string, character by character: the reference the
      normaliser agrees with on ASCII text. */
  function AsciiLowercase(s: string): (r: string)
    ensures |r| == |s|
  {
    seq(|s|, i requires 0 <= i < |s| => ToAsciiLower(s[i]))
  }

  /** Normalising works character by character, so it distributes over concatenation. */
  lemma {:induction false} NormalizeAppend(a: string, b: string)
    ensures Normalize(a + b) == Normalize(a) + Normalize(b)
    decreases |a|
  {
    if a == [] {
      assert a + b == b;
    } else {
      assert (a + b)[0] == a[0];
      assert (a + b)[1..] == a[1..] + b;
      NormalizeAppend(a[1..], b);
    }
  }

  /** Text that is already normalised is left unchanged. */
  lemma {:induction false} NormalizeFixesFolded(s: string)
    requires forall i :: 0 <= i < |s| ==> IsFolded(s[i])
    ensures Normalize(s) == s
    decreases |s|
  {
    if s != [] {
      NormalizeFixesFolded(s[1..]);
    }
  }

  /** Normalising twice is normalising once. */
  lemma NormalizeIdempotent(s: string)
    ensures Normalize(Normalize(s)) == Normalize(s)
  {
    NormalizeFixesFolded(Normalize(s));
  }

  /** On ASCII text the normaliser is exactly ASCII lower-casing: `"Compra"` becomes `"compra"`. */
  lemma {:induction false} NormalizeAscii(s: string)
    requires forall i :: 0 <= i < |s| ==> IsAscii(s[i])
    ensures Normalize(s) == AsciiLowercase(s)
    decreases |s|
  {
    if s != [] {
      NormalizeAscii(s[1..]);
      assert FoldChar(s[0]) == [ToAsciiLower(s[0])];
      assert AsciiLowercase(s) == [ToAsciiLower(s[0])] + AsciiLowercase(s[1..]);
    }
  }

  /** ASCII lower-casing sends each capital to the small letter of the same name. */
  lemma LowercaseAlphabet(capitals: string)
    requires capitals == "ABCDEFGHIJKLMNOPQRSTUVWXYZ"
    ensures AsciiLowercase(capitals) == "abcdefghijklmnopqrstuvwxyz"
  {
  }

  // The examples below take their texts as parameters pinned by `requires`: with a literal
  // argument the verifier keeps unfolding `Normalize` on it.

  /** An ASCII word is only lower-cased: "Compra" becomes "compra". */
  lemma NormalizeCompra(s: string)
    requires s == "Compra"
    ensures Normalize(s) == "compra"
  {
    assert forall k :: 0 <= k < |s| ==> IsAscii(s[k]);
    assert AsciiLowercase(s) == "compra";
    NormalizeAscii(s);
  }

  /** Accented letters fold to their base letter: "Taxa de Transação" becomes
      "taxa de transacao" (written as the ASCII part and the accented tail). */
  lemma NormalizeTransacao(plain: string, accented: string)
    requires plain == "Taxa de Transa" && accented == "ção"
    ensures Normalize(plain + accented) == "taxa de transa" + "cao"
  {
    assert Normalize(plain) == "taxa de transa" by {
      assert forall k :: 0 <= k < |plain| ==> IsAscii(plain[k]);
      assert AsciiLowercase(plain) == "taxa de transa";
      NormalizeAscii(plain);
    }
    assert Normalize(accented) == "cao" by {
      NormalizeCharwise(accented, "cao");
    }
    NormalizeAppend(plain, accented);
  }

  /** When every character folds to the character at the same place of `t`, the text
      normalises to `t`. */
  lemma {:induction false} NormalizeCharwise(s: string, t: string)
    requires |s| == |t|
    requires forall k :: 0 <= k < |s| ==> FoldChar(s[k]) == [t[k]]
    ensures Normalize(s) == t
    decreases |s|
  {
    if s != [] {
      NormalizeCharwise(s[1..], t[1..]);
      assert t == [t[0]] + t[1..];
    }
  }

  // The fold table, letter by letter: every accented form of a, c, e, i, o and u folds to
  // the plain small letter. Each row takes its text as a parameter pinned by `requires`.

  lemma FoldTableA(s: string)
    requires s == "áàâãÁÀÂÃ"
    ensures Normalize(s) == "aaaaaaaa"
  {
    FoldsTo(s, "aaaaaaaa");
  }

  lemma FoldTableC(s: string)
    requires s == "çÇ"
    ensures Normalize(s) == "cc"
  {
    FoldsTo(s, "cc");
  }

  lemma FoldTableE(s: string)
    requires s == "éêÉÊ"
    ensures Normalize(s) == "eeee"
  {
    FoldsTo(s, "eeee");
  }

  lemma FoldTableI(s: string)
    requires s == "íÍ"
    ensures Normalize(s) == "ii"
  {
    FoldsTo(s, "ii");
  }

  lemma FoldTableO(s: string)
    requires s == "óôõÓÔÕ"
    ensures Normalize(s) == "oooooo"
  {
    FoldsTo(s, "oooooo");
  }

  lemma FoldTableU(s: string)
    requires s == "úÚ"
    ensures Normalize(s) == "uu"
  {
    FoldsTo(s, "uu");
  }

  /** One row of the fold table: each character of `s` is an accented form of the one letter
      `t` repeats. */
  lemma FoldsTo(s: string, t: string)
    requires |s| == |t| && |t| > 0
    requires forall k :: 0 <= k < |t| ==> t[k] == t[0]
    requires forall k :: 0 <= k < |s| ==> IsAccented(s[k]) && AccentBase(s[k]) == t[0]
    ensures Normalize(s) == t
  {
    NormalizeCharwise(s, t);
  }

  /** The deposit label folds to the phrase the deposit rule looks for: "Depósito em Reais"
      becomes "deposito em reais" (written as the ASCII head, the accented letter and the
      ASCII tail). */
  lemma NormalizeDeposito(head: string, accented: string, tail: string)
    requires head == "Dep" && accented == "ó" && tail == "sito em Reais"
    ensures Normalize(head + accented + tail) == "dep" + "o" + "sito em reais"
  {
    assert Normalize(head) == "dep" by {
      assert forall k :: 0 <= k < |head| ==> IsAscii(head[k]);
      assert AsciiLowercase(head) == "dep";
      NormalizeAscii(head);
    }
    assert Normalize(accented) == "o" by {
      assert FoldChar(accented[0]) == "o";
    }
    assert Normalize(tail) == "sito em reais" by {
      assert forall k :: 0 <= k < |tail| ==> IsAscii(tail[k]);
      assert AsciiLowercase(tail) == "sito em reais";
      NormalizeAscii(tail);
    }
    NormalizeAppend(head, accented);
    NormalizeAppend(head + accented, tail);
  }
}
