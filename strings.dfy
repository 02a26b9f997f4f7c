/** Character classes and the substring test shared by the converter's components. */
module Strings {

  /** ASCII decimal digit: the model's reading of the regular-expression class `\d`. */
  predicate IsDigit(c: char) {
    '0' <= c <= '9'
  }

  /** The six whitespace characters of Python's `string.whitespace`: the model's reading of
      the regular-expression class `\s`, which in Python also takes U+001C to U+001F and
      the non-ASCII spaces. */
  predicate IsSpace(c: char) {
    c == ' ' || c == '\t' || c == '\n' || c == '\r' || c == '\U{B}' || c == '\U{C}'
  }

  predicate IsAsciiUpper(c: char) {
    'A' <= c <= 'Z'
  }

  predicate IsAsciiLower(c: char) {
    'a' <= c <= 'z'
  }

  /** A capital becomes the small letter at the same place of the alphabet. */
  function ToAsciiLower(c: char): (d: char)
    ensures !IsAsciiUpper(d)
    ensures IsAsciiUpper(c) ==> IsAsciiLower(d) && d as int - 'a' as int == c as int - 'A' as int
    ensures !IsAsciiUpper(c) ==> d == c
  {
    if IsAsciiUpper(c) then (c as int + 32) as char else c
  }

  /** A small letter becomes the capital at the same place of the alphabet. */
  function ToAsciiUpper(c: char): (d: char)
    ensures !IsAsciiLower(d)
    ensures IsAsciiLower(c) ==> IsAsciiUpper(d) && d as int - 'A' as int == c as int - 'a' as int
    ensures !IsAsciiLower(c) ==> d == c
  {
    if IsAsciiLower(c) then (c as int - 32) as char else c
  }

  /** The two case maps undo each other on the letters they change. */
  lemma CaseRoundTrip(c: char)
    ensures IsAsciiUpper(c) ==> ToAsciiUpper(ToAsciiLower(c)) == c
    ensures IsAsciiLower(c) ==> ToAsciiLower(ToAsciiUpper(c)) == c
  {
  }

  /** `p` occurs in `s` at index `i`. */
  predicate OccursAt(s: string, p: string, i: nat) {
    i <= |s| && p <= s[i..]
  }

  /** Python's `p in s` on strings, as a left-to-right scan over the start positions. */
  function Contains(s: string, p: string): (b: bool)
    ensures p == [] ==> b
    ensures b ==> |p| <= |s|
    decreases |s|
  {
    if p <= s then true
    else if s == [] then false
    else Contains(s[1..], p)
  }

  /** Moving the scan one character right shifts every occurrence index by one. */
  lemma OccursAtTail(s: string, p: string, i: nat)
    requires s != []
    ensures OccursAt(s[1..], p, i) <==> OccursAt(s, p, i + 1)
  {
    if i + 1 <= |s| {
      assert s[1..][i..] == s[i + 1..];
    }
  }

  /** The scan finds `p` exactly when `p` occurs somewhere in `s`. */
  lemma {:induction false} ContainsIff(s: string, p: string)
    ensures Contains(s, p) <==> exists i: nat :: OccursAt(s, p, i)
    decreases |s|
  {
    if p <= s {
      assert s[0..] == s;
      assert OccursAt(s, p, 0);
    } else if s != [] {
      ContainsIff(s[1..], p);
      if Contains(s[1..], p) {
        var i: nat :| OccursAt(s[1..], p, i);
        OccursAtTail(s, p, i);
      } else {
        forall i: nat ensures !OccursAt(s, p, i) {
          if i == 0 {
            assert s[i..] == s;
          } else {
            OccursAtTail(s, p, i - 1);
          }
        }
      }
    }
  }

  /** An occurrence found at a known index is found by the scan. */
  lemma ContainsAt(s: string, p: string, i: nat)
    requires OccursAt(s, p, i)
    ensures Contains(s, p)
  {
    ContainsIff(s, p);
  }

  /** Containment is transitive: a string holding `q` holds every substring `p` of `q`. */
  lemma ContainsTransitive(s: string, q: string, p: string)
    requires Contains(s, q) && Contains(q, p)
    ensures Contains(s, p)
  {
    ContainsIff(s, q);
    ContainsIff(q, p);
    var i: nat :| OccursAt(s, q, i);
    var j: nat :| OccursAt(q, p, j);
    assert s[i..][j..] == s[i + j..];
    assert q[j..] <= s[i..][j..];
    ContainsAt(s, p, i + j);
  }
}
