/**
 * Character classes used by the hand-written regular-expression matchers,
 * and the maximal run of characters of one class.
 *
 * Python's `re` module classifies `\d`, `\s` and `\w` over all of Unicode for
 * `str` patterns; this model classifies the ASCII characters only.
 */
module Chars {

  /** `\d`: an ASCII decimal digit. */
  predicate IsDigit(c: char) {
    '0' <= c <= '9'
  }

  /** `[A-Za-z]`. */
  predicate IsLetter(c: char) {
    'A' <= c <= 'Z' || 'a' <= c <= 'z'
  }

  /** `\w`: the characters on the inside of a word boundary `\b`. */
  predicate IsWord(c: char) {
    IsLetter(c) || IsDigit(c) || c == '_'
  }

  /** `\s`: space, tab, line feed, vertical tab, form feed, carriage return and the
      information separators U+001C..U+001F, which Python also counts as white space. */
  predicate IsSpace(c: char) {
    c == ' ' || '\t' <= c <= '\r' || '\U{1C}' <= c <= '\U{1F}'
  }

  /** The bracketed character classes that occur in the router's patterns. */
  datatype Class =
    | EmailLocal   // [A-Za-z0-9._%+-]
    | EmailDomain  // [A-Za-z0-9.-]
    | Letter       // [A-Za-z]
    | PhoneBody    // [\d\-\s]
    | CardSep      // [ -]

  predicate In(c: char, k: Class) {
    match k
    case EmailLocal => IsLetter(c) || IsDigit(c) || c in "._%+-"
    case EmailDomain => IsLetter(c) || IsDigit(c) || c == '.' || c == '-'
    case Letter => IsLetter(c)
    case PhoneBody => IsDigit(c) || c == '-' || IsSpace(c)
    case CardSep => c == ' ' || c == '-'
  }

  /** Every character of `s` belongs to class `k`. */
  predicate All(s: seq<char>, k: Class) {
    forall i :: 0 <= i < |s| ==> In(s[i], k)
  }

  /** Length of the longest prefix of `s` whose characters all belong to `k`:
      what a greedy `k*` consumes before it backtracks. */
  function Run(s: seq<char>, k: Class): (n: nat)
    ensures n <= |s|
    ensures All(s[..n], k)
    ensures n == |s| || !In(s[n], k)
  {
    if |s| == 0 || !In(s[0], k) then 0
    else
      var rest := Run(s[1..], k);
      assert s[..1 + rest] == [s[0]] + s[1..][..rest];
      1 + rest
  }

  /** No prefix of class `k` is longer than the maximal one. */
  lemma RunIsMaximal(s: seq<char>, k: Class, n: nat)
    requires n <= |s| && All(s[..n], k)
    ensures n <= Run(s, k)
  {
    assert forall i :: 0 <= i < n ==> In(s[i], k) by {
      forall i | 0 <= i < n ensures In(s[i], k) {
        assert s[..n][i] == s[i];
      }
    }
  }


  /** A slice of an all-`k` sequence is all-`k`. */
  lemma AllSlice(s: seq<char>, k: Class, i: int, j: int)
    requires All(s, k) && 0 <= i <= j <= |s|
    ensures All(s[i..j], k)
  {
    forall t | 0 <= t < j - i ensures In(s[i..j][t], k) {
      assert s[i..j][t] == s[i + t];
    }
  }

  /** Membership of a slice, read back as membership of the characters at their positions
      in the whole sequence. */
  lemma AllAt(s: seq<char>, k: Class, i: int, j: int)
    requires 0 <= i <= j <= |s| && All(s[i..j], k)
    ensures forall t :: i <= t < j ==> In(s[t], k)
  {
    forall t | i <= t < j ensures In(s[t], k) {
      assert s[i..j][t - i] == s[t];
    }
  }

  /** The maximal run starting at `i` reaches at least `j` when every character in `[i, j)`
      belongs to `k`. */
  lemma RunReaches(s: seq<char>, k: Class, i: int, j: int)
    requires 0 <= i <= j <= |s|
    requires forall t :: i <= t < j ==> In(s[t], k)
    ensures j - i <= Run(s[i..], k)
  {
    var z := s[i..];
    var w := z[..j - i];
    forall t | 0 <= t < j - i ensures In(w[t], k) {
      assert w[t] == s[i + t];
    }
    RunIsMaximal(z, k, j - i);
  }

  /** The maximal run starting at position `i`, read in the positions of `s`. */
  lemma RunAt(s: seq<char>, k: Class, i: int)
    requires 0 <= i <= |s|
    ensures i + Run(s[i..], k) <= |s|
    ensures forall t :: i <= t < i + Run(s[i..], k) ==> In(s[t], k)
    ensures i + Run(s[i..], k) == |s| || !In(s[i + Run(s[i..], k)], k)
  {
    var z := s[i..];
    var n := Run(z, k);
    AllAt(z, k, 0, n);
    assert z[0..n] == z[..n];
    forall t | i <= t < i + n ensures In(s[t], k) {
      assert z[t - i] == s[t];
    }
  }

  /** Membership at every position of `[i, j)` gives membership of the slice. */
  lemma AllOf(s: seq<char>, k: Class, i: int, j: int)
    requires 0 <= i <= j <= |s|
    requires forall t :: i <= t < j ==> In(s[t], k)
    ensures All(s[i..j], k)
  {
    var w := s[i..j];
    forall t | 0 <= t < j - i ensures In(w[t], k) {
      assert w[t] == s[i + t];
    }
  }
}
