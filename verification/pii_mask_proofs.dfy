/**
 * What `mask_pii` guarantees about its output: no e-mail or phone match is left, the
 * output is a fixed point, and text without such matches passes through unchanged.
 */
module PiiMaskProofs {
  import opened Chars
  import opened PiiMask

  /** `EMAIL_RE.search(x)` succeeds. */
  ghost predicate HasEmail(x: string) {
    exists k, n :: EmailAt(x, k, n)
  }

  /** `PHONE_RE.search(x)` succeeds, `before` being the word-ness of the character that
      precedes `x` (false at the start of the text). */
  ghost predicate HasPhone(x: string, before: bool) {
    exists k, n :: PhoneAt(x, before, k, n)
  }

  /** Word-ness of the character just before position `|p|` of `p + y`. */
  function WordBefore(p: string, before: bool): bool {
    if |p| == 0 then before else IsWord(p[|p| - 1])
  }

  // ---------------------------------------------------------------------------
  // Shapes of the two patterns

  /** An e-mail match has at least five characters and no `*`. */
  lemma EmailShape(w: string)
    ensures IsEmail(w) ==> 5 <= |w| && forall i :: 0 <= i < |w| ==> w[i] != '*'
  {
    if IsEmail(w) {
      var a :| EmailSplit(w, a);
      var v := w[a + 1..];
      var p :| DomainSplit(v, p);
      AllAt(w, EmailLocal, 0, a);
      assert w[..a] == w[0..a];
      assert v[..p] == v[0..p];
      AllAt(v, EmailDomain, 0, p);
      AllAt(v, Letter, p + 1, |v|);
      forall i | 0 <= i < |w| ensures w[i] != '*' {
        if a < i {
          assert w[i] == v[i - a - 1];
        }
      }
    }
  }

  /** A phone match has no `*` and starts with `+` or a digit. */
  lemma PhoneShape(w: string)
    ensures IsPhone(w) ==> 0 < |w| && (w[0] == '+' || IsDigit(w[0]))
    ensures IsPhone(w) ==> forall i :: 0 <= i < |w| ==> w[i] != '*'
  {
    if IsPhone(w) {
      var j := if w[0] == '+' then 1 else 0;
      AllAt(w, PhoneBody, j + 1, |w| - 1);
    }
  }

  // ---------------------------------------------------------------------------
  // Matches across a concatenation

  lemma ConcatAssoc(a: string, b: string, c: string)
    ensures a + (b + c) == (a + b) + c
  {
  }

  lemma SliceShift(p: string, y: string, k: int, n: int)
    requires |p| <= k <= n <= |p + y|
    ensures (p + y)[k..n] == y[k - |p|..n - |p|]
  {
  }

  /** A phone match that starts at or after `|p|` in `p + y` is a match in `y`, and back. */
  lemma PhoneAtShift(p: string, y: string, before: bool, k: int, n: int)
    requires |p| <= k
    ensures PhoneAt(p + y, before, k, n) <==> PhoneAt(y, WordBefore(p, before), k - |p|, n - |p|)
  {
    if k < n <= |p + y| {
      SliceShift(p, y, k, n);
    }
  }

  /** An e-mail match in a suffix is an e-mail match in the whole text. */
  lemma NoEmailInSuffix(x: string, i: nat)
    requires i <= |x| && !HasEmail(x)
    ensures !HasEmail(x[i..])
  {
    forall k, n | 0 <= k <= n <= |x| - i ensures !EmailAt(x[i..], k, n) {
      assert x[i..][k..n] == x[i + k..i + n];
      assert !EmailAt(x, i + k, i + n);
    }
  }

  // ---------------------------------------------------------------------------
  // Copying: as long as no mask has been emitted, the output is the input

  /** One step of `MaskEmails` when the output does not start with a mask. */
  lemma MaskEmailsHead(x: string)
    requires |x| > 0
    ensures MaskEmails(x)[0] != '*' ==> MaskEmails(x) == [x[0]] + MaskEmails(x[1..])
  {
  }

  /** One step of `PHONE_RE.sub` at a phone match. */
  lemma MaskPhonesAtMatch(x: string, before: bool, m: nat)
    requires PhoneEnd(x, before).Some? && PhoneEnd(x, before).value == m
    ensures 0 < m <= |x| && MaskPhones(x, before) == PhoneMask + MaskPhones(x[m..], IsWord(x[m - 1]))
  {
  }

  /** One step of `PHONE_RE.sub` where no phone match starts. */
  lemma MaskPhonesAtChar(x: string, before: bool)
    requires |x| > 0 && PhoneEnd(x, before).None?
    ensures MaskPhones(x, before) == [x[0]] + MaskPhones(x[1..], IsWord(x[0]))
  {
  }

  /** One step of `MaskPhones` when the output does not start with a mask. */
  lemma MaskPhonesHead(x: string, before: bool)
    requires |x| > 0
    ensures MaskPhones(x, before)[0] != '*' ==> MaskPhones(x, before) == [x[0]] + MaskPhones(x[1..], IsWord(x[0]))
  {
  }

  /** Regrouping the first character with the rest of a copied prefix. */
  lemma ConsPrefix(x: string, n: nat, t: string)
    requires 0 < n <= |x|
    ensures [x[0]] + (x[1..][..n - 1] + t) == x[..n] + t
    ensures x[1..][n - 1..] == x[n..]
  {
    assert [x[0]] + x[1..][..n - 1] == x[..n];
    ConcatAssoc([x[0]], x[1..][..n - 1], t);
  }

  /** A star-free output prefix of length n shrinks to one of length n - 1 of the rest. */
  lemma NoStarTail(o: string, o': string, c: char, n: nat)
    requires 0 < n <= |o| && o == [c] + o'
    requires forall i :: 0 <= i < n ==> o[i] != '*'
    ensures n - 1 <= |o'| && forall i :: 0 <= i < n - 1 ==> o'[i] != '*'
  {
    forall i | 0 <= i < n - 1 ensures o'[i] != '*' {
      assert o'[i] == o[i + 1];
    }
  }

  /** The word-ness before position `n` is the same whether the first character is
      counted in the flag or in the prefix. */
  lemma WordBeforeCons(x: string, n: nat, before: bool)
    requires 0 < n <= |x|
    ensures WordBefore(x[1..][..n - 1], IsWord(x[0])) == WordBefore(x[..n], before)
  {
    if n > 1 {
      assert x[1..][..n - 1][n - 2] == x[n - 1];
    }
  }

  lemma {:induction false} MaskEmailsCopies(x: string, n: nat)
    requires n <= |MaskEmails(x)|
    requires forall i :: 0 <= i < n ==> MaskEmails(x)[i] != '*'
    ensures n <= |x| && MaskEmails(x) == x[..n] + MaskEmails(x[n..])
    decreases n
  {
    if n > 0 {
      assert |x| > 0;
      MaskEmailsHead(x);
      NoStarTail(MaskEmails(x), MaskEmails(x[1..]), x[0], n);
      MaskEmailsCopies(x[1..], n - 1);
      ConsPrefix(x, n, MaskEmails(x[n..]));
    }
  }

  lemma {:induction false} MaskPhonesCopies(x: string, before: bool, n: nat)
    requires n <= |MaskPhones(x, before)|
    requires forall i :: 0 <= i < n ==> MaskPhones(x, before)[i] != '*'
    ensures n <= |x|
    ensures MaskPhones(x, before) == x[..n] + MaskPhones(x[n..], WordBefore(x[..n], before))
    decreases n
  {
    if n > 0 {
      assert |x| > 0;
      MaskPhonesHead(x, before);
      NoStarTail(MaskPhones(x, before), MaskPhones(x[1..], IsWord(x[0])), x[0], n);
      MaskPhonesCopies(x[1..], IsWord(x[0]), n - 1);
      WordBeforeCons(x, n, before);
      ConsPrefix(x, n, MaskPhones(x[n..], WordBefore(x[..n], before)));
    }
  }

  /** An e-mail match at the start of the e-mail-masked text was already one in the input. */
  lemma EmailPrefixOfMaskEmails(x: string, n: int)
    ensures EmailAt(MaskEmails(x), 0, n) ==> EmailAt(x, 0, n)
  {
    var o := MaskEmails(x);
    if EmailAt(o, 0, n) {
      EmailShape(o[0..n]);
      forall i | 0 <= i < n ensures o[i] != '*' {
        assert o[0..n][i] == o[i];
      }
      MaskEmailsCopies(x, n);
      assert o[0..n] == x[0..n];
    }
  }

  /** An e-mail match at the start of the phone-masked text was already one in the input. */
  lemma EmailPrefixOfMaskPhones(x: string, before: bool, n: int)
    ensures EmailAt(MaskPhones(x, before), 0, n) ==> EmailAt(x, 0, n)
  {
    var o := MaskPhones(x, before);
    if EmailAt(o, 0, n) {
      EmailShape(o[0..n]);
      forall i | 0 <= i < n ensures o[i] != '*' {
        assert o[0..n][i] == o[i];
      }
      MaskPhonesCopies(x, before, n);
      assert o[0..n] == x[0..n];
    }
  }

  /** The flag `before` describes the input, `after` the output. They differ only right after
      a phone mask, where the input had a digit and the output has `*`; the input then
      continues with a non-word character, because the match ended at a `\b`. */
  ghost predicate Aligned(x: string, before: bool, after: bool) {
    before == after || (before && !after && (|x| == 0 || !IsWord(x[0])))
  }

  /** After a word character the phone mask can start only at a non-word character. */
  lemma FirstAfterWord(y: string)
    requires |y| > 0
    ensures MaskPhones(y, true)[0] == y[0] || (MaskPhones(y, true)[0] == '*' && !IsWord(y[0]))
  {
    match PhoneEnd(y, true)
    case Some(m) =>
      MaskPhonesAtMatch(y, true, m);
    case None =>
      MaskPhonesAtChar(y, true);
  }

  /** A phone match at the start of the phone-masked text was already one in the input. */
  lemma PhonePrefixOfMaskPhones(x: string, before: bool, after: bool, n: int)
    requires Aligned(x, before, after)
    ensures PhoneAt(MaskPhones(x, before), after, 0, n) ==> PhoneAt(x, before, 0, n)
  {
    var o := MaskPhones(x, before);
    if PhoneAt(o, after, 0, n) {
      PhoneShape(o[0..n]);
      forall i | 0 <= i < n ensures o[i] != '*' {
        assert o[0..n][i] == o[i];
      }
      MaskPhonesCopies(x, before, n);
      assert o[0..n] == x[0..n];
      assert o[0] == x[0];
      assert IsDigit(x[n - 1]) by {
        assert o[0..n][n - 1] == x[n - 1];
      }
      if n < |x| {
        var y := x[n..];
        var rest := MaskPhones(y, true);
        assert WordBefore(x[..n], before) == true;
        assert o == x[..n] + rest;
        assert o[n] == rest[0];
        FirstAfterWord(y);
      }
    }
  }

  // ---------------------------------------------------------------------------
  // Matches in a text made of a prefix and a rest

  /** A mask in front of a text without e-mail matches creates none: every window of two
      mask characters holds a `*`, which no e-mail match contains. */
  lemma NoEmailAfterMask(m: string, y: string)
    requires 0 < |m| && m[|m| - 1] == '*'
    requires forall i :: 0 <= i < |m| - 1 ==> m[i] == '*' || m[i + 1] == '*'
    requires !HasEmail(y)
    ensures !HasEmail(m + y)
  {
    var o := m + y;
    forall k, n | 0 <= k <= n <= |o| ensures !EmailAt(o, k, n) {
      if |m| <= k {
        SliceShift(m, y, k, n);
        assert !EmailAt(y, k - |m|, n - |m|);
      } else {
        EmailShape(o[k..n]);
        if k + 2 <= n {
          assert o[k..n][0] == m[k];
          assert k + 1 < |m| ==> o[k..n][1] == m[k + 1];
        }
      }
    }
  }

  /** One character in front of a text without e-mail matches creates a match only at the
      front. */
  lemma NoEmailAfterChar(c: char, y: string)
    requires !HasEmail(y)
    requires forall n :: !EmailAt([c] + y, 0, n)
    ensures !HasEmail([c] + y)
  {
    var o := [c] + y;
    forall k, n | 1 <= k <= n <= |o| ensures !EmailAt(o, k, n) {
      SliceShift([c], y, k, n);
      assert !EmailAt(y, k - 1, n - 1);
    }
  }

  /** A mask of `*` and `-` in front of a text without phone matches creates none. */
  lemma NoPhoneAfterMask(m: string, y: string, after: bool)
    requires 0 < |m| && m[|m| - 1] == '*'
    requires forall i :: 0 <= i < |m| ==> m[i] == '*' || m[i] == '-'
    requires !HasPhone(y, false)
    ensures !HasPhone(m + y, after)
  {
    var o := m + y;
    forall k, n ensures !PhoneAt(o, after, k, n) {
      if |m| <= k {
        PhoneAtShift(m, y, after, k, n);
      } else if 0 <= k < n <= |o| {
        PhoneShape(o[k..n]);
        assert o[k..n][0] == m[k];
      }
    }
  }

  /** One character in front of a text without phone matches creates a match only at the
      front. */
  lemma NoPhoneAfterChar(c: char, y: string, after: bool)
    requires !HasPhone(y, IsWord(c))
    requires forall n :: !PhoneAt([c] + y, after, 0, n)
    ensures !HasPhone([c] + y, after)
  {
    forall k, n | 1 <= k ensures !PhoneAt([c] + y, after, k, n) {
      PhoneAtShift([c], y, after, k, n);
    }
  }

  /** Every two adjacent characters of a mask hold a `*`, and the phone mask is made of `*`
      and `-` only. */
  lemma MaskCharacters()
    ensures EmailMask[|EmailMask| - 1] == '*' && PhoneMask[|PhoneMask| - 1] == '*'
    ensures forall i :: 0 <= i < |EmailMask| - 1 ==> EmailMask[i] == '*' || EmailMask[i + 1] == '*'
    ensures forall i :: 0 <= i < |PhoneMask| - 1 ==> PhoneMask[i] == '*' || PhoneMask[i + 1] == '*'
    ensures forall i :: 0 <= i < |PhoneMask| ==> PhoneMask[i] == '*' || PhoneMask[i] == '-'
  {
  }

  // ---------------------------------------------------------------------------
  // Nothing is left to mask

  /** `EMAIL_RE.sub` leaves no e-mail match behind. */
  lemma {:induction false} MaskEmailsLeavesNoEmail(x: string)
    ensures !HasEmail(MaskEmails(x))
    decreases |x|
  {
    if |x| > 0 {
      EmailEndIsLongest(x);
      match EmailEnd(x)
      case Some(m) =>
        MaskEmailsLeavesNoEmail(x[m..]);
        assert MaskEmails(x) == EmailMask + MaskEmails(x[m..]);
        MaskCharacters();
        NoEmailAfterMask(EmailMask, MaskEmails(x[m..]));
      case None =>
        MaskEmailsLeavesNoEmail(x[1..]);
        assert MaskEmails(x) == [x[0]] + MaskEmails(x[1..]);
        forall n ensures !EmailAt(MaskEmails(x), 0, n) {
          EmailPrefixOfMaskEmails(x, n);
        }
        NoEmailAfterChar(x[0], MaskEmails(x[1..]));
    }
  }

  /** The step of `MaskPhonesKeepsNoEmail` when a phone number is masked at the start. */
  lemma NoEmailAfterMaskedPhone(x: string, before: bool, m: nat)
    requires PhoneEnd(x, before).Some? && PhoneEnd(x, before).value == m
    requires !HasEmail(MaskPhones(x[m..], IsWord(x[m - 1])))
    ensures !HasEmail(MaskPhones(x, before))
  {
    MaskPhonesAtMatch(x, before, m);
    MaskCharacters();
    NoEmailAfterMask(PhoneMask, MaskPhones(x[m..], IsWord(x[m - 1])));
  }

  /** The step of `MaskPhonesKeepsNoEmail` when the first character is copied. */
  lemma NoEmailAfterCopiedChar(x: string, before: bool)
    requires |x| > 0 && !HasEmail(x) && PhoneEnd(x, before).None?
    requires !HasEmail(MaskPhones(x[1..], IsWord(x[0])))
    ensures !HasEmail(MaskPhones(x, before))
  {
    MaskPhonesAtChar(x, before);
    forall n ensures !EmailAt(MaskPhones(x, before), 0, n) {
      EmailPrefixOfMaskPhones(x, before, n);
      assert !EmailAt(x, 0, n);
    }
    NoEmailAfterChar(x[0], MaskPhones(x[1..], IsWord(x[0])));
  }

  /** `PHONE_RE.sub` creates no e-mail match: its mask has no `@`, and it only shortens the
      runs of local-part and domain characters around an existing `@`. */
  lemma {:induction false} MaskPhonesKeepsNoEmail(x: string, before: bool)
    requires !HasEmail(x)
    ensures !HasEmail(MaskPhones(x, before))
    decreases |x|
  {
    if |x| > 0 {
      match PhoneEnd(x, before)
      case Some(m) =>
        NoEmailInSuffix(x, m);
        MaskPhonesKeepsNoEmail(x[m..], IsWord(x[m - 1]));
        NoEmailAfterMaskedPhone(x, before, m);
      case None =>
        NoEmailInSuffix(x, 1);
        MaskPhonesKeepsNoEmail(x[1..], IsWord(x[0]));
        NoEmailAfterCopiedChar(x, before);
    }
  }

  /** The step of `MaskPhonesLeavesNoPhone` when a phone number is masked at the start. */
  lemma NoPhoneAfterMaskedMatch(x: string, before: bool, after: bool, m: nat)
    requires PhoneEnd(x, before).Some? && PhoneEnd(x, before).value == m
    requires !HasPhone(MaskPhones(x[m..], true), false)
    ensures !HasPhone(MaskPhones(x, before), after)
  {
    MaskPhonesAtMatch(x, before, m);
    MaskCharacters();
    NoPhoneAfterMask(PhoneMask, MaskPhones(x[m..], IsWord(x[m - 1])), after);
  }

  /** The step of `MaskPhonesLeavesNoPhone` when the first character is copied. */
  lemma NoPhoneAfterCopiedChar(x: string, before: bool, after: bool)
    requires |x| > 0 && Aligned(x, before, after) && PhoneEnd(x, before).None?
    requires !HasPhone(MaskPhones(x[1..], IsWord(x[0])), IsWord(x[0]))
    ensures !HasPhone(MaskPhones(x, before), after)
  {
    PhoneEndIsLongest(x, before);
    MaskPhonesAtChar(x, before);
    forall n ensures !PhoneAt(MaskPhones(x, before), after, 0, n) {
      PhonePrefixOfMaskPhones(x, before, after, n);
    }
    NoPhoneAfterChar(x[0], MaskPhones(x[1..], IsWord(x[0])), after);
  }

  /** `PHONE_RE.sub` leaves no phone match behind, also where a mask now precedes digits
      that followed a match in the input. */
  lemma {:induction false} MaskPhonesLeavesNoPhone(x: string, before: bool, after: bool)
    requires Aligned(x, before, after)
    ensures !HasPhone(MaskPhones(x, before), after)
    decreases |x|
  {
    if |x| > 0 {
      match PhoneEnd(x, before)
      case Some(m) =>
        MaskPhonesLeavesNoPhone(x[m..], true, false);
        NoPhoneAfterMaskedMatch(x, before, after, m);
      case None =>
        MaskPhonesLeavesNoPhone(x[1..], IsWord(x[0]), IsWord(x[0]));
        NoPhoneAfterCopiedChar(x, before, after);
    }
  }

  // ---------------------------------------------------------------------------
  // Each match becomes its mask, and the text before it is copied

  /** One step of `EMAIL_RE.sub` at an e-mail match. */
  lemma MaskEmailsAtMatch(x: string, n: nat)
    requires EmailEnd(x).Some? && EmailEnd(x).value == n
    ensures 0 < n <= |x| && MaskEmails(x) == EmailMask + MaskEmails(x[n..])
  {
  }

  /** One step of `EMAIL_RE.sub` where no e-mail match starts. */
  lemma MaskEmailsAtChar(x: string)
    requires |x| > 0 && EmailEnd(x).None?
    ensures MaskEmails(x) == [x[0]] + MaskEmails(x[1..])
  {
  }

  /** Matches in the text after its first character are matches in the text, one
      position later. */
  lemma EmailAtDrop(x: string, j: int, m: int)
    requires |x| > 0 && 0 <= j
    ensures EmailAt(x[1..], j, m) <==> EmailAt(x, j + 1, m + 1)
  {
    if j <= m <= |x| - 1 {
      assert x[1..][j..m] == x[j + 1..m + 1];
    }
  }

  /** As `EmailAtDrop`, for the phone pattern: the character dropped from the front is
      the one whose word-ness the leading `\b` then looks at. */
  lemma PhoneAtDrop(x: string, before: bool, j: int, m: int)
    requires |x| > 0 && 0 <= j
    ensures PhoneAt(x[1..], IsWord(x[0]), j, m) <==> PhoneAt(x, before, j + 1, m + 1)
  {
    if j < m <= |x| - 1 {
      assert x[1..][j..m] == x[j + 1..m + 1];
      assert x[1..][j] == x[j + 1];
      if j > 0 {
        assert x[1..][j - 1] == x[j];
      }
      if m < |x| - 1 {
        assert x[1..][m] == x[m + 1];
      }
    }
  }

  /** `x[k..n]` is the leftmost e-mail match and the longest one starting at `k`:
      the match `EMAIL_RE.sub` replaces first. */
  ghost predicate FirstEmail(x: string, k: int, n: int) {
    && EmailAt(x, k, n)
    && (forall m :: EmailAt(x, k, m) ==> m <= n)
    && (forall j, m :: 0 <= j < k ==> !EmailAt(x, j, m))
  }

  /** `x[k..n]` is the leftmost phone match and the longest one starting at `k`. */
  ghost predicate FirstPhone(x: string, before: bool, k: int, n: int) {
    && PhoneAt(x, before, k, n)
    && (forall m :: PhoneAt(x, before, k, m) ==> m <= n)
    && (forall j, m :: 0 <= j < k ==> !PhoneAt(x, before, j, m))
  }

  /** Past a first character that starts no match, the first match is one position
      earlier. */
  lemma FirstEmailTail(x: string, k: int, n: int)
    requires 0 < k && FirstEmail(x, k, n)
    ensures EmailEnd(x).None? && FirstEmail(x[1..], k - 1, n - 1)
  {
    EmailEndIsLongest(x);
    var y, k', n' := x[1..], k - 1, n - 1;
    EmailAtDrop(x, k', n');
    forall m | EmailAt(y, k', m) ensures m <= n' {
      EmailAtDrop(x, k', m);
    }
    forall j, m | 0 <= j < k' ensures !EmailAt(y, j, m) {
      EmailAtDrop(x, j, m);
    }
  }

  lemma FirstPhoneTail(x: string, before: bool, k: int, n: int)
    requires 0 < k && FirstPhone(x, before, k, n)
    ensures PhoneEnd(x, before).None? && FirstPhone(x[1..], IsWord(x[0]), k - 1, n - 1)
  {
    PhoneEndIsLongest(x, before);
    var y, b, k', n' := x[1..], IsWord(x[0]), k - 1, n - 1;
    PhoneAtDrop(x, before, k', n');
    forall m | PhoneAt(y, b, k', m) ensures m <= n' {
      PhoneAtDrop(x, before, k', m);
    }
    forall j, m | 0 <= j < k' ensures !PhoneAt(y, b, j, m) {
      PhoneAtDrop(x, before, j, m);
    }
  }

  /** At the start, the first match is the one the matcher finds. */
  lemma FirstEmailAtStart(x: string, n: int)
    requires FirstEmail(x, 0, n)
    ensures EmailEnd(x).Some? && EmailEnd(x).value == n
  {
    EmailEndIsLongest(x);
  }

  lemma FirstPhoneAtStart(x: string, before: bool, n: int)
    requires FirstPhone(x, before, 0, n)
    ensures PhoneEnd(x, before).Some? && PhoneEnd(x, before).value == n
  {
    PhoneEndIsLongest(x, before);
  }

  /** Regrouping a copied first character with a copied prefix, a mask and a rest. */
  lemma ConsMasked(x: string, k: int, n: int, mask: string, o: string, o1: string, t: string)
    requires 0 < k <= n <= |x|
    requires o == [x[0]] + o1 && o1 == x[1..][..k - 1] + mask + t
    ensures o == x[..k] + mask + t
  {
    ConsPrefix(x, k, mask + t);
    ConcatAssoc(x[..k], mask, t);
    ConcatAssoc(x[1..][..k - 1], mask, t);
  }

  /** The step of `MaskEmailsAtFirstMatch` past a copied first character. */
  lemma MaskEmailsCopiesToMatch(x: string, k: nat, n: nat)
    requires 0 < k <= n <= |x| && EmailEnd(x).None?
    requires MaskEmails(x[1..]) == x[1..][..k - 1] + EmailMask + MaskEmails(x[1..][n - 1..])
    ensures MaskEmails(x) == x[..k] + EmailMask + MaskEmails(x[n..])
  {
    MaskEmailsAtChar(x);
    assert x[1..][n - 1..] == x[n..];
    ConsMasked(x, k, n, EmailMask, MaskEmails(x), MaskEmails(x[1..]), MaskEmails(x[n..]));
  }

  /** The step of `MaskPhonesAtFirstMatch` past a copied first character. */
  lemma MaskPhonesCopiesToMatch(x: string, before: bool, k: nat, n: nat)
    requires 0 < k < n <= |x| && PhoneEnd(x, before).None?
    requires MaskPhones(x[1..], IsWord(x[0])) ==
      x[1..][..k - 1] + PhoneMask + MaskPhones(x[1..][n - 1..], IsWord(x[1..][n - 2]))
    ensures MaskPhones(x, before) == x[..k] + PhoneMask + MaskPhones(x[n..], IsWord(x[n - 1]))
  {
    MaskPhonesAtChar(x, before);
    assert x[1..][n - 1..] == x[n..];
    assert x[1..][n - 2] == x[n - 1];
    ConsMasked(x, k, n, PhoneMask, MaskPhones(x, before), MaskPhones(x[1..], IsWord(x[0])), MaskPhones(x[n..], IsWord(x[n - 1])));
  }

  /** `EMAIL_RE.sub` copies the text up to the leftmost e-mail match, replaces the
      longest match there by exactly `***@***`, and carries on after it. */
  lemma {:induction false} MaskEmailsAtFirstMatch(x: string, k: nat, n: nat)
    requires FirstEmail(x, k, n)
    ensures MaskEmails(x) == x[..k] + "***@***" + MaskEmails(x[n..])
    decreases k
  {
    if k == 0 {
      FirstEmailAtStart(x, n);
      MaskEmailsAtMatch(x, n);
    } else {
      FirstEmailTail(x, k, n);
      MaskEmailsAtFirstMatch(x[1..], k - 1, n - 1);
      MaskEmailsCopiesToMatch(x, k, n);
    }
  }

  /** `PHONE_RE.sub` copies the text up to the leftmost phone match, replaces the
      longest match there by exactly `***-***-****`, and carries on after it, where
      the leading `\b` sees the match's last character. */
  lemma {:induction false} MaskPhonesAtFirstMatch(x: string, before: bool, k: nat, n: nat)
    requires FirstPhone(x, before, k, n)
    ensures MaskPhones(x, before) == x[..k] + "***-***-****" + MaskPhones(x[n..], IsWord(x[n - 1]))
    decreases k
  {
    if k == 0 {
      FirstPhoneAtStart(x, before, n);
      MaskPhonesAtMatch(x, before, n);
    } else {
      FirstPhoneTail(x, before, k, n);
      MaskPhonesAtFirstMatch(x[1..], IsWord(x[0]), k - 1, n - 1);
      MaskPhonesCopiesToMatch(x, before, k, n);
    }
  }

  // ---------------------------------------------------------------------------
  // Text without matches is copied

  lemma {:induction false} MaskEmailsKeepsClean(x: string)
    requires !HasEmail(x)
    ensures MaskEmails(x) == x
    decreases |x|
  {
    if |x| > 0 {
      EmailEndIsLongest(x);
      assert EmailEnd(x).None?;
      NoEmailInSuffix(x, 1);
      MaskEmailsKeepsClean(x[1..]);
    }
  }

  lemma {:induction false} MaskPhonesKeepsClean(x: string, before: bool)
    requires !HasPhone(x, before)
    ensures MaskPhones(x, before) == x
    decreases |x|
  {
    if |x| > 0 {
      PhoneEndIsLongest(x, before);
      assert PhoneEnd(x, before).None?;
      assert x == [x[0]] + x[1..];
      forall k, n ensures !PhoneAt(x[1..], IsWord(x[0]), k, n) {
        if 0 <= k {
          PhoneAtShift([x[0]], x[1..], before, k + 1, n + 1);
        }
      }
      MaskPhonesKeepsClean(x[1..], IsWord(x[0]));
    }
  }

  // ---------------------------------------------------------------------------
  // mask_pii

  /** The masked text contains neither an e-mail nor a phone match. */
  lemma MaskPiiLeavesNoPii(text: string)
    ensures !HasEmail(MaskPii(text)) && !HasPhone(MaskPii(text), false)
  {
    if |text| > 0 {
      MaskEmailsLeavesNoEmail(text);
      MaskPhonesKeepsNoEmail(MaskEmails(text), false);
      MaskPhonesLeavesNoPhone(MaskEmails(text), false, false);
    } else {
      assert forall k, n :: !EmailAt(text, k, n);
      assert forall k, n :: !PhoneAt(text, false, k, n);
    }
  }

  /** `mask_pii` changes a text exactly when the text contains an e-mail or a phone match. */
  lemma MaskPiiFixesExactlyClean(text: string)
    ensures MaskPii(text) == text <==> !HasEmail(text) && !HasPhone(text, false)
  {
    MaskPiiLeavesNoPii(text);
    if !HasEmail(text) && !HasPhone(text, false) && |text| > 0 {
      MaskEmailsKeepsClean(text);
      MaskPhonesKeepsClean(text, false);
    }
  }

  /** Masking twice is masking once. */
  lemma MaskPiiIdempotent(text: string)
    ensures MaskPii(MaskPii(text)) == MaskPii(text)
  {
    MaskPiiLeavesNoPii(text);
    MaskPiiFixesExactlyClean(MaskPii(text));
  }

  /** Every e-mail match contains an `@` preceded by a local-part character. */
  lemma EmailAtHasAt(x: string, k: int, n: int)
    ensures EmailAt(x, k, n) ==> exists i :: k < i < n && x[i] == '@' && In(x[i - 1], EmailLocal)
  {
    if EmailAt(x, k, n) {
      var w := x[k..n];
      var a :| EmailSplit(w, a);
      AllAt(w, EmailLocal, 0, a);
      assert w[..a] == w[0..a];
      assert w[a] == x[k + a] && w[a - 1] == x[k + a - 1];
    }
  }

  /** Every phone match ends with a digit. */
  lemma PhoneAtHasDigit(x: string, before: bool, k: int, n: int)
    ensures PhoneAt(x, before, k, n) ==> IsDigit(x[n - 1])
  {
    if PhoneAt(x, before, k, n) {
      assert x[k..n][n - k - 1] == x[n - 1];
    }
  }

  /** Text with no `@` and no digit is returned unchanged: the e-mail pattern needs an `@`
      and the phone pattern a digit. */
  lemma MaskPiiKeepsTextWithoutAtOrDigit(text: string)
    requires forall i :: 0 <= i < |text| ==> text[i] != '@' && !IsDigit(text[i])
    ensures MaskPii(text) == text
  {
    forall k, n ensures !EmailAt(text, k, n) {
      EmailAtHasAt(text, k, n);
    }
    forall k, n ensures !PhoneAt(text, false, k, n) {
      PhoneAtHasDigit(text, false, k, n);
    }
    MaskPiiFixesExactlyClean(text);
  }

  /** The phone mask survives `mask_pii` unchanged: it has no `@` and no digit. */
  lemma PhoneMaskIsStable()
    ensures MaskPii(PhoneMask) == PhoneMask
  {
    var m := PhoneMask;
    assert forall i :: 0 <= i < |m| ==> m[i] == '*' || m[i] == '-';
    MaskPiiKeepsTextWithoutAtOrDigit(m);
  }

  /** The e-mail mask survives `mask_pii` unchanged: its `@` follows a `*`, which is not a
      local-part character, and it has no digit. */
  lemma EmailMaskIsStable()
    ensures MaskPii(EmailMask) == EmailMask
  {
    var m := EmailMask;
    assert forall i :: 0 <= i < |m| ==> m[i] == '*' || (i == 3 && m[i] == '@');
    forall k, n ensures !EmailAt(m, k, n) {
      EmailAtHasAt(m, k, n);
    }
    forall k, n ensures !PhoneAt(m, false, k, n) {
      PhoneAtHasDigit(m, false, k, n);
    }
    MaskPiiFixesExactlyClean(m);
  }

  /** w occurs in x starting at position k. */
  predicate OccursAt(w: string, x: string, k: int) {
    0 <= k && k + |w| <= |x| && x[k..k + |w|] == w
  }

  /** No e-mail address occurs anywhere in the masked text. */
  lemma NoAddressSurvives(text: string, w: string)
    requires IsEmail(w)
    ensures forall k :: !OccursAt(w, MaskPii(text), k)
  {
    var out := MaskPii(text);
    MaskPiiLeavesNoPii(text);
    forall k | OccursAt(w, out, k) ensures false {
      assert EmailAt(out, k, k + |w|);
    }
  }

  /** A sample address is one the pattern matches. */
  lemma ExampleAddressIsEmail()
    ensures IsEmail("jane@example.com")
  {
    var w := "jane@example.com";
    var d := w[5..];
    assert d == "example.com";
    assert DomainSplit(d, 7);
    assert EmailSplit(w, 4);
  }
}
