/**
 * The safety pre-filter: `mask_pii` replaces e-mail addresses and phone numbers
 * in the task text by fixed mask tokens before anything else sees the text.
 *
 * The two patterns are
 *   EMAIL: ([A-Za-z0-9._%+-]+)@([A-Za-z0-9.-]+\.[A-Za-z]{2,})
 *   PHONE: \b(\+?\d[\d\-\s]{7,}\d)\b
 * and `re.sub` replaces their matches left to right without overlap, restarting
 * the search where the previous match ended. Each pattern is written out here as
 * a full-match predicate (`IsEmail`, `IsPhone`) together with a matcher that
 * follows the backtracking order of Python's engine (greedy quantifiers give up
 * one character at a time); the matcher lemmas show that the match the engine
 * settles on is the LONGEST match at that position.
 */
module PiiMask {
  import opened Chars
  import opened Wrappers

  /** Replacement for every e-mail match. */
  const EmailMask: string := "***@***"

  /** Replacement for every phone match. */
  const PhoneMask: string := "***-***-****"

  /** The part of a prefix of `x` from `i` on is a prefix of the suffix of `x` at `i`. */
  lemma SuffixOfPrefix(x: string, n: nat, i: nat)
    requires i <= n <= |x|
    ensures x[..n][i..] == x[i..][..n - i]
  {
  }

  /** A slice of a prefix of `x` is the same slice of `x`. */
  lemma SliceOfPrefix(x: string, n: nat, i: nat, k: nat)
    requires i <= k <= n <= |x|
    ensures x[0..n][i..k] == x[i..k]
  {
    forall t | 0 <= t < k - i ensures x[0..n][i..k][t] == x[i..k][t] {
      assert x[0..n][i..k][t] == x[i + t];
    }
  }

  // ---------------------------------------------------------------------------
  // E-mail pattern

  /** `w` is matched entirely by `[A-Za-z0-9.-]+\.[A-Za-z]{2,}`, the literal dot at `p`. */
  ghost predicate DomainSplit(w: string, p: int) {
    1 <= p && p + 3 <= |w| && All(w[..p], EmailDomain) && w[p] == '.' && All(w[p + 1..], Letter)
  }

  ghost predicate IsDomain(w: string) {
    exists p :: DomainSplit(w, p)
  }

  /** `w` is matched entirely by the e-mail pattern, the `@` at `a`. */
  ghost predicate EmailSplit(w: string, a: int) {
    1 <= a < |w| && All(w[..a], EmailLocal) && w[a] == '@' && IsDomain(w[a + 1..])
  }

  ghost predicate IsEmail(w: string) {
    exists a :: EmailSplit(w, a)
  }

  /** The e-mail pattern matches `x[k..n]`; it has no anchors, so this is all that a search
      at position `k` needs. */
  ghost predicate EmailAt(x: string, k: int, n: int) {
    0 <= k <= n <= |x| && IsEmail(x[k..n])
  }

  /** A candidate top-level-domain dot: `.` followed by two letters. */
  predicate TldAt(y: string, p: int) {
    0 <= p && p + 2 < |y| && y[p] == '.' && IsLetter(y[p + 1]) && IsLetter(y[p + 2])
  }

  /** The largest `p` in `[1, hi)` with a top-level-domain dot: the first position that the
      backtracking of `[A-Za-z0-9.-]+` accepts before `\.[A-Za-z]{2}`. */
  function LastTld(y: string, hi: int): (r: Option<nat>)
    decreases hi
    ensures r.Some? ==> 1 <= r.value < hi && TldAt(y, r.value)
    ensures forall p :: 1 <= p < hi && TldAt(y, p) ==> r.Some? && p <= r.value
  {
    if hi <= 1 then None
    else if TldAt(y, hi - 1) then Some(hi - 1)
    else LastTld(y, hi - 1)
  }

  /** Length of the domain part matched at the start of `y`, if any. */
  function DomainEnd(y: string): (r: Option<nat>)
    ensures r.Some? ==> 4 <= r.value <= |y|
  {
    var m := Run(y, EmailDomain);
    match LastTld(y, m - 2)
    case None => None
    case Some(p) =>
      RunIsMaximal(y[p + 1..], Letter, 2);
      Some(p + 1 + Run(y[p + 1..], Letter))
  }

  /** Length of the e-mail match at the start of `x`, if any. */
  function EmailEnd(x: string): (r: Option<nat>)
    ensures r.Some? ==> 0 < r.value <= |x|
  {
    var a := Run(x, EmailLocal);
    if a == 0 || a == |x| || x[a] != '@' then None
    else
      match DomainEnd(x[a + 1..])
      case None => None
      case Some(d) => Some(a + 1 + d)
  }

  /** Any domain match at the start of `y` lies inside the maximal domain run and has a
      top-level-domain dot. */
  lemma DomainSplitInRun(y: string, d: nat, p: int)
    requires d <= |y| && DomainSplit(y[..d], p)
    ensures d <= Run(y, EmailDomain) && p + 3 <= d && TldAt(y, p)
    ensures forall t :: p + 1 <= t < d ==> IsLetter(y[t])
  {
    var w := y[..d];
    assert w[..p] == y[0..p];
    assert w[p + 1..] == y[p + 1..d];
    AllAt(y, EmailDomain, 0, p);
    AllAt(y, Letter, p + 1, d);
    assert All(y[..d], EmailDomain) by {
      forall i | 0 <= i < d ensures In(y[..d][i], EmailDomain) {
        assert y[..d][i] == y[i];
        assert i != p ==> In(y[i], if i < p then EmailDomain else Letter);
      }
    }
    RunIsMaximal(y, EmailDomain, d);
    assert In(y[p + 1], Letter) && In(y[p + 2], Letter);
  }

  /** What `DomainEnd` finds is a domain match. */
  lemma DomainEndSound(y: string)
    requires DomainEnd(y).Some?
    ensures IsDomain(y[..DomainEnd(y).value])
  {
    var m := Run(y, EmailDomain);
    var p := LastTld(y, m - 2).value;
    var l := Run(y[p + 1..], Letter);
    var w := y[..p + 1 + l];
    AllSlice(y[..m], EmailDomain, 0, p);
    assert w[..p] == y[..m][0..p];
    assert w[p + 1..] == y[p + 1..][..l];
    assert DomainSplit(w, p);
  }

  /** No domain match at the start of `y` is longer than what `DomainEnd` finds. */
  lemma DomainEndLongest(y: string, d: nat)
    requires d <= |y| && IsDomain(y[..d])
    ensures DomainEnd(y).Some? && d <= DomainEnd(y).value
  {
    var p' :| DomainSplit(y[..d], p');
    DomainSplitInRun(y, d, p');
    var m := Run(y, EmailDomain);
    var p := LastTld(y, m - 2).value;
    var l := Run(y[p + 1..], Letter);
    assert !IsLetter(y[p]);
    if p' == p {
      RunReaches(y, Letter, p + 1, d);
    }
  }

  /** `DomainEnd` returns the longest domain match at the start of `y`, and none exists when
      it returns `None`. */
  lemma DomainEndIsLongest(y: string)
    ensures DomainEnd(y).Some? ==> IsDomain(y[..DomainEnd(y).value])
    ensures forall d :: 0 <= d <= |y| && IsDomain(y[..d]) ==> DomainEnd(y).Some? && d <= DomainEnd(y).value
  {
    if DomainEnd(y).Some? {
      DomainEndSound(y);
    }
    forall d | 0 <= d <= |y| && IsDomain(y[..d])
      ensures DomainEnd(y).Some? && d <= DomainEnd(y).value
    {
      DomainEndLongest(y, d);
    }
  }

  /** A local part, an `@` and a domain laid out in `x` form an e-mail match at its start. */
  lemma EmailOfParts(x: string, a: nat, d: nat)
    requires 0 < a && a + 1 + d <= |x| && x[a] == '@'
    requires All(x[..a], EmailLocal) && IsDomain(x[a + 1..][..d])
    ensures IsEmail(x[..a + 1 + d])
  {
    var w := x[..a + 1 + d];
    assert w[..a] == x[..a];
    SuffixOfPrefix(x, a + 1 + d, a + 1);
    assert EmailSplit(w, a);
  }

  /** What `EmailEnd` finds is an e-mail match. */
  lemma EmailEndSound(x: string)
    requires EmailEnd(x).Some?
    ensures IsEmail(x[..EmailEnd(x).value])
  {
    var a := Run(x, EmailLocal);
    assert 0 < a < |x| && x[a] == '@';
    var y := x[a + 1..];
    var d := DomainEnd(y).value;
    assert EmailEnd(x).value == a + 1 + d;
    DomainEndSound(y);
    EmailOfParts(x, a, d);
  }

  /** The `@` of an e-mail match at the start of `x` ends the maximal local-part run. */
  lemma EmailSplitAtRun(x: string, n: nat, a: int)
    requires n <= |x| && EmailSplit(x[..n], a)
    ensures a == Run(x, EmailLocal)
  {
    var w := x[..n];
    assert w[..a] == x[0..a];
    AllAt(x, EmailLocal, 0, a);
    var m := Run(x, EmailLocal);
    assert x[..m] == x[0..m];
    AllAt(x, EmailLocal, 0, m);
    assert !In(x[a], EmailLocal);
  }

  /** No e-mail match at the start of `x` is longer than what `EmailEnd` finds. */
  lemma EmailEndLongest(x: string, n: nat)
    requires n <= |x| && IsEmail(x[..n])
    ensures EmailEnd(x).Some? && n <= EmailEnd(x).value
  {
    var w := x[..n];
    var a :| EmailSplit(w, a);
    EmailSplitAtRun(x, n, a);
    SuffixOfPrefix(x, n, a + 1);
    DomainEndLongest(x[a + 1..], n - a - 1);
  }

  /** `EmailEnd` returns the longest e-mail match at the start of `x`, and none exists when it
      returns `None`. */
  lemma EmailEndIsLongest(x: string)
    ensures EmailEnd(x).Some? ==> EmailAt(x, 0, EmailEnd(x).value)
    ensures forall n :: EmailAt(x, 0, n) ==> EmailEnd(x).Some? && n <= EmailEnd(x).value
  {
    if EmailEnd(x).Some? {
      EmailEndSound(x);
      assert x[0..EmailEnd(x).value] == x[..EmailEnd(x).value];
    }
    forall n | EmailAt(x, 0, n)
      ensures EmailEnd(x).Some? && n <= EmailEnd(x).value
    {
      assert x[0..n] == x[..n];
      EmailEndLongest(x, n);
    }
  }

  // ---------------------------------------------------------------------------
  // Phone pattern

  /** `w` is matched entirely by `\+?\d[\d\-\s]{7,}\d`. The optional `+` is taken exactly
      when `w` starts with one, since otherwise `\d` would have to match it. */
  predicate IsPhone(w: string) {
    var j := if 0 < |w| && w[0] == '+' then 1 else 0;
    j + 9 <= |w| && IsDigit(w[j]) && All(w[j + 1..|w| - 1], PhoneBody) && IsDigit(w[|w| - 1])
  }

  /** The phone pattern, with both `\b`, matches `x[k..n]`. `before` is the word-ness of the
      character preceding `x` in the searched string (false at its start). */
  predicate PhoneAt(x: string, before: bool, k: int, n: int) {
    && 0 <= k < n <= |x|
    && IsPhone(x[k..n])
    && IsWord(x[k]) != (if k == 0 then before else IsWord(x[k - 1]))
    && (n == |x| || !IsWord(x[n]))
  }

  /** `\d\b` matches at `q`. */
  predicate DigitAtBoundary(x: string, q: int) {
    0 <= q < |x| && IsDigit(x[q]) && (q + 1 == |x| || !IsWord(x[q + 1]))
  }

  /** One past the largest `q` in `[lo, hi)` at which `\d\b` matches: the first end that the
      backtracking of `[\d\-\s]{7,}` accepts. */
  function LastPhoneDigit(x: string, lo: int, hi: int): (r: Option<nat>)
    decreases hi - lo
    ensures r.Some? ==> lo < r.value <= hi && DigitAtBoundary(x, r.value - 1)
    ensures forall q :: lo <= q < hi && DigitAtBoundary(x, q) ==> r.Some? && q < r.value
  {
    if hi <= lo then None
    else if DigitAtBoundary(x, hi - 1) then Some(hi)
    else LastPhoneDigit(x, lo, hi - 1)
  }

  /** Length of the phone match at the start of `x`, if any. */
  function PhoneEnd(x: string, before: bool): (r: Option<nat>)
    ensures r.Some? ==> 0 < r.value <= |x| && DigitAtBoundary(x, r.value - 1)
  {
    if |x| == 0 || IsWord(x[0]) == before then None
    else
      var j := if x[0] == '+' then 1 else 0;
      if |x| <= j || !IsDigit(x[j]) then None
      else LastPhoneDigit(x, j + 8, j + 1 + Run(x[j + 1..], PhoneBody))
  }

  /** The pieces of the phone pattern, laid out in `x`, form a phone match at its start. */
  lemma PhoneAtOfParts(x: string, before: bool, j: nat, n: nat)
    requires 0 < |x| && IsWord(x[0]) != before && j == (if x[0] == '+' then 1 else 0)
    requires j + 9 <= n <= |x| && IsDigit(x[j]) && DigitAtBoundary(x, n - 1)
    requires forall t :: j + 1 <= t < n - 1 ==> In(x[t], PhoneBody)
    ensures PhoneAt(x, before, 0, n)
  {
    AllOf(x, PhoneBody, j + 1, n - 1);
    var w := x[0..n];
    SliceOfPrefix(x, n, j + 1, n - 1);
    assert w[0] == x[0] && w[j] == x[j] && w[n - 1] == x[n - 1];
    assert IsPhone(w);
  }

  /** What `PhoneEnd` finds is a phone match. */
  lemma PhoneEndSound(x: string, before: bool)
    requires PhoneEnd(x, before).Some?
    ensures PhoneAt(x, before, 0, PhoneEnd(x, before).value)
  {
    var j := if x[0] == '+' then 1 else 0;
    var n := PhoneEnd(x, before).value;
    RunAt(x, PhoneBody, j + 1);
    PhoneAtOfParts(x, before, j, n);
  }

  /** No phone match at the start of `x` is longer than what `PhoneEnd` finds. */
  lemma PhoneEndLongest(x: string, before: bool, n: nat)
    requires PhoneAt(x, before, 0, n)
    ensures PhoneEnd(x, before).Some? && n <= PhoneEnd(x, before).value
  {
    var j := if x[0] == '+' then 1 else 0;
    var w := x[..n];
    assert w[0] == x[0];
    assert IsDigit(w[j]) && IsDigit(w[n - 1]) && j + 9 <= n;
    assert w[j + 1..n - 1] == x[j + 1..n - 1];
    AllAt(x, PhoneBody, j + 1, n - 1);
    assert In(x[n - 1], PhoneBody);
    RunReaches(x, PhoneBody, j + 1, n);
    assert DigitAtBoundary(x, n - 1);
  }

  /** `PhoneEnd` returns the longest phone match at the start of `x`, and none exists when it
      returns `None`. */
  lemma PhoneEndIsLongest(x: string, before: bool)
    ensures PhoneEnd(x, before).Some? ==> PhoneAt(x, before, 0, PhoneEnd(x, before).value)
    ensures forall n :: PhoneAt(x, before, 0, n) ==> PhoneEnd(x, before).Some? && n <= PhoneEnd(x, before).value
  {
    if PhoneEnd(x, before).Some? {
      PhoneEndSound(x, before);
    }
    forall n | PhoneAt(x, before, 0, n)
      ensures PhoneEnd(x, before).Some? && n <= PhoneEnd(x, before).value
    {
      PhoneEndLongest(x, before, n);
    }
  }

  // ---------------------------------------------------------------------------
  // Substitution

  /** `EMAIL_RE.sub("***@***", x)`. The e-mail pattern looks neither behind nor ahead of its
      match, so searching at position `i` of the text is matching at the start of `x[i..]`. */
  function MaskEmails(x: string): (r: string)
    ensures (forall i :: 0 <= i < |x| ==> x[i] != '@') ==> r == x
    decreases |x|
  {
    if |x| == 0 then []
    else
      match EmailEnd(x)
      case Some(n) => EmailMask + MaskEmails(x[n..])
      case None => [x[0]] + MaskEmails(x[1..])
  }

  /** `PHONE_RE.sub("***-***-****", x)` continued from a position whose preceding character
      has word-ness `before`; the leading `\b` inspects the original text, so after a match
      that character is the match's last one. */
  function MaskPhones(x: string, before: bool): (r: string)
    ensures (forall i :: 0 <= i < |x| ==> !IsDigit(x[i])) ==> r == x
    decreases |x|
  {
    if |x| == 0 then []
    else
      match PhoneEnd(x, before)
      case Some(n) => PhoneMask + MaskPhones(x[n..], IsWord(x[n - 1]))
      case None => [x[0]] + MaskPhones(x[1..], IsWord(x[0]))
  }

  /** `mask_pii`: the empty text is returned as it is; otherwise e-mail addresses are masked
      first and phone numbers in the result second. */
  function MaskPii(text: string): (r: string)
    ensures |text| == 0 ==> r == text
  {
    if |text| == 0 then text
    else MaskPhones(MaskEmails(text), false)
  }
}
