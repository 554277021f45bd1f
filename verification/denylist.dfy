/**
 * The denylist in `safety/denylist.py`: three fixed patterns searched for in
 * order, reporting the source text of every pattern that matches somewhere.
 *
 * All three patterns have the shape `\b X \b`. Each is described twice: once
 * declaratively, as "the span s[i..e] is an X between word boundaries", and
 * once as the position-by-position matcher that the search runs. The lemmas
 * show the two agree, so `CheckDenylist` reports a pattern exactly when some
 * span of the text matches it.
 */
module Denylist {
  import opened Chars

  /** The entries of `PATTERNS`, in their declared order. */
  datatype Pattern = Ssn | Card | Harm

  const Patterns: seq<Pattern> := [Ssn, Card, Harm]

  /** The pattern text that `check_denylist` reports for a hit. */
  function Source(p: Pattern): string {
    match p
    case Ssn => @"\b\d{3}-\d{2}-\d{4}\b"
    case Card => @"\b(?:\d[ -]*?){13,16}\b"
    case Harm => @"(?i)\b(kill|bomb|harm)\b"
  }

  /** Position of a reported pattern text in `PATTERNS`, or -1 for any other text. */
  function Order(src: string): int {
    if src == Source(Ssn) then 0
    else if src == Source(Card) then 1
    else if src == Source(Harm) then 2
    else -1
  }

  /** `\b` at position i: exactly one of the characters on either side is a word character. */
  predicate Boundary(s: seq<char>, i: int)
    requires 0 <= i <= |s|
  {
    (0 < i && IsWord(s[i - 1])) != (i < |s| && IsWord(s[i]))
  }

  // ---------------------------------------------------------------------------
  // Declarative meaning of each pattern on a span
  // ---------------------------------------------------------------------------

  /** `\d{3}-\d{2}-\d{4}`. */
  predicate SsnShape(w: seq<char>) {
    |w| == 11 && forall j :: 0 <= j < |w| ==> if j == 3 || j == 6 then w[j] == '-' else IsDigit(w[j])
  }

  /** ASCII lower-casing, the part of `(?i)` that the keywords can meet. */
  function Lower(c: char): char {
    if 'A' <= c <= 'Z' then (c as int + 32) as char else c
  }

  function LowerAll(w: seq<char>): (r: seq<char>)
    ensures |r| == |w| && forall j :: 0 <= j < |w| ==> r[j] == Lower(w[j])
  {
    seq(|w|, j requires 0 <= j < |w| => Lower(w[j]))
  }

  const Keywords: seq<string> := ["kill", "bomb", "harm"]

  /** `(?i)(kill|bomb|harm)`. */
  predicate KeywordShape(w: seq<char>) {
    LowerAll(w) in Keywords
  }

  /** The four characters from i spell a keyword. */
  predicate KeywordAt(s: seq<char>, i: int)
    requires 0 <= i <= |s|
  {
    i + 4 <= |s| && KeywordShape(s[i..i + 4])
  }

  /** Characters a..b of s are all `[ -]`. */
  ghost predicate Seps(s: seq<char>, a: int, b: int) {
    0 <= a <= b <= |s| && forall j :: a <= j < b ==> In(s[j], CardSep)
  }

  /** s[d..t] is one repetition of `\d[ -]*`: a digit and then separators. */
  ghost predicate Group(s: seq<char>, d: int, t: int) {
    0 <= d < t <= |s| && IsDigit(s[d]) && Seps(s, d + 1, t)
  }

  /** s[d..e] is exactly m repetitions of `\d[ -]*`, each repetition taking any
      number of separators (the lazy `*?` only changes the order in which the
      choices are tried, not which ones exist). */
  ghost predicate Groups(s: seq<char>, d: int, e: int, m: nat)
    decreases m
  {
    0 <= d <= e <= |s| &&
    if m == 0 then d == e
    else exists t :: t <= e && Group(s, d, t) && Groups(s, t, e, m - 1)
  }

  /** The span s[i..e] matches pattern p. */
  ghost predicate Spans(p: Pattern, s: seq<char>, i: int, e: int) {
    0 <= i <= e <= |s| && Boundary(s, i) && Boundary(s, e) &&
    match p
    case Ssn => SsnShape(s[i..e])
    case Card => exists m :: 13 <= m <= 16 && Groups(s, i, e, m)
    case Harm => KeywordShape(s[i..e])
  }

  /** `p.search(s)` succeeds: some span of s matches p. */
  ghost predicate Matches(p: Pattern, s: seq<char>) {
    exists i, e :: Spans(p, s, i, e)
  }

  // ---------------------------------------------------------------------------
  // The matchers
  // ---------------------------------------------------------------------------

  /** End of the run of `[ -]` that starts at a. */
  function SepEnd(s: seq<char>, a: int): (f: int)
    requires 0 <= a <= |s|
    ensures a <= f <= |s|
    ensures forall j :: a <= j < f ==> In(s[j], CardSep)
    ensures f == |s| || !In(s[f], CardSep)
  {
    RunAt(s, CardSep, a);
    a + Run(s[a..], CardSep)
  }

  /** No run of separators is longer than the one `SepEnd` finds. */
  lemma SepEndMaximal(s: seq<char>, a: int, t: int)
    requires Seps(s, a, t)
    ensures t <= SepEnd(s, a)
  {
    RunReaches(s, CardSep, a, t);
  }

  /** Group k of the card pattern starts with the digit at d: the groups before
      it are matched, and the rest of the pattern can still be completed. After
      the digit, the group can only end directly after the digit or at the end
      of the separators, since between two separators there is no `\b` and no
      digit to start the next group. */
  predicate CardFrom(s: seq<char>, d: int, k: int)
    requires 0 <= d <= |s| && 1 <= k <= 16
    decreases 16 - k
  {
    d < |s| && IsDigit(s[d]) &&
    var f := SepEnd(s, d + 1);
    (13 <= k && (Boundary(s, d + 1) || Boundary(s, f))) || (k < 16 && CardFrom(s, f, k + 1))
  }

  /** The pattern p matches at position i. */
  predicate MatchAt(p: Pattern, s: seq<char>, i: int)
    requires 0 <= i <= |s|
  {
    match p
    case Ssn => i + 11 <= |s| && Boundary(s, i) && SsnShape(s[i..i + 11]) && Boundary(s, i + 11)
    case Card => Boundary(s, i) && CardFrom(s, i, 1)
    case Harm => KeywordAt(s, i) && Boundary(s, i) && Boundary(s, i + 4)
  }

  /** Try every start position from i up to the end of s, as `search` does. */
  function Search(p: Pattern, s: seq<char>, i: int): (found: bool)
    requires 0 <= i <= |s|
    ensures found <==> exists j :: i <= j <= |s| && MatchAt(p, s, j)
    decreases |s| - i
  {
    MatchAt(p, s, i) || (i < |s| && Search(p, s, i + 1))
  }

  // ---------------------------------------------------------------------------
  // The card matcher against the declarative pattern
  // ---------------------------------------------------------------------------

  /** Groups k.. of the card pattern match from d to some boundary e. */
  ghost predicate CardRest(s: seq<char>, d: int, k: int) {
    exists e, m :: 1 <= m && 13 <= k - 1 + m <= 16 && Groups(s, d, e, m) && d <= e <= |s| && Boundary(s, e)
  }

  /** Inside a run of separators there is neither a `\b` nor a digit. */
  lemma InsideSeps(s: seq<char>, a: int, e: int)
    requires 0 < a <= e <= |s|
    ensures a < e < SepEnd(s, a) ==> !Boundary(s, e)
    ensures e < SepEnd(s, a) ==> !IsDigit(s[e])
  {
  }

  lemma CardFromSound(s: seq<char>, d: int, k: int)
    requires 0 <= d <= |s| && 1 <= k <= 16
    ensures CardFrom(s, d, k) ==> CardRest(s, d, k)
    decreases 16 - k
  {
    if CardFrom(s, d, k) {
      var f := SepEnd(s, d + 1);
      assert Seps(s, d + 1, d + 1) && Seps(s, d + 1, f);
      if 13 <= k && Boundary(s, d + 1) {
        assert Group(s, d, d + 1) && Groups(s, d + 1, d + 1, 0);
        assert Groups(s, d, d + 1, 1);
      } else if 13 <= k && Boundary(s, f) {
        assert Group(s, d, f) && Groups(s, f, f, 0);
        assert Groups(s, d, f, 1);
      } else {
        CardFromSound(s, f, k + 1);
        var e, m :| 1 <= m && 13 <= k + m <= 16 && Groups(s, f, e, m) && f <= e <= |s| && Boundary(s, e);
        assert Group(s, d, f);
        assert Groups(s, d, e, m + 1);
      }
    }
  }

  lemma CardFromComplete(s: seq<char>, d: int, k: int)
    requires 0 <= d <= |s| && 1 <= k <= 16
    ensures CardRest(s, d, k) ==> CardFrom(s, d, k)
    decreases 16 - k
  {
    if CardRest(s, d, k) {
      var e, m :| 1 <= m && 13 <= k - 1 + m <= 16 && Groups(s, d, e, m) && d <= e <= |s| && Boundary(s, e);
      var t :| t <= e && Group(s, d, t) && Groups(s, t, e, m - 1);
      var f := SepEnd(s, d + 1);
      SepEndMaximal(s, d + 1, t);
      InsideSeps(s, d + 1, e);
      if m == 1 {
        assert e == d + 1 || e == f;
      } else {
        var t2 :| t2 <= e && Group(s, t, t2) && Groups(s, t2, e, m - 2);
        InsideSeps(s, d + 1, t);
        assert t == f;
        assert CardRest(s, f, k + 1);
        CardFromComplete(s, f, k + 1);
      }
    }
  }

  /** The card matcher started at i accepts exactly when some span from i
      consists of 13 to 16 groups between word boundaries. */
  lemma {:induction false} CardMatchAtIff(s: seq<char>, i: int)
    requires 0 <= i <= |s|
    ensures MatchAt(Card, s, i) <==> exists e :: Spans(Card, s, i, e)
  {
    CardFromSound(s, i, 1);
    CardFromComplete(s, i, 1);
    if MatchAt(Card, s, i) {
      var e, m :| 1 <= m && 13 <= m <= 16 && Groups(s, i, e, m) && i <= e <= |s| && Boundary(s, e);
      assert Spans(Card, s, i, e);
    }
    if exists e :: Spans(Card, s, i, e) {
      var e :| Spans(Card, s, i, e);
      var m :| 13 <= m <= 16 && Groups(s, i, e, m);
      assert CardRest(s, i, 1);
    }
  }

  /** Each matcher accepts at i exactly when some span starting at i matches. */
  lemma MatchAtIff(p: Pattern, s: seq<char>, i: int)
    requires 0 <= i <= |s|
    ensures MatchAt(p, s, i) <==> exists e :: Spans(p, s, i, e)
  {
    match p
    case Ssn =>
      if MatchAt(p, s, i) {
        assert Spans(p, s, i, i + 11);
      }
    case Card =>
      CardMatchAtIff(s, i);
    case Harm =>
      if MatchAt(p, s, i) {
        assert Spans(p, s, i, i + 4);
      }
      forall e | Spans(p, s, i, e) ensures e == i + 4 {
        assert |LowerAll(s[i..e])| == e - i;
      }
  }

  /** The search succeeds exactly when the pattern matches some span of the text. */
  lemma SearchIff(p: Pattern, s: seq<char>)
    ensures Search(p, s, 0) <==> Matches(p, s)
  {
    forall i | 0 <= i <= |s| ensures MatchAt(p, s, i) <==> exists e :: Spans(p, s, i, e) {
      MatchAtIff(p, s, i);
    }
    if Matches(p, s) {
      var i, e :| Spans(p, s, i, e);
      assert MatchAt(p, s, i);
    }
  }

  // ---------------------------------------------------------------------------
  // check_denylist
  // ---------------------------------------------------------------------------

  /** Every entry is the text of one of the patterns, and they come in the
      order of `PATTERNS` without repetition. */
  predicate InDeclaredOrder(hits: seq<string>) {
    && (forall i :: 0 <= i < |hits| ==> 0 <= Order(hits[i]))
    && (forall i, j :: 0 <= i < j < |hits| ==> Order(hits[i]) < Order(hits[j]))
  }

  /** The reported text of p, if p matches s. */
  function Hit(p: Pattern, s: seq<char>): seq<string> {
    if Search(p, s, 0) then [Source(p)] else []
  }

  /** The reported texts of the patterns in ps that match s, in the order of ps. */
  function Hits(ps: seq<Pattern>, s: seq<char>): seq<string> {
    if |ps| == 0 then [] else Hit(ps[0], s) + Hits(ps[1..], s)
  }

  lemma HitsOfPatterns(s: seq<char>)
    ensures Hits(Patterns, s) == Hit(Ssn, s) + Hit(Card, s) + Hit(Harm, s)
  {
    var ps := Patterns;
    assert ps[1..] == [Card, Harm];
    assert Hits(ps, s) == Hit(Ssn, s) + Hits([Card, Harm], s);
    assert [Card, Harm][1..] == [Harm];
    assert Hits([Card, Harm], s) == Hit(Card, s) + Hits([Harm], s);
    assert Hits([Harm], s) == Hit(Harm, s) + Hits([], s);
  }

  /** The facts about three optional hits in declared order, whatever the searches found. */
  lemma ThreeHits(a: bool, b: bool, c: bool, hits: seq<string>)
    requires hits == (if a then [Source(Ssn)] else []) + (if b then [Source(Card)] else []) + (if c then [Source(Harm)] else [])
    ensures Source(Ssn) in hits <==> a
    ensures Source(Card) in hits <==> b
    ensures Source(Harm) in hits <==> c
    ensures InDeclaredOrder(hits)
    ensures |hits| <= 3
    ensures hits == [] <==> !a && !b && !c
  {
  }

  /** The loop over `PATTERNS` reports each pattern at most once, in declared order. */
  lemma HitsInOrder(text: string, hits: seq<string>)
    requires hits == Hits(Patterns, text)
    ensures InDeclaredOrder(hits)
    ensures |hits| <= 3
  {
    HitsOfPatterns(text);
    ThreeHits(Search(Ssn, text, 0), Search(Card, text, 0), Search(Harm, text, 0), hits);
  }

  /** The loop over `PATTERNS` reports exactly the patterns that match. */
  lemma HitsAreMatches(text: string, hits: seq<string>)
    requires hits == Hits(Patterns, text)
    ensures forall p :: Source(p) in hits <==> Matches(p, text)
    ensures hits == [] <==> forall p :: !Matches(p, text)
  {
    var a, b, c := Search(Ssn, text, 0), Search(Card, text, 0), Search(Harm, text, 0);
    HitsOfPatterns(text);
    ThreeHits(a, b, c, hits);
    forall p ensures Source(p) in hits <==> Matches(p, text) {
      SearchIff(p, text);
      match p
      case Ssn =>
      case Card =>
      case Harm =>
    }
    assert (forall p :: !Matches(p, text)) <==> !a && !b && !c by {
      SearchIff(Ssn, text);
      SearchIff(Card, text);
      SearchIff(Harm, text);
    }
  }

  /** `check_denylist`: the empty text has no hits; otherwise every pattern that
      matches is reported once, in declared order, and no other text is. */
  function CheckDenylist(text: string): (hits: seq<string>)
    ensures |text| == 0 ==> hits == []
    ensures forall p :: Source(p) in hits <==> |text| > 0 && Matches(p, text)
    ensures InDeclaredOrder(hits)
    ensures |hits| <= 3
    ensures hits == [] <==> |text| == 0 || forall p :: !Matches(p, text)
  {
    if |text| == 0 then []
    else
      HitsInOrder(text, Hits(Patterns, text));
      HitsAreMatches(text, Hits(Patterns, text));
      Hits(Patterns, text)
  }

  // ---------------------------------------------------------------------------
  // Consequences
  // ---------------------------------------------------------------------------

  /** A social-security-number shape between word boundaries is always reported. */
  lemma SsnIsReported(text: string, i: int)
    requires 0 <= i && i + 11 <= |text|
    requires Boundary(text, i) && Boundary(text, i + 11) && SsnShape(text[i..i + 11])
    ensures Source(Ssn) in CheckDenylist(text)
  {
    assert Spans(Ssn, text, i, i + 11);
  }

  /** A run of only digits is one group per digit. */
  lemma {:induction false} DigitsAreGroups(s: seq<char>, d: int, e: int)
    requires 0 <= d <= e <= |s|
    requires forall j :: d <= j < e ==> IsDigit(s[j])
    ensures Groups(s, d, e, e - d)
    decreases e - d
  {
    if d < e {
      DigitsAreGroups(s, d + 1, e);
      assert Seps(s, d + 1, d + 1) && Group(s, d, d + 1);
    }
  }

  /** 13 to 16 consecutive digits between word boundaries are reported as a card number. */
  lemma CardDigitsAreReported(text: string, i: int, n: int)
    requires 13 <= n <= 16 && 0 <= i && i + n <= |text|
    requires forall j :: i <= j < i + n ==> IsDigit(text[j])
    requires Boundary(text, i) && Boundary(text, i + n)
    ensures Source(Card) in CheckDenylist(text)
  {
    DigitsAreGroups(text, i, i + n);
    assert Spans(Card, text, i, i + n);
  }

  /** Every match of the first two patterns starts with a digit. */
  lemma DigitPatternsNeedDigit(p: Pattern, s: seq<char>, i: int, e: int)
    ensures Spans(p, s, i, e) && p != Harm ==> i < |s| && IsDigit(s[i])
  {
    if Spans(p, s, i, e) && p == Ssn {
      assert s[i..e][0] == s[i];
    }
  }

  /** A keyword match is four characters wide. */
  lemma KeywordSpanWidth(s: seq<char>, i: int, e: int)
    ensures Spans(Harm, s, i, e) ==> e == i + 4 && KeywordAt(s, i)
  {
    if Spans(Harm, s, i, e) {
      assert |LowerAll(s[i..e])| == e - i;
    }
  }

  /** A text with no digit and no keyword, in any case, has no hits. */
  lemma CleanTextHasNoHits(text: string)
    requires forall j :: 0 <= j < |text| ==> !IsDigit(text[j])
    requires forall j :: 0 <= j <= |text| ==> !(KeywordAt(text, j) && Boundary(text, j) && Boundary(text, j + 4))
    ensures CheckDenylist(text) == []
  {
    forall p, i, e ensures !Spans(p, text, i, e) {
      DigitPatternsNeedDigit(p, text, i, e);
      KeywordSpanWidth(text, i, e);
    }
  }
}
