/**
 * `core/tokens.py`: the character-count token estimate, one token per four
 * characters and never less than one for a non-empty text.
 */
module Tokens {

  /** `naive_token_estimate`. Python's `len(text) // 4` floors, and on a
      non-negative length Dafny's `/` does the same. */
  function NaiveTokenEstimate(text: string): (n: nat)
    ensures |text| == 0 <==> n == 0
    ensures |text| > 0 ==> 1 <= n <= |text|
    ensures |text| >= 4 ==> 4 * n <= |text| < 4 * n + 4
    ensures 0 < |text| < 4 ==> n == 1
  {
    if |text| == 0 then 0
    else if |text| / 4 < 1 then 1
    else |text| / 4
  }

  /** The estimate depends on the length only. */
  lemma EstimateDependsOnLength(a: string, b: string)
    requires |a| == |b|
    ensures NaiveTokenEstimate(a) == NaiveTokenEstimate(b)
  {
  }

  /** A longer text never gets a smaller estimate. */
  lemma EstimateMonotone(a: string, b: string)
    requires |a| <= |b|
    ensures NaiveTokenEstimate(a) <= NaiveTokenEstimate(b)
  {
    var m, n := NaiveTokenEstimate(a), NaiveTokenEstimate(b);
    if |b| >= 4 && |a| >= 4 {
      assert 4 * m <= |a| <= |b| < 4 * n + 4;
    }
  }

  /** Appending text never lowers the estimate. */
  lemma EstimateOfConcat(a: string, b: string)
    ensures NaiveTokenEstimate(a) <= NaiveTokenEstimate(a + b)
    ensures NaiveTokenEstimate(b) <= NaiveTokenEstimate(a + b)
  {
    EstimateMonotone(a, a + b);
    EstimateMonotone(b, a + b);
  }

  /** Two sample lengths: three characters give one token and a hundred
      characters give twenty-five. */
  lemma EstimateExamples()
    ensures NaiveTokenEstimate("abc") == 1
    ensures NaiveTokenEstimate(seq(100, i => 'x')) == 25
  {
  }
}
