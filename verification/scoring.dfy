/**
 The arithmetic of the results screen: the feedback tier, judged on the
 unrounded share of correct answers, and the whole-number percentage that
 goes into the leaderboard. Floating-point ratios are replaced by exact
 integer cross-multiplication.
 */
module Scoring {

  datatype Tier = Poor | Average | Good | Excellent

  /** Position of a tier from worst (0) to best (3). */
  function Rank(t: Tier): (n: nat)
    ensures n <= 3
  {
    match t
    case Poor => 0
    case Average => 1
    case Good => 2
    case Excellent => 3
  }

  /**
   The feedback tier for `score` correct answers out of `total`, tested on
   the unrounded percentage `100 * score / total`. With no questions at all
   the percentage is `0 / 0`, which fails every comparison, so the tier is poor.
   */
  function TierOf(score: nat, total: nat): (t: Tier)
    ensures total > 0 ==> (t == Excellent <==> 100 * score >= 90 * total)
    ensures total > 0 ==> (t == Good <==> 70 * total <= 100 * score < 90 * total)
    ensures total > 0 ==> (t == Average <==> 50 * total <= 100 * score < 70 * total)
    ensures total > 0 ==> (t == Poor <==> 100 * score < 50 * total)
    ensures total == 0 ==> t == Poor
  {
    if total == 0 then Poor
    else if 100 * score >= 90 * total then Excellent
    else if 100 * score >= 70 * total then Good
    else if 100 * score >= 50 * total then Average
    else Poor
  }

  /** More correct answers out of the same total never give a worse tier. */
  lemma TierIsMonotone(s1: nat, s2: nat, total: nat)
    requires s1 <= s2
    ensures Rank(TierOf(s1, total)) <= Rank(TierOf(s2, total))
  {
    if total > 0 {
      assert 100 * s1 <= 100 * s2;
    }
  }

  /**
   `Math.round(100 * score / total)`: the nearest whole percentage, halves
   rounded up, for a non-negative score and a positive total.
   */
  function RoundedPercent(score: nat, total: nat): (p: nat)
    requires total > 0
    ensures total * (2 * p - 1) <= 200 * score < total * (2 * p + 1)
  {
    var n, d := 200 * score + total, 2 * total;
    var p := n / d;
    assert n == d * p + n % d;
    assert total * (2 * p - 1) == d * p - total;
    assert total * (2 * p + 1) == d * p + total;
    p
  }

  /** A score no higher than the total gives a percentage between 0 and 100. */
  lemma RoundedPercentInRange(score: nat, total: nat)
    requires 0 < total && score <= total
    ensures RoundedPercent(score, total) <= 100
  {
    var p: int := RoundedPercent(score, total);
    assert total * (2 * p - 1) <= total * 200;
    MulCancel(total, 2 * p - 1, 200);
  }

  lemma MulCancel(a: int, b: int, c: int)
    requires a > 0 && a * b <= a * c
    ensures b <= c
  {
  }

  /** A score with `Math.round(100 * score / total) == p` fixes `p`: the rounding is a function of the ratio. */
  lemma RoundedPercentIsUnique(score: nat, total: nat, q: int)
    requires total > 0
    requires total * (2 * q - 1) <= 200 * score < total * (2 * q + 1)
    ensures RoundedPercent(score, total) == q
  {
    var p: int := RoundedPercent(score, total);
    MulLess(total, 2 * q - 1, 2 * p + 1);
    MulLess(total, 2 * p - 1, 2 * q + 1);
  }

  lemma MulLess(a: int, b: int, c: int)
    requires a > 0 && a * b < a * c
    ensures b < c
  {
    assert a * c - a * b == a * (c - b);
  }

  /** Two correct answers out of three: 67 percent, tier average. */
  lemma TwoOfThree()
    ensures RoundedPercent(2, 3) == 67 && TierOf(2, 3) == Average
  {
  }

  /**
   23 of 40 is exactly 57.5 percent, which rounds up to 58. The program
   computes `(23 / 40) * 100` in binary64, which gives 57.49999999999999,
   and stores 57. Among totals up to 50 and scores no higher than the
   total this is the only case where the exact rounding and the program's
   rounding differ; scores above the total, which a double Next click can
   produce, differ in further cases (`FortyOneOfForty`).
   */
  lemma TwentyThreeOfForty()
    ensures RoundedPercent(23, 40) == 58
  {
  }

  /**
   41 of 40 is exactly 102.5 percent, which rounds up to 103. The program
   computes 102.49999999999999 and stores 102.
   */
  lemma FortyOneOfForty()
    ensures RoundedPercent(41, 40) == 103
  {
  }

  /**
   The tier and the stored percentage come from different numbers: 26 of 29
   is 89.66 percent, tier good, yet it is stored as 90.
   */
  lemma TierUsesTheUnroundedRatio()
    ensures TierOf(26, 29) == Good && RoundedPercent(26, 29) == 90
  {
  }
}
