/** The crossing test of `KeyLength`: a coincidence count crosses when it
    exceeds mu + 1.2 * sigma, mu and sigma being the mean and population
    standard deviation of the whole signal.

    The test is stated in exact rational arithmetic without a square root:
    with d = x - mu, "x > mu + 1.2 * sigma" holds exactly when d > 0 and
    d * d > 1.44 * sigma * sigma, and sigma * sigma is the variance.
    `CrossesIsThresholdTest` proves the two forms equal.
 */
module Threshold {
  import opened Counting

  /** Arithmetic mean of the signal (`calculate_mu`). */
  function Mean(xs: seq<nat>): (mu: real)
    requires |xs| > 0
    ensures mu >= 0.0
  {
    Sum(xs) as real / |xs| as real
  }

  /** Sum of the squared deviations of the entries of `xs` from `mu`. */
  function SquaredDeviations(xs: seq<nat>, mu: real): (r: real)
    ensures r >= 0.0
  {
    if |xs| == 0 then 0.0
    else
      var d := xs[|xs| - 1] as real - mu;
      SquaredDeviations(xs[..|xs| - 1], mu) + d * d
  }

  /** Population variance of the signal, the square of `calculate_sigma`. */
  function Variance(xs: seq<nat>): (v: real)
    requires |xs| > 0
    ensures v >= 0.0
  {
    SquaredDeviations(xs, Mean(xs)) / |xs| as real
  }

  /** The count `x` lies above mu + 1.2 * sigma of the signal `xs`. */
  predicate Crosses(xs: seq<nat>, x: nat)
    requires |xs| > 0
  {
    var d := x as real - Mean(xs);
    d > 0.0 && d * d > 1.44 * Variance(xs)
  }

  /** The crossing marks of a signal, one per entry. */
  function Marks(xs: seq<nat>): (marks: seq<bool>)
    requires |xs| > 0
    ensures |marks| == |xs|
    ensures forall i :: 0 <= i < |xs| ==> (marks[i] <==> Crosses(xs, xs[i]))
  {
    seq(|xs|, i requires 0 <= i < |xs| => Crosses(xs, xs[i]))
  }

  /** For every standard deviation sigma (sigma >= 0, sigma * sigma the
      variance), `Crosses` is the source's test x > mu + 1.2 * sigma. */
  lemma CrossesIsThresholdTest(xs: seq<nat>, x: nat, sigma: real)
    requires |xs| > 0
    requires sigma >= 0.0 && sigma * sigma == Variance(xs)
    ensures Crosses(xs, x) <==> x as real > Mean(xs) + 1.2 * sigma
  {
    var d := x as real - Mean(xs);
    var t := 1.2 * sigma;
    assert t * t == 1.44 * (sigma * sigma);
    ComparePositiveBySquares(d, t);
  }

  /** Read with any standard deviation sigma of the signal, the marks are
      the source's test: entry i is marked exactly when xs[i] > mu + 1.2 * sigma. */
  lemma MarksFollowThreshold(xs: seq<nat>, sigma: real)
    requires |xs| > 0
    requires sigma >= 0.0 && sigma * sigma == Variance(xs)
    ensures forall i :: 0 <= i < |xs| ==>
      (Marks(xs)[i] <==> xs[i] as real > Mean(xs) + 1.2 * sigma)
  {
    forall i | 0 <= i < |xs|
      ensures Marks(xs)[i] <==> xs[i] as real > Mean(xs) + 1.2 * sigma
    {
      CrossesIsThresholdTest(xs, xs[i], sigma);
    }
  }

  /** For t >= 0, d exceeds t exactly when d is positive and its square exceeds t's. */
  lemma ComparePositiveBySquares(d: real, t: real)
    requires t >= 0.0
    ensures d > t <==> d > 0.0 && d * d > t * t
  {
    if d > t {
      PositiveProduct(d, d - t);
      NonNegativeProduct(t, d - t);
      assert d * (d - t) == d * d - d * t;
      assert t * (d - t) == t * d - t * t;
    } else if d > 0.0 {
      NonNegativeProduct(d, t - d);
      NonNegativeProduct(t, t - d);
      assert d * (t - d) == d * t - d * d;
      assert t * (t - d) == t * t - t * d;
    }
  }

  lemma NonNegativeProduct(a: real, b: real)
    requires a >= 0.0 && b >= 0.0
    ensures a * b >= 0.0
  {
  }

  lemma PositiveProduct(a: real, b: real)
    requires a > 0.0 && b > 0.0
    ensures a * b > 0.0
  {
  }

  /** A count that crosses is positive: the mean of counts is never negative. */
  lemma CrossingIsPositive(xs: seq<nat>, x: nat)
    requires |xs| > 0 && Crosses(xs, x)
    ensures x > 0
  {
  }

  lemma {:induction false} SumOfConstant(xs: seq<nat>, v: nat)
    requires forall i :: 0 <= i < |xs| ==> xs[i] == v
    ensures Sum(xs) == |xs| * v
    decreases |xs|
  {
    if |xs| > 0 {
      SumOfConstant(xs[..|xs| - 1], v);
    }
  }

  /** A flat signal has mean equal to its value and no crossing: the
      comparison is strict, so a count equal to the threshold does not cross. */
  lemma FlatSignalHasNoCrossing(xs: seq<nat>, v: nat)
    requires |xs| > 0
    requires forall i :: 0 <= i < |xs| ==> xs[i] == v
    ensures Mean(xs) == v as real
    ensures forall i :: 0 <= i < |xs| ==> !Marks(xs)[i]
  {
    SumOfConstant(xs, v);
    assert Sum(xs) as real == |xs| as real * v as real;
  }
}
