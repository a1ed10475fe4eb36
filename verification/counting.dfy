/** Small counting functions over sequences, and facts about Euclidean
    division, shared by the stages. */
module Counting {

  /** Sum of a sequence of counts, accumulated from the front as the source's loops do. */
  function Sum(xs: seq<nat>): nat
  {
    if |xs| == 0 then 0 else Sum(xs[..|xs| - 1]) + xs[|xs| - 1]
  }

  /** Summing a sequence extended by one element adds that element. */
  lemma SumAppend(xs: seq<nat>, x: nat)
    ensures Sum(xs + [x]) == Sum(xs) + x
  {
    assert (xs + [x])[..|xs|] == xs;
  }

  /** Incrementing one entry of a sequence of counts increments its sum by one. */
  lemma {:induction false} SumIncrement(xs: seq<nat>, b: nat)
    requires b < |xs|
    ensures Sum(xs[b := xs[b] + 1]) == Sum(xs) + 1
    decreases |xs|
  {
    var ys := xs[b := xs[b] + 1];
    var last := |xs| - 1;
    assert ys[..last] == if b < last then xs[..last][b := xs[b] + 1] else xs[..last];
    if b < last {
      SumIncrement(xs[..last], b);
    }
  }

  /** Number of times `v` occurs in `xs`. */
  function Occurrences(xs: seq<nat>, v: nat): nat
  {
    multiset(xs)[v]
  }

  /** Index of the first occurrence of `v` in `xs`. */
  function FirstIndex(xs: seq<nat>, v: nat): (k: nat)
    requires v in xs
    ensures k < |xs| && xs[k] == v
    ensures forall j :: 0 <= j < k ==> xs[j] != v
  {
    if xs[0] == v then 0 else 1 + FirstIndex(xs[1..], v)
  }

  /** `v` is a most frequent element of `xs`, and every element before its
      first occurrence is strictly less frequent. */
  predicate IsFirstMode(xs: seq<nat>, v: nat) {
    && v in xs
    && (forall j :: 0 <= j < |xs| ==> Occurrences(xs, xs[j]) <= Occurrences(xs, v))
    && (forall j :: 0 <= j < FirstIndex(xs, v) ==> Occurrences(xs, xs[j]) < Occurrences(xs, v))
  }

  lemma {:induction false} MulAtLeast(a: nat, b: int)
    requires b >= 1
    ensures a * b >= a
    decreases b
  {
    if b > 1 {
      MulAtLeast(a, b - 1);
      assert a * b == a * (b - 1) + a;
    }
  }

  /** Quotient and remainder are the unique ones of Euclidean division. */
  lemma DivModUnique(x: int, n: int, q: int, r: int)
    requires n >= 1 && x == n * q + r && 0 <= r < n
    ensures x / n == q && x % n == r
  {
    var q', r' := x / n, x % n;
    assert n * (q - q') == r' - r;
    if q - q' >= 1 {
      MulAtLeast(n, q - q');
    } else if q' - q >= 1 {
      MulAtLeast(n, q' - q);
    }
  }

  /** Advancing a cursor modulo `n` by one is taking the successor modulo `n`. */
  lemma ModSuccessor(a: nat, n: nat)
    requires n >= 1
    ensures (a % n + 1) % n == (a + 1) % n
  {
    var q, r := a / n, a % n;
    assert a == n * q + r;
    if r + 1 < n {
      DivModUnique(r + 1, n, 0, r + 1);
      DivModUnique(a + 1, n, q, r + 1);
    } else {
      DivModUnique(r + 1, n, 1, 0);
      assert a + 1 == n * (q + 1) + 0;
      DivModUnique(a + 1, n, q + 1, 0);
    }
  }
}
