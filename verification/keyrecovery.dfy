/** `findDecryptionKey`: the letter stream is split into the n key positions,
    each position's letters are counted per alphabet letter, and the key
    letter is the rotation whose counts best match English letter
    frequencies.

    Scores are kept in integers: letter counts times frequencies in
    hundredths of a percent. The source first divides the counts by the
    position's letter total, a positive factor common to all 26 rotations,
    so the rotation chosen is the same in exact arithmetic.
 */
module KeyRecovery {
  import opened Outcomes
  import opened Counting
  import opened Alphabet
  import opened Extraction

  /** Relative frequency of 'A'..'Z' in English text, in hundredths of a percent. */
  const ENGLISH: seq<nat> := [
    817, 149, 278, 425, 1270, 223, 202, 609, 697, 15, 77, 403,
    241, 675, 751, 193, 10, 599, 633, 906, 276, 98, 236, 15,
    197, 7
  ]

  /** A reference distribution: one positive weight per letter. */
  predicate IsReference(reference: seq<nat>) {
    |reference| == ALPHABET_SIZE && forall k :: 0 <= k < |reference| ==> reference[k] > 0
  }

  /** The English table is a reference distribution. */
  lemma EnglishIsReference()
    ensures IsReference(ENGLISH)
  {
    assert forall k :: 0 <= k < |ENGLISH| ==> ENGLISH[k] >= 7;
  }

  /** Place of a letter in the alphabet, whatever its case. */
  function Bucket(c: char): (b: nat)
    requires IsAlpha(c)
    ensures b < ALPHABET_SIZE
  {
    c as int - Base(c)
  }

  /** The letters at key position `i`: s[i], s[i + n], s[i + 2n], ... */
  function PositionLetters(s: seq<char>, n: nat, i: nat): seq<char>
    requires n >= 1
    decreases |s| - i
  {
    if i >= |s| then [] else [s[i]] + PositionLetters(s, n, i + n)
  }

  /** The indices the source visits for key position `i`. */
  ghost function PositionIndices(len: nat, n: nat, i: nat): set<nat>
    requires n >= 1
  {
    set j: nat | i <= j < len && j % n == i % n
  }

  lemma NextInClass(i: nat, j: nat, n: nat)
    requires n >= 1 && i < j && j % n == i % n
    ensures i + n <= j
  {
    var q := j / n - i / n;
    assert j - i == n * q;
    assert q >= 1;
    assert n * q >= n;
  }

  lemma SameClassAfterStride(i: nat, n: nat)
    requires n >= 1
    ensures (i + n) % n == i % n
  {
    assert i == n * (i / n) + i % n;
    assert i + n == n * (i / n + 1) + i % n;
    DivModUnique(i + n, n, i / n + 1, i % n);
  }

  /** The indices of a position split into its first index and the indices one stride on. */
  lemma PositionIndicesStep(len: nat, n: nat, i: nat)
    requires n >= 1 && i < len
    ensures PositionIndices(len, n, i) == {i} + PositionIndices(len, n, i + n)
    ensures i !in PositionIndices(len, n, i + n)
  {
    var here, rest := PositionIndices(len, n, i), PositionIndices(len, n, i + n);
    SameClassAfterStride(i, n);
    forall j | j in here
      ensures j == i || j in rest
    {
      if j != i {
        NextInClass(i, j, n);
      }
    }
    forall j | j in rest
      ensures j in here
    {
    }
  }

  lemma {:induction false} PositionLettersCardinality(s: seq<char>, n: nat, i: nat)
    requires n >= 1
    ensures |PositionLetters(s, n, i)| == |PositionIndices(|s|, n, i)|
    decreases |s| - i
  {
    if i >= |s| {
      assert PositionIndices(|s|, n, i) == {};
    } else {
      PositionLettersCardinality(s, n, i + n);
      PositionIndicesStep(|s|, n, i);
    }
  }

  /** Position `i` < n holds one letter for every index below the text length
      that is congruent to `i` modulo `n`. */
  lemma PositionLettersCount(s: seq<char>, n: nat, i: nat)
    requires 1 <= n && i < n
    ensures |PositionLetters(s, n, i)| == |set j: nat | j < |s| && j % n == i|
  {
    PositionLettersCardinality(s, n, i);
    DivModUnique(i, n, 0, i);
    assert PositionIndices(|s|, n, i) == set j: nat | j < |s| && j % n == i by {
      forall j: nat | j < i
        ensures j % n != i
      {
        DivModUnique(j, n, 0, j);
      }
    }
  }

  /** Number of letters of `xs` in bucket `b` (`tempFreq[b]` before normalisation). */
  function BucketCount(xs: seq<char>, b: nat): nat
  {
    if |xs| == 0 then 0
    else
      var x := xs[|xs| - 1];
      BucketCount(xs[..|xs| - 1], b) + (if IsAlpha(x) && Bucket(x) == b then 1 else 0)
  }

  lemma {:induction false} BucketCountAppend(a: seq<char>, c: seq<char>, b: nat)
    ensures BucketCount(a + c, b) == BucketCount(a, b) + BucketCount(c, b)
    decreases |c|
  {
    if |c| == 0 {
      assert a + c == a;
    } else {
      assert (a + c)[..|a + c| - 1] == a + c[..|c| - 1];
      BucketCountAppend(a, c[..|c| - 1], b);
    }
  }

  /** The 26 per-letter counts of `xs`. */
  function Histogram(xs: seq<char>): (h: seq<nat>)
    ensures |h| == ALPHABET_SIZE
  {
    seq(ALPHABET_SIZE, b requires 0 <= b < ALPHABET_SIZE => BucketCount(xs, b))
  }

  /** The per-letter counts add up to the number of letters counted. */
  lemma {:induction false} HistogramSum(xs: seq<char>)
    ensures Sum(Histogram(xs)) == |Letters(xs)|
    decreases |xs|
  {
    if |xs| > 0 {
      var init, x := xs[..|xs| - 1], xs[|xs| - 1];
      HistogramSum(init);
      if IsAlpha(x) {
        assert Histogram(xs) == Histogram(init)[Bucket(x) := Histogram(init)[Bucket(x)] + 1];
        SumIncrement(Histogram(init), Bucket(x));
      } else {
        assert Histogram(xs) == Histogram(init);
      }
    } else {
      assert Histogram(xs) == seq(ALPHABET_SIZE, b => 0);
      ZeroSum(ALPHABET_SIZE);
    }
  }

  lemma {:induction false} ZeroSum(m: nat)
    ensures Sum(seq(m, b => 0)) == 0
  {
    if m > 0 {
      assert seq(m, b => 0)[..m - 1] == seq(m - 1, b => 0);
      ZeroSum(m - 1);
    }
  }

  /** The letters the source counts for key position `i` (its `count`). */
  function Observations(s: seq<char>, n: nat, i: nat): nat
    requires n >= 1
  {
    |Letters(PositionLetters(s, n, i))|
  }

  /** In a stream of letters, the counts of key position `i` < n sum to the
      number of indices below the stream length congruent to `i` modulo `n`. */
  lemma PositionCountsSum(s: seq<char>, n: nat, i: nat)
    requires 1 <= n && i < n
    requires forall k :: 0 <= k < |s| ==> IsAlpha(s[k])
    ensures Sum(Histogram(PositionLetters(s, n, i))) == |set j: nat | j < |s| && j % n == i|
  {
    HistogramSum(PositionLetters(s, n, i));
    PositionLettersAreLetters(s, n, i);
    LettersOfLetters(PositionLetters(s, n, i));
    PositionLettersCount(s, n, i);
  }

  lemma {:induction false} PositionLettersAreLetters(s: seq<char>, n: nat, i: nat)
    requires n >= 1
    requires forall k :: 0 <= k < |s| ==> IsAlpha(s[k])
    ensures forall k :: 0 <= k < |PositionLetters(s, n, i)| ==> IsAlpha(PositionLetters(s, n, i)[k])
    decreases |s| - i
  {
    if i < |s| {
      PositionLettersAreLetters(s, n, i + n);
    }
  }

  /** Counts one key position with the source's stride loop: `hist` is the
      per-letter count and `count` the number of letters seen. */
  method CountPosition(s: seq<char>, n: nat, i: nat) returns (hist: seq<nat>, count: nat)
    requires n >= 1
    ensures hist == Histogram(PositionLetters(s, n, i))
    ensures count == Observations(s, n, i)
  {
    hist := seq(ALPHABET_SIZE, b => 0);
    count := 0;
    var j := i;
    while j < |s|
      invariant |hist| == ALPHABET_SIZE
      invariant forall b :: 0 <= b < ALPHABET_SIZE ==>
        hist[b] + BucketCount(PositionLetters(s, n, j), b) == BucketCount(PositionLetters(s, n, i), b)
      invariant count + |Letters(PositionLetters(s, n, j))| == Observations(s, n, i)
      decreases |s| - j
    {
      var c := s[j];
      var rest := PositionLetters(s, n, j + n);
      assert PositionLetters(s, n, j) == [c] + rest;
      LettersAppend([c], rest);
      assert [c][..0] == [];
      forall b | 0 <= b < ALPHABET_SIZE
        ensures BucketCount(PositionLetters(s, n, j), b)
             == (if IsAlpha(c) && Bucket(c) == b then 1 else 0) + BucketCount(rest, b)
      {
        BucketCountAppend([c], rest, b);
      }
      assert Letters([c]) == if IsAlpha(c) then [c] else [];
      if IsAlpha(c) {
        hist := hist[Bucket(c) := hist[Bucket(c)] + 1];
        count := count + 1;
      }
      j := j + n;
    }
    assert PositionLetters(s, n, j) == [];
  }

  /** Correlation of the counts `h` rotated by `j` with the reference, over the first `m` letters. */
  function Correlation(h: seq<nat>, reference: seq<nat>, j: nat, m: nat): int
    requires |h| == ALPHABET_SIZE && |reference| == ALPHABET_SIZE
    requires m <= ALPHABET_SIZE
  {
    if m == 0 then 0
    else Correlation(h, reference, j, m - 1) + h[(m - 1 + j) % ALPHABET_SIZE] * reference[m - 1]
  }

  /** The score of every rotation j of `h` against the reference. */
  function Scores(h: seq<nat>, reference: seq<nat>): (scores: seq<int>)
    requires |h| == ALPHABET_SIZE && |reference| == ALPHABET_SIZE
    ensures |scores| == ALPHABET_SIZE
  {
    seq(ALPHABET_SIZE, j requires 0 <= j < ALPHABET_SIZE => Correlation(h, reference, j, ALPHABET_SIZE))
  }

  /** The source's score of rotation `j` over the first `m` letters: the
      counts as percentages of the position's letter total `count`, times the
      reference read as percentages. */
  function NormalisedCorrelation(h: seq<nat>, reference: seq<nat>, count: nat, j: nat, m: nat): real
    requires |h| == ALPHABET_SIZE && |reference| == ALPHABET_SIZE
    requires m <= ALPHABET_SIZE && count > 0
  {
    if m == 0 then 0.0
    else
      var share := h[(m - 1 + j) % ALPHABET_SIZE] as real * 100.0 / count as real;
      NormalisedCorrelation(h, reference, count, j, m - 1) + share * (reference[m - 1] as real / 100.0)
  }

  /** The normalised score is the integer score divided by the letter total. */
  lemma {:induction false} NormalisedCorrelationScales(h: seq<nat>, reference: seq<nat>, count: nat, j: nat, m: nat)
    requires |h| == ALPHABET_SIZE && |reference| == ALPHABET_SIZE
    requires m <= ALPHABET_SIZE && count > 0
    ensures NormalisedCorrelation(h, reference, count, j, m) == Correlation(h, reference, j, m) as real / count as real
  {
    if m > 0 {
      NormalisedCorrelationScales(h, reference, count, j, m - 1);
      var a := h[(m - 1 + j) % ALPHABET_SIZE];
      var b := reference[m - 1];
      var c := count as real;
      var x := Correlation(h, reference, j, m - 1);
      var ab := a * b;
      assert Correlation(h, reference, j, m) == x + ab;
      var share := a as real * 100.0 / c;
      assert NormalisedCorrelation(h, reference, count, j, m)
        == x as real / c + share * (b as real / 100.0);
      ScaledTerm(a as real, b as real, ab as real, c);
      SumOfQuotients(x as real, ab as real, c);
      assert Correlation(h, reference, j, m) as real == x as real + ab as real;
    }
  }

  lemma ScaledTerm(a: real, b: real, ab: real, c: real)
    requires c > 0.0 && ab == a * b
    ensures (a * 100.0 / c) * (b / 100.0) == ab / c
  {
    assert a * 100.0 / c == 100.0 * (a / c);
    assert b / 100.0 * 100.0 == b;
  }

  lemma SumOfQuotients(x: real, y: real, c: real)
    requires c > 0.0
    ensures x / c + y / c == (x + y) / c
  {
  }

  /** Dividing by a positive total keeps every comparison. */
  lemma DivisionKeepsOrder(x: real, y: real, c: real)
    requires c > 0.0
    ensures x / c > y / c <==> x > y
  {
    assert x / c - y / c == (x - y) / c;
  }

  /** Normalising the counts does not change which rotation wins: the
      source's scores compare, and compare with 0, exactly as the integer
      scores do. */
  lemma NormalisationKeepsChoice(h: seq<nat>, reference: seq<nat>, count: nat)
    requires |h| == ALPHABET_SIZE && |reference| == ALPHABET_SIZE && count > 0
    ensures forall j, k :: 0 <= j < ALPHABET_SIZE && 0 <= k < ALPHABET_SIZE ==>
      (NormalisedCorrelation(h, reference, count, j, ALPHABET_SIZE)
         > NormalisedCorrelation(h, reference, count, k, ALPHABET_SIZE)
       <==> Scores(h, reference)[j] > Scores(h, reference)[k])
    ensures forall j :: 0 <= j < ALPHABET_SIZE ==>
      (NormalisedCorrelation(h, reference, count, j, ALPHABET_SIZE) > 0.0 <==> Scores(h, reference)[j] > 0)
  {
    var c := count as real;
    forall j | 0 <= j < ALPHABET_SIZE
      ensures NormalisedCorrelation(h, reference, count, j, ALPHABET_SIZE)
        == Scores(h, reference)[j] as real / c
    {
      NormalisedCorrelationScales(h, reference, count, j, ALPHABET_SIZE);
    }
    forall j, k | 0 <= j < ALPHABET_SIZE && 0 <= k < ALPHABET_SIZE
      ensures Scores(h, reference)[j] as real / c > Scores(h, reference)[k] as real / c
        <==> Scores(h, reference)[j] > Scores(h, reference)[k]
    {
      DivisionKeepsOrder(Scores(h, reference)[j] as real, Scores(h, reference)[k] as real, c);
    }
    forall j | 0 <= j < ALPHABET_SIZE
      ensures Scores(h, reference)[j] as real / c > 0.0 <==> Scores(h, reference)[j] > 0
    {
      DivisionKeepsOrder(Scores(h, reference)[j] as real, 0.0, c);
    }
  }

  lemma {:induction false} CorrelationPositive(h: seq<nat>, reference: seq<nat>, j: nat, m: nat, k: nat)
    requires |h| == ALPHABET_SIZE && IsReference(reference)
    requires m <= ALPHABET_SIZE && k < ALPHABET_SIZE && h[(k + j) % ALPHABET_SIZE] > 0
    ensures Correlation(h, reference, j, m) >= 0
    ensures m > k ==> Correlation(h, reference, j, m) > 0
  {
    if m > 0 {
      CorrelationPositive(h, reference, j, m - 1, k);
      if m - 1 == k {
        assert h[(m - 1 + j) % ALPHABET_SIZE] * reference[m - 1] > 0;
      }
    }
  }

  /** Rotation `j` brings letter `b` to place `k`. */
  lemma RotationPlace(b: nat, j: nat) returns (k: nat)
    requires b < ALPHABET_SIZE && j < ALPHABET_SIZE
    ensures k < ALPHABET_SIZE && (k + j) % ALPHABET_SIZE == b
  {
    k := if b >= j then b - j else b + ALPHABET_SIZE - j;
  }

  /** Once a key position has a letter, every rotation scores above zero
      against a reference with positive weights. */
  lemma ScoresPositive(h: seq<nat>, reference: seq<nat>, b: nat)
    requires |h| == ALPHABET_SIZE && IsReference(reference)
    requires b < ALPHABET_SIZE && h[b] > 0
    ensures forall j :: 0 <= j < ALPHABET_SIZE ==> Scores(h, reference)[j] > 0
  {
    forall j | 0 <= j < ALPHABET_SIZE
      ensures Scores(h, reference)[j] > 0
    {
      var k := RotationPlace(b, j);
      CorrelationPositive(h, reference, j, ALPHABET_SIZE, k);
    }
  }

  /** `r` is the first index of the largest score, and that score is positive. */
  predicate IsFirstMax(scores: seq<int>, r: nat) {
    && r < |scores|
    && scores[r] > 0
    && (forall j :: 0 <= j < |scores| ==> scores[j] <= scores[r])
    && (forall j :: 0 <= j < r ==> scores[j] < scores[r])
  }

  /** The source's argmax: starts from score 0 and index -1 and moves only on a
      strictly larger score. */
  method BestShift(scores: seq<int>) returns (r: int)
    ensures -1 <= r < |scores|
    ensures r == -1 <==> forall j :: 0 <= j < |scores| ==> scores[j] <= 0
    ensures r >= 0 ==> IsFirstMax(scores, r)
  {
    var maxTotal := 0;
    r := -1;
    var j := 0;
    while j < |scores|
      invariant 0 <= j <= |scores|
      invariant -1 <= r < j
      invariant r == -1 ==> maxTotal == 0 && forall k :: 0 <= k < j ==> scores[k] <= 0
      invariant r >= 0 ==> maxTotal == scores[r] > 0
      invariant forall k :: 0 <= k < j ==> scores[k] <= maxTotal
      invariant r >= 0 ==> forall k :: 0 <= k < r ==> scores[k] < maxTotal
    {
      if scores[j] > maxTotal {
        maxTotal := scores[j];
        r := j;
      }
      j := j + 1;
    }
  }

  /** The scores of every rotation for key position `i`. */
  function PositionScores(s: seq<char>, n: nat, i: nat, reference: seq<nat>): seq<int>
    requires n >= 1 && |reference| == ALPHABET_SIZE
  {
    Scores(Histogram(PositionLetters(s, n, i)), reference)
  }

  /** Recovers a key of length `n` for the letter stream `s`; fails on the
      first key position that holds no letter. */
  method RecoverKey(s: seq<char>, n: nat, reference: seq<nat>) returns (r: Result<seq<char>>)
    requires n >= 1 && IsReference(reference)
    ensures r.Ok? ==> |r.value| == n && IsKey(r.value)
    ensures r.Ok? ==> forall i :: 0 <= i < n ==>
      IsFirstMax(PositionScores(s, n, i, reference), KeyShift(r.value[i]))
    ensures r.Err? <==> exists i :: 0 <= i < n && Observations(s, n, i) == 0
    ensures r.Err? ==> r.error.EmptyKeyPosition? && r.error.position < n
    ensures r.Err? ==> Observations(s, n, r.error.position) == 0
    ensures r.Err? ==> forall i :: 0 <= i < r.error.position ==> Observations(s, n, i) > 0
  {
    var key: seq<char> := [];
    for i := 0 to n
      invariant |key| == i
      invariant forall k :: 0 <= k < i ==> IsUpper(key[k])
      invariant forall k :: 0 <= k < i ==> Observations(s, n, k) > 0
      invariant forall k :: 0 <= k < i ==> IsFirstMax(PositionScores(s, n, k, reference), KeyShift(key[k]))
    {
      var letter := KeyLetter(s, n, i, reference);
      match letter
      case None =>
        return Err(EmptyKeyPosition(i));
      case Some(c) =>
        key := key + [c];
    }
    return Ok(key);
  }

  /** One iteration of the source's key loop: counts key position `i` and
      picks the first best-scoring rotation; no letter when the position is empty. */
  method KeyLetter(s: seq<char>, n: nat, i: nat, reference: seq<nat>) returns (r: Option<char>)
    requires n >= 1 && IsReference(reference)
    ensures r.None? <==> Observations(s, n, i) == 0
    ensures r.Some? ==> IsUpper(r.value)
    ensures r.Some? ==> IsFirstMax(PositionScores(s, n, i, reference), KeyShift(r.value))
  {
    var hist, count := CountPosition(s, n, i);
    if count == 0 {
      return None;
    }
    HistogramSum(PositionLetters(s, n, i));
    var b :| 0 <= b < ALPHABET_SIZE && hist[b] > 0 by {
      NonZeroSum(hist);
    }
    ScoresPositive(hist, reference, b);
    assert Scores(hist, reference)[0] > 0;
    var shift := BestShift(Scores(hist, reference));
    return Some(ShiftLetter(shift));
  }

  /** A sequence of counts with a positive sum has a positive entry. */
  lemma {:induction false} NonZeroSum(xs: seq<nat>)
    requires Sum(xs) > 0
    ensures exists b :: 0 <= b < |xs| && xs[b] > 0
    decreases |xs|
  {
    if xs[|xs| - 1] == 0 {
      NonZeroSum(xs[..|xs| - 1]);
      var b :| 0 <= b < |xs| - 1 && xs[..|xs| - 1][b] > 0;
      assert xs[b] > 0;
    }
  }

  /** In a stream of letters, some key position below `n` is empty exactly when `n`
      exceeds the stream length. */
  lemma EmptyPositionIffKeyTooLong(s: seq<char>, n: nat)
    requires n >= 1
    requires forall k :: 0 <= k < |s| ==> IsAlpha(s[k])
    ensures (exists i :: 0 <= i < n && Observations(s, n, i) == 0) <==> n > |s|
  {
    if n > |s| {
      assert Observations(s, n, |s|) == 0;
    } else {
      forall i | 0 <= i < n
        ensures Observations(s, n, i) > 0
      {
        PositionLettersAreLetters(s, n, i);
        LettersOfLetters(PositionLetters(s, n, i));
      }
    }
  }
}
