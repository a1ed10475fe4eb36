/** Gap recording and mode selection of `KeyLength`.

    Scanning the crossing marks in shift order, every crossing after the
    first records its distance from the previous crossing; the key length
    is the recorded gap that occurs most often, ties going to the gap
    recorded first.
 */
module Gaps {
  import opened Outcomes
  import opened Counting

  /** Strictly increasing sequences of indices. */
  predicate Increasing(idx: seq<nat>) {
    forall j, k :: 0 <= j < k < |idx| ==> idx[j] < idx[k]
  }

  /** The indices of the crossings, in increasing order. */
  function CrossingIndices(marks: seq<bool>): (idx: seq<nat>)
    ensures |idx| <= |marks|
    ensures forall j :: 0 <= j < |idx| ==> idx[j] < |marks|
    ensures Increasing(idx)
  {
    if |marks| == 0 then []
    else
      var rest := CrossingIndices(marks[..|marks| - 1]);
      if marks[|marks| - 1] then rest + [|marks| - 1] else rest
  }

  /** An index is listed exactly when its mark is set. */
  lemma {:induction false} CrossingIndicesExact(marks: seq<bool>)
    ensures forall i :: i in CrossingIndices(marks) <==> 0 <= i < |marks| && marks[i]
    decreases |marks|
  {
    if |marks| > 0 {
      var init := marks[..|marks| - 1];
      CrossingIndicesExact(init);
      assert forall i :: 0 <= i < |init| ==> init[i] == marks[i];
    }
  }

  /** Marks that are all clear give no crossing at all. */
  lemma {:induction false} NoMarkNoCrossing(marks: seq<bool>)
    requires forall i :: 0 <= i < |marks| ==> !marks[i]
    ensures CrossingIndices(marks) == []
    decreases |marks|
  {
    if |marks| > 0 {
      NoMarkNoCrossing(marks[..|marks| - 1]);
    }
  }

  /** Distances between consecutive indices. */
  function Differences(idx: seq<nat>): (gaps: seq<nat>)
    requires Increasing(idx)
    ensures |gaps| == if |idx| == 0 then 0 else |idx| - 1
  {
    if |idx| <= 1 then []
    else seq(|idx| - 1, j requires 0 <= j < |idx| - 1 => (idx[j + 1] - idx[j]) as nat)
  }

  /** The gaps recorded for a sequence of crossing marks. */
  function GapsOf(marks: seq<bool>): seq<nat>
  {
    Differences(CrossingIndices(marks))
  }

  /** The gaps telescope: together they span from the first crossing to the last. */
  lemma {:induction false} DifferencesTelescope(idx: seq<nat>)
    requires Increasing(idx) && |idx| >= 1
    ensures Sum(Differences(idx)) == idx[|idx| - 1] - idx[0]
    decreases |idx|
  {
    if |idx| >= 2 {
      var init := idx[..|idx| - 1];
      assert Increasing(init);
      DifferencesTelescope(init);
      assert init + [idx[|idx| - 1]] == idx;
      DifferencesStep(init, idx[|idx| - 1]);
      SumAppend(Differences(init), idx[|idx| - 1] - init[|init| - 1]);
    }
  }

  /** Scanning one more mark appends one crossing index when the mark is set. */
  lemma CrossingIndicesStep(marks: seq<bool>, i: nat)
    requires i < |marks|
    ensures CrossingIndices(marks[..i + 1])
         == CrossingIndices(marks[..i]) + (if marks[i] then [i] else [])
  {
    assert marks[..i + 1][..i] == marks[..i];
  }

  /** A new index after the last one adds its distance from the last as a gap. */
  lemma DifferencesStep(idx: seq<nat>, x: nat)
    requires Increasing(idx) && |idx| >= 1 && idx[|idx| - 1] < x
    ensures Increasing(idx + [x])
    ensures Differences(idx + [x]) == Differences(idx) + [x - idx[|idx| - 1]]
  {
    var ext := idx + [x];
    assert forall j :: 0 <= j < |idx| ==> ext[j] == idx[j];
    assert Increasing(ext);
    var lhs, rhs := Differences(ext), Differences(idx) + [x - idx[|idx| - 1]];
    assert |lhs| == |rhs|;
    forall j | 0 <= j < |lhs|
      ensures lhs[j] == rhs[j]
    {
      if j < |lhs| - 1 {
        assert lhs[j] == ext[j + 1] - ext[j] == idx[j + 1] - idx[j];
      }
    }
  }

  /** The recorded gaps are one fewer than the crossings, each at least 1,
      and together shorter than the scanned signal. */
  lemma GapsOfShape(marks: seq<bool>)
    ensures |GapsOf(marks)| == if |CrossingIndices(marks)| == 0 then 0 else |CrossingIndices(marks)| - 1
    ensures forall j :: 0 <= j < |GapsOf(marks)| ==> GapsOf(marks)[j] >= 1
    ensures |GapsOf(marks)| > 0 ==> Sum(GapsOf(marks)) < |marks|
  {
    var idx := CrossingIndices(marks);
    if |idx| > 0 {
      DifferencesTelescope(idx);
    }
  }

  /** The scan's counters after the first `i` marks: `next` is one less than
      the crossings so far, `gaps` holds their gaps, and `gap` is the distance
      from the last crossing. */
  predicate Scanned(marks: seq<bool>, i: nat, gaps: seq<nat>, next: int, gap: nat)
    requires i <= |marks|
  {
    var idx := CrossingIndices(marks[..i]);
    && next + 1 == |idx|
    && gaps == GapsOf(marks[..i])
    && (next >= 0 ==> gap == i - idx[next])
  }

  /** One step of the scan keeps the counters faithful: mark `i` adds a
      crossing when set, and a gap when a crossing came before. */
  lemma ScanStep(marks: seq<bool>, i: nat, gaps: seq<nat>, next: int, gap: nat)
    requires i < |marks| && Scanned(marks, i, gaps, next, gap)
    ensures Scanned(marks, i + 1,
      if marks[i] && next >= 0 then gaps + [gap] else gaps,
      if marks[i] then next + 1 else next,
      if marks[i] then 1 else gap + 1)
  {
    var idx := CrossingIndices(marks[..i]);
    CrossingIndicesStep(marks, i);
    if marks[i] && |idx| > 0 {
      DifferencesStep(idx, i);
    }
  }

  /** Records the gaps between consecutive crossings, as the scan of
      `KeyLength` does with its `next` and `gap` counters. */
  method RecordGaps(marks: seq<bool>) returns (gaps: seq<nat>, next: int)
    ensures gaps == GapsOf(marks)
    ensures next + 1 == |CrossingIndices(marks)|
  {
    next := -1;
    var gap: nat := 0;
    gaps := [];
    var i := 0;
    while i < |marks|
      invariant 0 <= i <= |marks|
      invariant Scanned(marks, i, gaps, next, gap)
    {
      ScanStep(marks, i, gaps, next, gap);
      if marks[i] {
        if next >= 0 {
          gaps := gaps + [gap];
        }
        next := next + 1;
        gap := 0;
      }
      gap := gap + 1;
      i := i + 1;
    }
    assert marks[..|marks|] == marks;
  }

  /** Counts the recorded gaps equal to `v`, as the inner loop of the mode selection does. */
  method CountOccurrences(gaps: seq<nat>, v: nat) returns (count: nat)
    ensures count == Occurrences(gaps, v)
    ensures count > 0 <==> v in gaps
  {
    count := 0;
    var j := 0;
    while j < |gaps|
      invariant 0 <= j <= |gaps|
      invariant count == Occurrences(gaps[..j], v)
    {
      assert gaps[..j + 1] == gaps[..j] + [gaps[j]];
      if gaps[j] == v {
        count := count + 1;
      }
      j := j + 1;
    }
    assert gaps[..|gaps|] == gaps;
  }

  /** Mode selection exactly as written: `argmax` starts from the first
      recorded gap, which is whatever `stale` value the array held when no gap
      was recorded. */
  method MostFrequentAsWritten(gaps: seq<nat>, stale: int) returns (argmax: int)
    ensures |gaps| == 0 ==> argmax == stale
    ensures |gaps| > 0 ==> argmax >= 0 && IsFirstMode(gaps, argmax as nat)
  {
    argmax := if |gaps| > 0 then gaps[0] else stale;
    var maxCount := 0;
    ghost var best := 0;
    var i := 0;
    while i < |gaps|
      invariant 0 <= i <= |gaps|
      invariant i == 0 ==> maxCount == 0 && argmax == if |gaps| > 0 then gaps[0] else stale
      invariant i > 0 ==> best < i && argmax == gaps[best] && maxCount == Occurrences(gaps, gaps[best])
      invariant forall k :: 0 <= k < i ==> Occurrences(gaps, gaps[k]) <= maxCount
      invariant i > 0 ==> forall k :: 0 <= k < best ==> Occurrences(gaps, gaps[k]) < maxCount
    {
      var count := CountOccurrences(gaps, gaps[i]);
      if count > maxCount {
        maxCount := count;
        argmax := gaps[i];
        best := i;
      }
      i := i + 1;
    }
    if |gaps| > 0 {
      assert forall k :: 0 <= k < best ==> gaps[k] != gaps[best];
      assert FirstIndex(gaps, argmax as nat) == best;
    }
  }

  /** Mode selection with the no-gap case made explicit: no value when no gap
      was recorded, otherwise the most frequent gap, ties going to the gap
      recorded first. */
  method MostFrequent(gaps: seq<nat>) returns (r: Option<nat>)
    ensures r.None? <==> |gaps| == 0
    ensures r.Some? ==> IsFirstMode(gaps, r.value)
  {
    if |gaps| == 0 {
      return None;
    }
    var argmax := MostFrequentAsWritten(gaps, 0);
    return Some(argmax as nat);
  }
}
