/** `KeyLength`: the coincidence signal, its crossings of mu + 1.2 * sigma,
    the gaps between crossings and the most frequent gap, with the cases
    that record no gap returned as failures.
 */
module KeyLength {
  import opened Outcomes
  import opened Counting
  import opened Coincidence
  import opened Threshold
  import opened Gaps

  /** The crossing marks of the coincidence signal of the letter stream `s`. */
  function SignalMarks(s: seq<char>): (marks: seq<bool>)
    ensures |marks| == SHIFTS - 1
  {
    Marks(SignalOf(s))
  }

  /** A crossing at index k compares letters k + 1 apart, so the text is longer than that. */
  lemma CrossingInsideText(s: seq<char>, k: nat)
    requires k < SHIFTS - 1 && SignalMarks(s)[k]
    ensures k + 2 <= |s|
  {
    var signal := SignalOf(s);
    CrossingIsPositive(signal, signal[k]);
  }

  /** Every recorded gap is at most the text length minus two. */
  lemma GapsInsideText(s: seq<char>)
    ensures forall j :: 0 <= j < |GapsOf(SignalMarks(s))| ==> GapsOf(SignalMarks(s))[j] + 2 <= |s|
  {
    var marks := SignalMarks(s);
    var idx := CrossingIndices(marks);
    CrossingIndicesExact(marks);
    forall j | 0 <= j < |GapsOf(marks)|
      ensures GapsOf(marks)[j] + 2 <= |s|
    {
      assert idx[j + 1] in idx;
      CrossingInsideText(s, idx[j + 1]);
    }
  }

  /** A text of fewer than two letters gives a signal of zeros, which never crosses. */
  lemma ShortTextHasNoCrossing(s: seq<char>)
    requires |s| < 2
    ensures CrossingIndices(SignalMarks(s)) == []
  {
    var signal := SignalOf(s);
    FlatSignalHasNoCrossing(signal, 0);
    NoMarkNoCrossing(SignalMarks(s));
  }

  /** The gaps recorded for the letter stream `s`, and the source's `next`
      counter (one less than the number of crossings). */
  method SignalGaps(s: seq<char>) returns (gaps: seq<nat>, next: int)
    ensures gaps == GapsOf(SignalMarks(s))
    ensures next + 1 == |CrossingIndices(SignalMarks(s))|
  {
    var signal := CoincidenceSignal(s);
    gaps, next := RecordGaps(Marks(signal));
  }

  /** Estimates the key length of the letter stream `s`: the most frequent gap
      between crossings, ties going to the gap recorded first. */
  method EstimateKeyLength(s: seq<char>) returns (r: Result<nat>)
    ensures r.Ok? ==> 1 <= r.value && r.value + 2 <= |s|
    ensures r.Ok? ==> IsFirstMode(GapsOf(SignalMarks(s)), r.value)
    ensures r == Err(NoCrossing) <==> |CrossingIndices(SignalMarks(s))| == 0
    ensures r == Err(SingleCrossing) <==> |CrossingIndices(SignalMarks(s))| == 1
    ensures r.Err? ==> r.error == NoCrossing || r.error == SingleCrossing
    ensures |s| < 2 ==> r == Err(NoCrossing)
  {
    var gaps, next := SignalGaps(s);
    GapsOfShape(SignalMarks(s));
    GapsInsideText(s);
    if |s| < 2 {
      ShortTextHasNoCrossing(s);
    }
    var mode := MostFrequent(gaps);
    match mode
    case None =>
      r := if next < 0 then Err(NoCrossing) else Err(SingleCrossing);
    case Some(n) =>
      assert gaps[FirstIndex(gaps, n)] == n;
      r := Ok(n);
  }
}
