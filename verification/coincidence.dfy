/** The coincidence signal of `KeyLength`: for every shift 1..SHIFTS-1, how
    many letters equal the letter that many places later.
 */
module Coincidence {

  /** One more than the largest shift tried. */
  const SHIFTS: nat := 100

  /** Number of positions i below `bound` with s[i] == s[i + c]. */
  function MatchesBelow(s: seq<char>, c: nat, bound: nat): (r: nat)
    requires bound + c <= |s|
    ensures r <= bound
  {
    if bound == 0 then 0
    else MatchesBelow(s, c, bound - 1) + (if s[bound - 1] == s[bound - 1 + c] then 1 else 0)
  }

  /** Coincidence count for shift `c`: every i with i + c inside the text is compared. */
  function MatchCount(s: seq<char>, c: nat): (r: nat)
    ensures c >= |s| ==> r == 0
    ensures c < |s| ==> r <= |s| - c
  {
    if c < |s| then MatchesBelow(s, c, |s| - c) else 0
  }

  /** Position `i` holds the same letter as the position `c` places later. */
  predicate Coincides(s: seq<char>, c: nat, i: nat) {
    i + c < |s| && s[i] == s[i + c]
  }

  /** The positions that coincide for shift `c`. */
  ghost function CoincidentIndices(s: seq<char>, c: nat): set<nat>
  {
    set i: nat | i < |s| && Coincides(s, c, i)
  }

  lemma {:induction false} MatchesBelowIsCardinality(s: seq<char>, c: nat, bound: nat)
    requires bound + c <= |s|
    ensures MatchesBelow(s, c, bound) == |set i: nat | i < bound && Coincides(s, c, i)|
    decreases bound
  {
    var below := set i: nat | i < bound && Coincides(s, c, i);
    if bound > 0 {
      MatchesBelowIsCardinality(s, c, bound - 1);
      var prev := set i: nat | i < bound - 1 && Coincides(s, c, i);
      if s[bound - 1] == s[bound - 1 + c] {
        assert below == prev + {bound - 1};
      } else {
        assert below == prev;
      }
    } else {
      assert below == {};
    }
  }

  /** The recursive count is the size of the set of coinciding positions. */
  lemma MatchCountIsCardinality(s: seq<char>, c: nat)
    ensures MatchCount(s, c) == |CoincidentIndices(s, c)|
  {
    if c < |s| {
      MatchesBelowIsCardinality(s, c, |s| - c);
      assert CoincidentIndices(s, c) == set i: nat | i < |s| - c && Coincides(s, c, i);
    } else {
      assert CoincidentIndices(s, c) == {};
    }
  }

  /** The signal: entry k is the coincidence count for shift k + 1. */
  function SignalOf(s: seq<char>): (signal: seq<nat>)
    ensures |signal| == SHIFTS - 1
  {
    seq(SHIFTS - 1, k requires 0 <= k < SHIFTS - 1 => MatchCount(s, k + 1))
  }

  /** Computes the signal with the nested loops of `KeyLength`. */
  method CoincidenceSignal(s: seq<char>) returns (signal: seq<nat>)
    ensures signal == SignalOf(s)
    ensures forall k :: 0 <= k < |signal| ==> signal[k] == |CoincidentIndices(s, k + 1)|
    ensures forall k :: 0 <= k < |signal| && k + 1 >= |s| ==> signal[k] == 0
    ensures forall k :: 0 <= k < |signal| && k + 1 < |s| ==> signal[k] <= |s| - (k + 1)
  {
    signal := [];
    var c := 1;
    while c < SHIFTS
      invariant 1 <= c <= SHIFTS
      invariant |signal| == c - 1
      invariant forall k :: 0 <= k < c - 1 ==> signal[k] == MatchCount(s, k + 1)
    {
      var ct := 0;
      var i := 0;
      while i < |s|
        invariant 0 <= i <= |s|
        invariant ct == if i + c <= |s| then MatchesBelow(s, c, i) else MatchCount(s, c)
      {
        if i + c < |s| {
          if s[i] == s[i + c] {
            ct := ct + 1;
          }
        }
        i := i + 1;
      }
      signal := signal + [ct];
      c := c + 1;
    }
    forall k | 0 <= k < |signal|
      ensures signal[k] == |CoincidentIndices(s, k + 1)|
    {
      MatchCountIsCardinality(s, k + 1);
    }
  }
}
