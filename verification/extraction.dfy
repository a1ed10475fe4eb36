/** The read loop of `main`: the raw text is kept in full (up to the buffer
    capacity) and its letters are copied, in order, into a second stream.
 */
module Extraction {
  import opened Alphabet

  /** Capacity of both buffers (`MAX_SIZE`). */
  const MAX_SIZE: nat := 10000

  /** The letters of `s`, in their original order and case. */
  function Letters(s: seq<char>): (r: seq<char>)
    ensures |r| <= |s|
    ensures forall i :: 0 <= i < |r| ==> IsAlpha(r[i])
  {
    if |s| == 0 then []
    else
      var init := s[..|s| - 1];
      if IsAlpha(s[|s| - 1]) then Letters(init) + [s[|s| - 1]] else Letters(init)
  }

  /** Every letter of `s` is kept as often as it occurs, and nothing else is. */
  lemma {:induction false} LettersContent(s: seq<char>)
    ensures forall c :: IsAlpha(c) ==> multiset(Letters(s))[c] == multiset(s)[c]
    ensures forall c :: !IsAlpha(c) ==> multiset(Letters(s))[c] == 0
    decreases |s|
  {
    if |s| > 0 {
      var init := s[..|s| - 1];
      LettersContent(init);
      assert s == init + [s[|s| - 1]];
    }
  }

  /** Extraction distributes over concatenation: it keeps relative order. */
  lemma {:induction false} LettersAppend(a: seq<char>, b: seq<char>)
    ensures Letters(a + b) == Letters(a) + Letters(b)
    decreases |b|
  {
    if |b| > 0 {
      var init := b[..|b| - 1];
      assert (a + b)[..|a + b| - 1] == a + init;
      LettersAppend(a, init);
    } else {
      assert a + b == a;
    }
  }

  /** A text made only of letters is its own letter stream. */
  lemma {:induction false} LettersOfLetters(s: seq<char>)
    requires forall i :: 0 <= i < |s| ==> IsAlpha(s[i])
    ensures Letters(s) == s
    decreases |s|
  {
    if |s| > 0 {
      LettersOfLetters(s[..|s| - 1]);
      assert s[..|s| - 1] + [s[|s| - 1]] == s;
    }
  }

  /** Two texts with letters at the same places have letter streams of the same length. */
  lemma {:induction false} SameLetterPositions(a: seq<char>, b: seq<char>)
    requires |a| == |b|
    requires forall i :: 0 <= i < |a| ==> (IsAlpha(a[i]) <==> IsAlpha(b[i]))
    ensures |Letters(a)| == |Letters(b)|
    decreases |a|
  {
    if |a| > 0 {
      SameLetterPositions(a[..|a| - 1], b[..|b| - 1]);
    }
  }

  function Min(a: nat, b: nat): nat {
    if a <= b then a else b
  }

  /** Reads `input` as `main` does: the whole text goes into `message` and its
      letters into `letters`, both stopping at the buffer capacity. */
  method ReadInput(input: seq<char>) returns (message: seq<char>, letters: seq<char>)
    ensures message == input[..Min(|input|, MAX_SIZE)]
    ensures letters == Letters(message)
    ensures |letters| <= |message| <= MAX_SIZE
  {
    message, letters := [], [];
    var index, mIndex := 0, 0;
    while mIndex < |input| && index < MAX_SIZE && mIndex < MAX_SIZE
      invariant mIndex <= |input| && mIndex <= MAX_SIZE
      invariant message == input[..mIndex]
      invariant letters == Letters(message)
      invariant index == |letters| <= mIndex
    {
      var ch := input[mIndex];
      assert (message + [ch])[..|message|] == message;
      if IsAlpha(ch) {
        letters := letters + [ch];
        index := index + 1;
      }
      message := message + [ch];
      mIndex := mIndex + 1;
    }
  }
}
