/** Letters of the 26-letter English alphabet and the per-letter Vigenère shift.

    `isalpha` and `isupper` are taken in the C locale: only the ASCII letters
    are letters.
 */
module Alphabet {

  const ALPHABET_SIZE: nat := 26

  predicate IsUpper(c: char) {
    'A' <= c <= 'Z'
  }

  predicate IsLower(c: char) {
    'a' <= c <= 'z'
  }

  predicate IsAlpha(c: char) {
    IsUpper(c) || IsLower(c)
  }

  /** The first letter of `c`'s case: 'A' for capitals, 'a' otherwise. */
  function Base(c: char): (b: int)
    requires IsAlpha(c)
    ensures 0 <= c as int - b < ALPHABET_SIZE
  {
    if IsUpper(c) then 'A' as int else 'a' as int
  }

  /** A key is a non-empty sequence of capital letters. */
  predicate IsKey(key: seq<char>) {
    |key| >= 1 && forall i :: 0 <= i < |key| ==> IsUpper(key[i])
  }

  /** The shift a key letter stands for: 'A' is 0, ..., 'Z' is 25. */
  function KeyShift(k: char): (s: nat)
    requires IsUpper(k)
    ensures s < ALPHABET_SIZE
    ensures ('A' as int + s) as char == k
  {
    (k as int - 'A' as int) as nat
  }

  /** The letter for shift `s` (0 gives 'A'). */
  function ShiftLetter(s: nat): (k: char)
    requires s < ALPHABET_SIZE
    ensures IsUpper(k) && KeyShift(k) == s
  {
    ('A' as int + s) as char
  }

  /** Deciphers one letter: moves `c` back by the key letter's shift, within its case. */
  function ShiftBack(c: char, k: char): (r: char)
    requires IsAlpha(c) && IsUpper(k)
    ensures IsUpper(c) ==> IsUpper(r)
    ensures IsLower(c) ==> IsLower(r)
    ensures ((r as int - Base(c)) + KeyShift(k)) % ALPHABET_SIZE == c as int - Base(c)
  {
    ((c as int - Base(c) - KeyShift(k) + ALPHABET_SIZE) % ALPHABET_SIZE + Base(c)) as char
  }

  /** Enciphers one letter: moves `c` forward by the key letter's shift, within its case. */
  function ShiftForward(c: char, k: char): (r: char)
    requires IsAlpha(c) && IsUpper(k)
    ensures IsUpper(c) ==> IsUpper(r)
    ensures IsLower(c) ==> IsLower(r)
    ensures (r as int - Base(c) + ALPHABET_SIZE - KeyShift(k)) % ALPHABET_SIZE == c as int - Base(c)
  {
    ((c as int - Base(c) + KeyShift(k)) % ALPHABET_SIZE + Base(c)) as char
  }

  /** Deciphering undoes enciphering, letter by letter, and the other way round. */
  lemma ShiftRoundTrip(c: char, k: char)
    requires IsAlpha(c) && IsUpper(k)
    ensures ShiftBack(ShiftForward(c, k), k) == c
    ensures ShiftForward(ShiftBack(c, k), k) == c
  {
    var e := ShiftForward(c, k);
    assert Base(e) == Base(c);
    var d := ShiftBack(c, k);
    assert Base(d) == Base(c);
  }
}
