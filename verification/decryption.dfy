/** `decryptMessage`: the key is applied cyclically to the raw text; only
    letters are shifted, each within its own case, and the key cursor moves
    on only at letters. `Encrypt` is the matching Vigenère encryption.
 */
module Decryption {
  import opened Counting
  import opened Alphabet
  import opened Extraction

  /** Key position used for the character at index `i` of `msg`: the number of
      letters before it, modulo the key length. */
  function KeyIndex(msg: seq<char>, i: nat, n: nat): (k: nat)
    requires i <= |msg| && n >= 1
    ensures k < n
  {
    |Letters(msg[..i])| % n
  }

  /** Vigenère decryption of `msg` with `key`: the k-th letter (from 0) is
      moved back by the shift of key[k mod |key|]; other characters stay. */
  function Decrypt(msg: seq<char>, key: seq<char>): (plain: seq<char>)
    requires IsKey(key)
    ensures |plain| == |msg|
    ensures forall i :: 0 <= i < |msg| && !IsAlpha(msg[i]) ==> plain[i] == msg[i]
    ensures forall i :: 0 <= i < |msg| && IsUpper(msg[i]) ==> IsUpper(plain[i])
    ensures forall i :: 0 <= i < |msg| && IsLower(msg[i]) ==> IsLower(plain[i])
  {
    seq(|msg|, i requires 0 <= i < |msg| =>
      if IsAlpha(msg[i]) then ShiftBack(msg[i], key[KeyIndex(msg, i, |key|)]) else msg[i])
  }

  /** Vigenère encryption of `msg` with `key`, the additive counterpart of `Decrypt`. */
  function Encrypt(msg: seq<char>, key: seq<char>): (cipher: seq<char>)
    requires IsKey(key)
    ensures |cipher| == |msg|
    ensures forall i :: 0 <= i < |msg| && !IsAlpha(msg[i]) ==> cipher[i] == msg[i]
    ensures forall i :: 0 <= i < |msg| && IsUpper(msg[i]) ==> IsUpper(cipher[i])
    ensures forall i :: 0 <= i < |msg| && IsLower(msg[i]) ==> IsLower(cipher[i])
  {
    seq(|msg|, i requires 0 <= i < |msg| =>
      if IsAlpha(msg[i]) then ShiftForward(msg[i], key[KeyIndex(msg, i, |key|)]) else msg[i])
  }

  /** Texts with letters at the same places use the same key position everywhere. */
  lemma SameKeyIndices(a: seq<char>, b: seq<char>, n: nat)
    requires |a| == |b| && n >= 1
    requires forall i :: 0 <= i < |a| ==> (IsAlpha(a[i]) <==> IsAlpha(b[i]))
    ensures forall i :: 0 <= i < |a| ==> KeyIndex(a, i, n) == KeyIndex(b, i, n)
  {
    forall i | 0 <= i < |a|
      ensures KeyIndex(a, i, n) == KeyIndex(b, i, n)
    {
      SameLetterPositions(a[..i], b[..i]);
    }
  }

  /** Decrypting an encrypted text gives the text back. */
  lemma DecryptEncrypt(msg: seq<char>, key: seq<char>)
    requires IsKey(key)
    ensures Decrypt(Encrypt(msg, key), key) == msg
  {
    var cipher := Encrypt(msg, key);
    SameKeyIndices(msg, cipher, |key|);
    forall i | 0 <= i < |msg| && IsAlpha(msg[i])
      ensures Decrypt(cipher, key)[i] == msg[i]
    {
      ShiftRoundTrip(msg[i], key[KeyIndex(msg, i, |key|)]);
    }
  }

  /** Encrypting a decrypted text gives the text back. */
  lemma EncryptDecrypt(msg: seq<char>, key: seq<char>)
    requires IsKey(key)
    ensures Encrypt(Decrypt(msg, key), key) == msg
  {
    var plain := Decrypt(msg, key);
    SameKeyIndices(msg, plain, |key|);
    forall i | 0 <= i < |msg| && IsAlpha(msg[i])
      ensures Encrypt(plain, key)[i] == msg[i]
    {
      ShiftRoundTrip(msg[i], key[KeyIndex(msg, i, |key|)]);
    }
  }

  /** Decrypts `message` in place with the source's cursor `j`, which moves
      to the next key letter, modulo the key length, after each letter. */
  method DecryptMessage(message: seq<char>, key: seq<char>) returns (plain: seq<char>)
    requires IsKey(key)
    ensures plain == Decrypt(message, key)
  {
    plain := message;
    var j := 0;
    for i := 0 to |message|
      invariant |plain| == |message|
      invariant j == KeyIndex(message, i, |key|)
      invariant forall k :: 0 <= k < i ==> plain[k] == Decrypt(message, key)[k]
      invariant forall k :: i <= k < |message| ==> plain[k] == message[k]
    {
      assert message[..i + 1] == message[..i] + [message[i]];
      assert message[..i + 1][..i] == message[..i];
      if IsAlpha(message[i]) {
        plain := plain[i := ShiftBack(message[i], key[j])];
        ModSuccessor(|Letters(message[..i])|, |key|);
        j := (j + 1) % |key|;
      }
    }
  }
}
