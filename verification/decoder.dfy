/** `main` without its file and console I/O: read the text, estimate the key
    length, recover the key, decrypt.
 */
module Decoder {
  import opened Outcomes
  import opened Counting
  import opened Alphabet
  import opened Extraction
  import opened Coincidence
  import opened Gaps
  import opened KeyLength
  import opened KeyRecovery
  import opened Decryption

  /** What a successful run reports: the key length, the key and the plaintext. */
  datatype Analysis = Analysis(keyLength: nat, key: seq<char>, plaintext: seq<char>)

  /** Runs the whole analysis on the text `input`. */
  method Decode(input: seq<char>) returns (r: Result<Analysis>)
    ensures var message := input[..Min(|input|, MAX_SIZE)];
      r.Ok? ==>
        && r.value.keyLength >= 1
        && |r.value.key| == r.value.keyLength
        && IsKey(r.value.key)
        && r.value.plaintext == Decrypt(message, r.value.key)
        && Encrypt(r.value.plaintext, r.value.key) == message
    ensures var letters := Letters(input[..Min(|input|, MAX_SIZE)]);
      r.Ok? ==> IsFirstMode(GapsOf(SignalMarks(letters)), r.value.keyLength)
    ensures var letters := Letters(input[..Min(|input|, MAX_SIZE)]);
      r.Ok? ==> forall i :: 0 <= i < r.value.keyLength ==>
        IsFirstMax(PositionScores(letters, r.value.keyLength, i, ENGLISH), KeyShift(r.value.key[i]))
    ensures var letters := Letters(input[..Min(|input|, MAX_SIZE)]);
      r.Ok? <==> |CrossingIndices(SignalMarks(letters))| >= 2
    ensures var letters := Letters(input[..Min(|input|, MAX_SIZE)]);
      r == Err(NoCrossing) <==> |CrossingIndices(SignalMarks(letters))| == 0
    ensures r.Err? ==> r.error == NoCrossing || r.error == SingleCrossing
    ensures |Letters(input[..Min(|input|, MAX_SIZE)])| < 2 ==> r == Err(NoCrossing)
  {
    var message, letters := ReadInput(input);
    var n :- EstimateKeyLength(letters);
    EnglishIsReference();
    var recovered := RecoverKey(letters, n, ENGLISH);
    // The estimated length is shorter than the letter stream, so no key
    // position is empty.
    EmptyPositionIffKeyTooLong(letters, n);
    if recovered.Err? {
      assert false;
    } else {
      var key := recovered.value;
      var plaintext := DecryptMessage(message, key);
      EncryptDecrypt(message, key);
      r := Ok(Analysis(n, key, plaintext));
    }
  }
}
