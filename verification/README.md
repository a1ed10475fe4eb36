# Vigenère decoder — a Dafny model

This project models the cryptanalysis core of `Decoder.c`, a program that
reads a Vigenère ciphertext and prints the most probable key and the
decrypted text. The model covers the integer and character logic of its
four stages:

1. **Extraction** (`main`'s read loop): the raw text is kept in full, up to
   the buffer capacity `MAX_SIZE` = 10000, and its letters are copied in
   order into a second stream.
2. **Key-length estimation** (`KeyLength`): for every shift 1..99, count the
   letters equal to the letter that many places later; mark the counts that
   exceed mu + 1.2·sigma of the signal; record the gap between each pair of
   consecutive marks; return the gap recorded most often, ties going to the
   gap recorded first.
3. **Key recovery** (`findDecryptionKey`): for each of the n key positions
   (indices congruent to i modulo n) count the letters per alphabet letter,
   score each of the 26 rotations against English letter frequencies, and
   take the first rotation with the highest positive score as the key
   letter.
4. **Decryption** (`decryptMessage`): apply the key cyclically to the raw
   text; only letters are shifted, each within its case, and the key cursor
   moves on only at letters.

Modules, one per stage plus shared pieces: `Outcomes` (Option, Result and
the failure kinds), `Counting` (sums, occurrence counts, Euclidean division
facts), `Alphabet` (C-locale letters and the per-letter shift),
`Extraction`, `Coincidence` (the signal), `Threshold` (the crossing test),
`Gaps` (gap recording and mode selection), `KeyLength` (the estimator),
`KeyRecovery`, `Decryption` and `Decoder` (the pipeline without I/O).

Failures are values: `NoCrossing` (no count above the threshold),
`SingleCrossing` (one count above it, so no gap), `EmptyKeyPosition(i)` (a
key position holds no letter). The pipeline proves the last one cannot
happen after a successful estimate: a count above the threshold is
positive, so its shift is shorter than the letter stream, and so is every
gap.

The crossing test is kept exact. With d = x − mu, "x > mu + 1.2·sigma"
holds exactly when d > 0 and d² > 1.44·variance, and the variance is a
rational number, so the test is stated over Dafny's `real` with no square
root. `Threshold.CrossesIsThresholdTest` proves the two forms agree for
every sigma ≥ 0 whose square is the variance.

Scores are integers: per-letter counts times the English table in
hundredths of a percent. The source first divides the counts by the number
of letters at that position. That is a positive factor shared by all 26
rotations, so in exact arithmetic the chosen rotation is the same;
`KeyRecovery.NormalisationKeepsChoice` proves it against the source's
normalised scores.

The code has no separate check for a text with fewer than two letters.
Such a text gives an all-zero signal, which never crosses, and the model
proves that this ends in `NoCrossing` (`KeyLength.ShortTextHasNoCrossing`,
`Decoder.Decode`).

## Model

| member | source | states |
|---|---|---|
| Alphabet.ShiftBack | Decoder.c:140-142 | a deciphered letter keeps its case, and moving it forward again by the key letter's shift (mod 26) gives the ciphertext letter |
| Alphabet.ShiftForward | Decoder.c:142 | the matching encryption keeps case, and moving back by the shift gives the original letter |
| Alphabet.ShiftRoundTrip | Decoder.c:142 | `(c - base - s + 26) % 26 + base` and `(c - base + s) % 26 + base` undo each other on every letter, for every key letter 'A'..'Z' |
| Alphabet.ShiftLetter | Decoder.c:131 | `'A' + j` is a capital letter whose shift is j, for every j in 0..25 |
| Extraction.Letters | Decoder.c:166-171 | the letter stream is no longer than the text and holds only letters |
| Extraction.LettersContent | Decoder.c:167-168 | every letter occurs in the letter stream exactly as often as in the text, and nothing else occurs |
| Extraction.LettersAppend | Decoder.c:166-171 | extraction distributes over concatenation, so the letters keep their original relative order |
| Extraction.LettersOfLetters | Decoder.c:167-168 | a text made only of letters is its own letter stream |
| Extraction.ReadInput | Decoder.c:161-171 | the kept text is the input cut at MAX_SIZE, the letter stream is exactly its letters in order, and both are at most MAX_SIZE long |
| Coincidence.MatchCount | Decoder.c:36-45 | the count for shift c is 0 when c is at least the text length and at most length − c otherwise |
| Coincidence.MatchCountIsCardinality | Decoder.c:38-43 | the count for shift c is the number of positions i with i + c inside the text and s[i] == s[i + c] |
| Coincidence.CoincidenceSignal | Decoder.c:33-45 | the nested loops fill entry c − 1 with the coincidence count for shift c, for all 99 shifts, within the bounds above |
| Threshold.Mean | Decoder.c:15-20 | the mean of a non-empty signal of counts is never negative |
| Threshold.Variance | Decoder.c:22-28 | the variance (sigma squared) is never negative |
| Threshold.MarksFollowThreshold | Decoder.c:48-58 | for every standard deviation sigma of the signal, shift i is marked exactly when its count exceeds mu + 1.2 * sigma |
| Threshold.CrossesIsThresholdTest | Decoder.c:48-58 | the exact crossing test equals `x > mu + 1.2 * sigma` for every sigma ≥ 0 whose square is the variance |
| Threshold.FlatSignalHasNoCrossing | Decoder.c:48-58 | a flat signal has its value as mean and no crossing, because the comparison is strict |
| Gaps.CrossingIndices | Decoder.c:57-63 | the crossing shifts come out strictly increasing and inside the signal |
| Gaps.CrossingIndicesExact | Decoder.c:57-63 | an index is listed as a crossing exactly when its mark is set |
| Gaps.NoMarkNoCrossing | Decoder.c:57-63 | clear marks give no crossing |
| Gaps.Differences | Decoder.c:59-64 | k crossings give max(0, k − 1) gaps |
| Gaps.DifferencesTelescope | Decoder.c:54-65 | the gaps add up to the distance from the first crossing to the last |
| Gaps.GapsOfShape | Decoder.c:54-65 | after k crossings exactly max(0, k − 1) gaps are recorded, each at least 1, together shorter than the 99-entry signal |
| Gaps.RecordGaps | Decoder.c:54-65 | the `next`/`gap` counter scan records exactly the distances between consecutive crossings, and `next` ends one below the crossing count |
| Gaps.CountOccurrences | Decoder.c:72-77 | the inner loop counts how often a gap occurs among the recorded gaps |
| Gaps.MostFrequentAsWritten | Decoder.c:67-84 | with no gap recorded the result is the stale `frequencies[0]`; otherwise a recorded gap of maximal frequency, earlier gaps being strictly less frequent |
| Gaps.MostFrequent | Decoder.c:67-84 | no value exactly when no gap was recorded; otherwise the first most frequent gap |
| KeyLength.CrossingInsideText | Decoder.c:36-58 | a crossing at shift c needs a positive count, so c is shorter than the letter stream |
| KeyLength.GapsInsideText | Decoder.c:54-65 | every recorded gap is at most the letter count minus two |
| KeyLength.ShortTextHasNoCrossing | Decoder.c:31-65 | fewer than two letters give no crossing at all |
| KeyLength.SignalGaps | Decoder.c:31-65 | the gaps and the `next` counter computed from the letter stream |
| KeyLength.EstimateKeyLength | Decoder.c:31-85 | success gives a key length of at least 1, two below the letter count, that is the first most frequent gap; failure is NoCrossing for zero crossings and SingleCrossing for one |
| KeyRecovery.PositionLettersCount | Decoder.c:103 | key position i < n visits one letter per index below the stream length congruent to i modulo n |
| KeyRecovery.PositionLettersCardinality | Decoder.c:103 | the stride loop from i visits exactly the indices from i on that are congruent to i modulo n |
| KeyRecovery.HistogramSum | Decoder.c:103-107 | the 26 per-letter counts add up to the number of letters counted (`count`) |
| KeyRecovery.PositionCountsSum | Decoder.c:103-107 | for a stream of letters, the counts of position i add up to the number of indices congruent to i modulo n below the size |
| KeyRecovery.CountPosition | Decoder.c:99-108 | the stride loop builds the per-letter counts and the letter total of key position i |
| KeyRecovery.NormalisedCorrelationScales | Decoder.c:110-122 | the source's score of a rotation (counts as percentages of the letter total, times the table as percentages) is the integer score divided by the letter total |
| KeyRecovery.NormalisationKeepsChoice | Decoder.c:110-128 | the source's normalised scores compare with each other, and with 0, exactly as the integer scores do, so the argmax picks the same rotation |
| KeyRecovery.ScoresPositive | Decoder.c:118-122 | once a position holds a letter, every rotation scores above zero against positive reference weights |
| KeyRecovery.BestShift | Decoder.c:114-129 | −1 exactly when no score is positive; otherwise the smallest index holding the maximal score |
| KeyRecovery.KeyLetter | Decoder.c:99-131 | one key position yields no letter exactly when it holds no letters; otherwise a capital letter whose rotation is the first best-scoring one |
| KeyRecovery.RecoverKey | Decoder.c:98-132 | a key of n capital letters, each the first best-scoring rotation of its position; failure exactly when some position is empty, naming the first such position |
| KeyRecovery.EmptyPositionIffKeyTooLong | Decoder.c:100-112 | for a stream of letters, some key position is empty exactly when n exceeds the stream length |
| Decryption.Decrypt | Decoder.c:139-145 | decryption keeps the length, leaves every non-letter unchanged and keeps the case of every letter |
| Decryption.Encrypt | Decoder.c:142 | the matching encryption has the same length, non-letter and case guarantees |
| Decryption.SameKeyIndices | Decoder.c:139-143 | texts with letters at the same places use the same key position at every index |
| Decryption.DecryptEncrypt | Decoder.c:139-145 | decrypting an encrypted text gives it back, for every key of capital letters |
| Decryption.EncryptDecrypt | Decoder.c:139-145 | encrypting a decrypted text gives it back, for every key of capital letters |
| Decryption.DecryptMessage | Decoder.c:138-145 | the in-place loop with cursor `j = (j + 1) % n`, advanced only at letters, shifts the k-th letter back by key[k mod n] |
| Decoder.Decode | Decoder.c:161-189 | success exactly when the letter stream's signal has at least two crossings, NoCrossing exactly when it has none, otherwise SingleCrossing; on success the key length ≥ 1 is the first most frequent gap, each key letter is the first best-scoring rotation of its position against the English table, and the plaintext decrypts the kept text and encrypts back to it; fewer than two letters give NoCrossing |

## Left out

- File and console I/O: `fopen`, `fgetc`, `fclose` and every `printf` (Decoder.c:146, 154-159, 174, 184-186). The input is a parameter and the results are returned.
- Floating point: `calculate_mu` and `calculate_sigma` use `double`, `pow` and `sqrt` (Decoder.c:15-28, 48-49). The model computes mean and variance exactly as rationals and decides the crossing without a square root. Rounding of the doubles is not modelled.
- KeyRecovery.Scores: the percentage normalisation and the `double` dot product (Decoder.c:111-122) become integer counts times frequencies in hundredths of a percent. The chosen rotation agrees in exact arithmetic (`KeyRecovery.NormalisationKeepsChoice`); floating-point rounding on near-ties is not modelled.
- KeyRecovery.Bucket: lowercase letters index `tempFreq` out of bounds at Decoder.c:105, which is undefined behaviour. The model counts them in their letter's bucket, case-insensitively. For capital letters it matches the source.
- Division by zero at Decoder.c:112 for a key position with no letters: modelled as the `EmptyKeyPosition` failure. The pipeline proves it cannot occur after a successful estimate.
- The `char`/`EOF` comparison at Decoder.c:163-166 is not modelled. With a signed `char`, a byte 0xFF stops the read early; with an unsigned `char`, `ch != EOF` never fails and the loop fills `message` with 0xFF bytes up to MAX_SIZE. The model reads the given character sequence to its end or to the capacity.
- Non-ASCII input: `isalpha` and `isupper` are taken in the C locale, where only ASCII letters are letters.
- Terminators and buffer bounds: Decoder.c:173 writes `operable_string[MAX_SIZE]`, one past the buffer, when the first MAX_SIZE characters are all letters. `message` is never terminated before it is printed at Decoder.c:146. The VLA `key[n + 1]` and its terminator are at Decoder.c:134 and 180. Sequences carry their length, so none of this is modelled.
- Gaps.RecordGaps: the source stores each gap at `frequencies[next]`. The model appends it to a sequence; the two agree because `next` equals the number of gaps stored so far.

## Findings

| source | as written | input that shows it | evidently intended | confidence | as-written member | corrected member |
|---|---|---|---|---|---|---|
| Decoder.c:68 | `argmax = frequencies[0]` runs even when fewer than two crossings occurred and no gap was stored. The key length returned is whatever that slot held, possibly 0 or negative, and it is then used as a VLA size (line 180) and a `% n` divisor (line 143). | any text with fewer than two letters, e.g. an empty file: the signal is all zero and nothing crosses (`KeyLength.ShortTextHasNoCrossing`) | report that no key length was found | not executed; high | Gaps.MostFrequentAsWritten | KeyLength.EstimateKeyLength |
