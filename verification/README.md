# Correlation power analysis key recovery, modelled in Dafny

This project models the key-recovery loop of `evil_accountant/attack.py`: a
correlation power analysis (CPA) attack on the first round of AES-128. For
each of the 16 key bytes and each of the 256 candidate values, the loop
predicts a leakage value for every trace: the Hamming weight of
`SBOX[plaintext[subkey] ^ guess]`, which is AddRoundKey followed by SubBytes,
sections 5.1.4 and 5.1.1 of FIPS 197. It then correlates this hypothesis with
every sample column of the measured power traces. A guess's score is the
largest absolute correlation over all samples. The winner is the head of
`guess_results` after a stable descending sort by score.

The loop is modelled as pure functions over immutable sequences, one module
per component:

- `Results` (results.dfy): the `Result`/`Option` wrappers and the three
  exceptions the loop can raise on malformed input.
- `Bits` (bits.dfy): Python's `^` on non-negative integers and
  `bin(x).count('1')`. The latter is modelled literally and proved equal to an
  arithmetic popcount.
- `Leakage` (leakage.dfy): the leakage value of one trace, and the hypothesis
  vector `hamming_weights`.
- `Traces` (traces.dfy): `numpy.shape(traces)[1]` and the measurement column
  `[trace[idx] for trace in traces]`.
- `Scoring` (scoring.dfy): `abs`, `max`, the `correlations` list, and the
  score of one guess.
- `Ranking` (ranking.dfy): the stable descending sort of `guess_results` and
  the choice of its head.
- `Attack` (attack.dfy): the 256-entry table of one key position, the winner
  of one position, and the assembled 16-byte key.

The Pearson coefficient (`scipy.stats.pearsonr`) is a parameter
`corr: (seq<int>, seq<real>) -> real`. The model reasons only about
`Abs(corr(...))`. The S-box is a parameter too: a `seq<Byte>` of length 256,
because `evil_accountant/sbox.py` is not part of this model.

The loop raises exceptions on malformed input. These are modelled as
`Failure` values, in the order the loop reaches them for a key position:

1. `SubkeyIndex`: a plaintext is too short for `plaintext[subkey]` (line 60).
2. `NotTwoDimensional`: `numpy.shape(traces)[1]` fails (line 69). This
   happens when the traces are empty (shape `(0,)`) or ragged.
3. `EmptyMax`: the traces have zero samples, so `max` gets an empty list
   (line 75).

Three details of the code fix the model's shape:

- The maximum at line 75 is taken over every sample column, zero-variance
  columns included.
- The slicing to `NUM_TRACES` at lines 37-38 is commented out, so every trace
  is used.
- `range(16)` at line 47 fixes 16 key positions, so `KeyLength` is 16.

## Model

| member | source | states |
|---|---|---|
| Bits.HammingWeight | evil_accountant/attack.py:61 | `bin(n).count('1')` equals the arithmetic popcount of `n`; it is at most 8 for a byte, and 0 exactly for 0 |
| Bits.CountOnesIsPopCount | evil_accountant/attack.py:61 | the number of '1' digits in the binary representation of `n` is the number of one bits of `n` |
| Bits.BinDigits | evil_accountant/attack.py:61 | the digits of `bin(n)` are all '0' or '1', start with '1' when n > 0, and are exactly "0" for n = 0 |
| Bits.BinDigitsRoundTrip | evil_accountant/attack.py:61 | reading the digits of `bin(n)` back as binary gives `n` |
| Bits.PopCountBound | evil_accountant/attack.py:61 | a value below 2^k has at most k one bits |
| Bits.XorBound | evil_accountant/attack.py:60 | the XOR of two k-bit values is a k-bit value, so `plaintext[subkey] ^ guess` indexes the 256-entry S-box in bounds |
| Bits.XorSelfInverse | evil_accountant/attack.py:60 | adding the same key byte twice cancels out: `(a ^ b) ^ b == a` |
| Bits.XorByte | evil_accountant/attack.py:60 | the key-mixed byte is a byte, and XOR with either operand recovers the other |
| Bits.XorByteInjective | evil_accountant/attack.py:60 | for a fixed plaintext byte, distinct key guesses give distinct S-box indices `plaintext[subkey] ^ guess` |
| Leakage.Leak | evil_accountant/attack.py:53-61 | the leakage of one trace is the popcount of `SBOX[p ^ g]`, in 0..8 |
| Leakage.Hypothesis | evil_accountant/attack.py:56-64 | the hypothesis has one entry per plaintext, in plaintext order; entry t is the leakage of `plaintexts[t][subkey]` under the guess and lies in 0..8; it fails with `IndexError` exactly when some plaintext is too short |
| Traces.NumSamples | evil_accountant/attack.py:69 | the second dimension exists exactly for a non-empty rectangular trace list, and then every trace has that many samples |
| Traces.Column | evil_accountant/attack.py:70 | the column has one entry per trace, and entry t is `traces[t][idx]` |
| Scoring.Max | evil_accountant/attack.py:75 | the maximum of a non-empty list is one of its elements and no element exceeds it |
| Scoring.MaxOf | evil_accountant/attack.py:75 | `max` fails exactly on the empty list, and otherwise returns an upper bound that is attained |
| Scoring.Correlations | evil_accountant/attack.py:68-72 | one entry per sample index, in index order; entry idx is `abs(corr(hyp, column idx))` |
| Scoring.GuessScore | evil_accountant/attack.py:66-75 | the score is at least `abs(corr(hyp, column s))` for every sample s, equals it for some s, and is non-negative; it fails (shape or empty `max`) exactly when the traces are not a non-empty rectangular matrix with at least one sample |
| Ranking.Insert | evil_accountant/attack.py:78 | inserting one result adds exactly that result to the multiset of results |
| Ranking.InsertSorted | evil_accountant/attack.py:78 | inserting into a score-descending list keeps it score-descending |
| Ranking.InsertKeepsTies | evil_accountant/attack.py:78 | inserting, into a score-descending list whose equal-score entries are in ascending guess order, a result whose guess exceeds every guess already present keeps equal-score entries in ascending guess order |
| Ranking.SortDesc | evil_accountant/attack.py:78 | the sort is a permutation, is descending by score, and keeps tied results in their original ascending-guess order |
| Ranking.BestGuess | evil_accountant/attack.py:78-79 | the head of the sorted list is one of the results, no result scores higher, and among results with the top score it has the smallest guess |
| Ranking.FirstMaxIndex | evil_accountant/attack.py:77-79 | a reference scan for the winner: the index of a top score that every earlier entry strictly undercuts |
| Ranking.BestGuessIsFirstMax | evil_accountant/attack.py:78-79 | sorting and taking the head selects the same result as the first-maximum scan |
| Attack.ScoreGuess | evil_accountant/attack.py:56-75 | scoring one guess at one position fails exactly when the position raises, with the same error for every guess, and otherwise gives a non-negative score |
| Attack.ScoreGuessIsMaxCorrelation | evil_accountant/attack.py:56-75 | when the position does not raise, a guess's score is at least the absolute correlation of its hypothesis with every sample column, and equals it for some column |
| Attack.Tabulate | evil_accountant/attack.py:49-75 | `guess_results` holds one pair per guess, with guesses 0..n-1 in ascending order, each paired with that guess's score; it succeeds exactly when every guess scores, and otherwise fails with the error of the first guess that raises |
| Attack.TabulateSameScores | evil_accountant/attack.py:49-75 | the table depends only on the scores of the guesses |
| Attack.TableErrors | evil_accountant/attack.py:49-75 | when every guess raises the same error or none does, the full table fails with that error exactly when the guesses fail |
| Attack.BestOfTable | evil_accountant/attack.py:77-79 | the head of the sorted full table carries its guess's own score, no guess scores higher, and every lower guess scores strictly less |
| Attack.TableWins | evil_accountant/attack.py:49-79 | the head of the sorted table of all 256 guesses carries its own guess's score, no guess scores higher, and every lower guess scores strictly less |
| Attack.AttackByte | evil_accountant/attack.py:49-79 | the winner of one position carries its guess's own score, every guess scores at most that, every smaller guess scores strictly less, and the position fails exactly when it raises, with that error |
| Attack.Assemble | evil_accountant/attack.py:41-79 | appending each position's winner in position order succeeds exactly when every position succeeds, yields one byte per position with byte i the guess of position i, and otherwise fails with the error of the first failing position |
| Attack.AssembleErrors | evil_accountant/attack.py:47-75 | when each position raises as the loop does, assembly succeeds exactly when every plaintext reaches the last position and the traces are a matrix with samples; otherwise the error is that of position 0 if it raises, else the `IndexError` of a later position |
| Attack.NoErrorBelow | evil_accountant/attack.py:47-75 | positions 0..n-1 are all free of errors exactly when every plaintext has byte n-1 and the traces are a matrix with at least one sample |
| Attack.RecoverKey | evil_accountant/attack.py:41-79 | the recovered key has exactly 16 bytes, and byte i is the winner of position i |
| Attack.RecoverKeyErrors | evil_accountant/attack.py:47-79 | the attack fails exactly when a plaintext is shorter than 16 bytes or the traces are not a non-empty rectangular matrix with at least one sample; the error is that of position 0 if position 0 raises, else `IndexError` |
| Attack.HypothesisLocal | evil_accountant/attack.py:59-61 | the hypothesis for position i reads only byte i of each plaintext |
| Attack.ScoreGuessLocal | evil_accountant/attack.py:59-75 | the score of a guess at position i depends on the plaintexts only through their byte i |
| Attack.AttackByteLocal | evil_accountant/attack.py:49-79 | the winner of position i depends on the plaintexts only through their byte i, never on other positions |

## Left out

- Loading traces from pickle or JSON files, including the hard-coded reference key (lines 12-28): this is file I/O and container decoding.
- Printing the trace shape, the per-position winner and the keys, and comparing against the known key (lines 34, 43, 80-83): these are console output only.
- The Pearson coefficient itself (line 71): it is a floating-point library call. It is the opaque parameter `corr`. Its own `ValueError`s are not modelled: unequal lengths between the plaintext and trace lists, or fewer than two traces. Nor is its NaN result on constant columns, nor how NaN affects `max` and the sort.
- Numpy arrays built from ragged lists: depending on the numpy version these fail when the array is built or when it is indexed. The model treats both as a failure of `numpy.shape(traces)[1]`.
- Plaintext entries outside 0..255: plaintexts are sequences of bytes by type, so Python's negative indexing of `SBOX` cannot arise.
- The contents of the S-box (`evil_accountant/sbox.py` is not part of this model): it is any 256-entry table of bytes.
- The commented-out `NUM_TRACES` slicing (lines 9, 37-38), and the `numpy.asarray` conversions at lines 64 and 70: these do not change what is computed.
- Python's sort is Timsort, and the model uses a stable insertion sort instead. Both are stable, so both give the same output for the same keys.
