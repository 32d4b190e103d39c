# Accuracy metric of the BB84 message demo

The application runs a simulated BB84 quantum key distribution and reports an accuracy score computed by
`calculate_accuracy(original, decrypted)`. It calls that function in two places:

- The encrypt page (app.py:34) ciphers the submitted message with the sifted key and deciphers the result.
  It then scores the submitted message against that round-trip result.
- The decrypt page (app.py:66) deciphers the submitted text once, with no round trip. It then scores the
  submitted text against its own decipherment.

The function pairs the two strings position by position with `zip`,
which stops at the end of the shorter string. It counts the pairs holding the same character. It divides
the count by the length of the original and multiplies by 100. An empty original scores 0, so no
division by zero happens. Finally it rounds to two decimals.

The model is one module, `Accuracy` (`accuracy.dfy`), of pure functions and lemmas:

- `Zip` is Python's `zip` on two strings. Its contract gives the result's length as the shorter length and
  each pair as the characters at that position.
- `CountAgreeing` is the `sum` of the booleans `o == d`, written as Python's left fold.
- `Matches` is the count `matches`. `CalculateAccuracy` is the percentage, as an exact real, before rounding.
- Beside them, `MatchPositions` gives an independent description of the count: the set of compared positions
  that hold equal characters. A lemma proves the count is that set's size. The remaining lemmas state what the
  percentage promises: its bounds, when it is 100, when it is 0, which characters it reads, and the fact that
  the denominator is the original's length.

When the lengths differ, the model follows `zip`'s truncation: characters past the end of the shorter string
are never compared.

## Model

| member | source | states |
|---|---|---|
| `Accuracy.Zip` | app.py:8 | `zip(original, decrypted)` has min(\|original\|, \|decrypted\|) pairs, and pair i is (original[i], decrypted[i]) |
| `Accuracy.CountAgreeing` | app.py:8 | the sum of the booleans `o == d` over the pairs never exceeds the number of pairs |
| `Accuracy.Matches` | app.py:8 | `matches` is at most the length of each string, so at most the shorter length |
| `Accuracy.CalculateAccuracy` | app.py:6-10 | the unrounded accuracy lies in [0, 100]; it is 0 when the original is empty (no division happens) and 0 when the decrypted text is empty |
| `Accuracy.MatchesCountsMatchPositions` | app.py:8 | `matches` equals the number of positions i < min(\|original\|, \|decrypted\|) with original[i] == decrypted[i] |
| `Accuracy.MatchesAll` | app.py:8 | `matches` reaches the shorter length if and only if every compared position holds the same character |
| `Accuracy.MatchesNone` | app.py:8 | `matches` is 0 if and only if no compared position holds the same character |
| `Accuracy.MatchesReadsOnlyComparedPrefix` | app.py:8 | two pairs of strings with the same compared length and the same first min(\|original\|, \|decrypted\|) characters get the same count, whatever follows |
| `Accuracy.MatchesOfTruncation` | app.py:8 | cutting both strings to the shorter length leaves `matches` unchanged |
| `Accuracy.MatchesSymmetric` | app.py:8 | the count is the same with the two strings swapped |
| `Accuracy.AccuracyFullIff` | app.py:8-10 | the accuracy is 100 if and only if the original is non-empty and the decrypted text starts with the whole original |
| `Accuracy.AccuracyOfIdentical` | app.py:8-10 | a non-empty message recovered exactly scores 100 |
| `Accuracy.AccuracyZeroIff` | app.py:8-10 | the accuracy is 0 if and only if the original is empty or no compared position holds the same character |
| `Accuracy.AccuracyIgnoresDecryptedTail` | app.py:8-10 | characters of the decrypted text beyond the original's length never change the accuracy |
| `Accuracy.AccuracyOfExtendedOriginal` | app.py:8-10 | a non-empty original followed by any suffix scores 100 |
| `Accuracy.AccuracyOfTruncatedRecovery` | app.py:8-10 | the denominator is \|original\|: a decrypted text that is a proper prefix of the original scores \|decrypted\| / \|original\| * 100, which is below 100 |
| `Accuracy.AccuracyIsAsymmetric` | app.py:8-10 | swapping the arguments changes the score: ("HI", "H") scores 50 and ("H", "HI") scores 100 |

## Left out

- `Accuracy.CalculateAccuracy`: the final `round(accuracy, 2)` and the binary floating-point division and product are not modelled. Python rounds the binary double half-to-even, which exact reals cannot reproduce. The model stops at the exact percentage, and every property above is about that value. In particular, `AccuracyFullIff` and `AccuracyZeroIff` do not hold for the rounded value the program returns. For example, a 100000-character original with one mismatch scores 99.999, which rounds to 100.0. A single match in 100000 characters scores 0.001, which rounds to 0.0. Also, for an empty original the program returns the int `0`, where the model returns the real `0.0`.
- The Flask routes `index`, `encrypt` and `decrypt` and the call to `app.run` (app.py:13-82) are not modelled. They read an HTTP form and render templates.
- The BB84 steps that the routes call are not modelled. These are key generation, circuit construction, polarization, transmission, measurement, execution, key sifting, `cipher_message` and `decipher_message` (app.py:23-31, 55-63). They are defined in `quantum_utils`, which is not part of this model, and they rely on a quantum-circuit library and a random number generator. So the model claims nothing about the sifted key, or about how the decrypted text passed to the metric is produced. On the encrypt page that text comes from a cipher round trip, and on the decrypt page from a single decipherment.
