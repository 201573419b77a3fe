# Vigenère cipher: encrypt, decrypt, frequency score and key solver

This project models the core of `vigenere.py`, a Vigenère cipher tool, in Dafny. It
covers four operations:

- `encrypt` and `decrypt` shift each letter by the matching key letter. Case is kept,
  other characters pass through unchanged, and the key position moves only on letters.
- `freqTest` is a chi-squared-style score of a message against English letter
  frequencies. Lower means closer to English.
- `solve` recovers a key from ciphertext alone. For every key length from 1 to the
  length of the ciphertext, it splits the upper-cased letters into columns and picks,
  for each column, the letter whose decryption scores best. It then keeps the length
  whose summed score, divided by the length, is least.

Modules:

- `Results` holds the `Result` datatype used for error paths.
- `Ascii` classifies characters and defines `Upper` (`str.upper()` on ASCII) and
  `Letters` (the `isalpha()` characters).
- `Cipher` holds `ShiftLetter`, the letter-by-letter walk `Run`, `Encrypt` and `Decrypt`.
- `CipherProperties` holds the round trip and the other cipher lemmas, plus the
  "Attack at dawn" / "LEMON" example.
- `Frequency` holds `FreqTest` over exact reals.
- `ArgMin` models Python's `min(..., key=...)`: the first least element wins.
- `Solver` holds `Trim`, `Column` (the `islice` columns), `BestShift`, `CandidateKey`,
  `KeyAccuracy` and the `Solve` method. `IsBestLength(letters, n, l)` says that length
  `l` is the one `solve` keeps. Its candidate's accuracy is no greater than that of the
  candidate of any length from 1 to `n`. It is also strictly less than that of every
  shorter length, because `min` keeps the first of equal accuracies.

Error paths:

- Python raises `ZeroDivisionError` when a letter is reached with an empty key. The model
  returns `Failure(EmptyKey)` in exactly that case: the key is empty and the text holds
  at least one letter. With an empty key and no letters, `encrypt` returns the text
  unchanged, and so does the model.
- `min` over the empty candidate list raises `ValueError` for an empty ciphertext. The
  model returns `Failure(EmptyCiphertext)` then.

Three points about the code that a reader might not expect:

- `freqTest` divides each letter count by the length of the whole message, non-letters
  included, and does not filter the message.
- An empty key is not rejected before use. It fails only once a letter is reached.
- `solve` tries every key length up to `len(ciphertext)`, not only up to the number of
  letters. Lengths beyond the letter count get empty columns, and 'A' at those positions.

## Model

| member | source | states |
|---|---|---|
| Ascii.UpperProperties | vigenere.py:94 | `key.upper()` keeps length and ASCII, leaves no lower-case letter, keeps which positions are letters, and is idempotent |
| Cipher.ShiftLetter | vigenere.py:102-111 | whatever the shift, including a negative one from a non-letter key character, a shifted letter stays a letter of the same case |
| Cipher.KeyShift | vigenere.py:108 | the shift of a key character lies in 0..25 exactly when it is an upper-case letter, 'A' giving 0 and 'Z' 25, and is never below -ord('A'); the same expression serves `decrypt` at line 136 |
| Cipher.Run | vigenere.py:99-114 | the loop emits exactly one character per input character, so the output has the input's length; it needs a key only when the text holds a letter |
| Cipher.RunKeepsShape | vigenere.py:100-114 | every output character has the shape of the input one: letters stay letters of the same case, non-letters are copied |
| Cipher.Transform | vigenere.py:94-115 | the shared body of `encrypt` and `decrypt`: fails exactly when the key is empty and the text has a letter; otherwise the result has the text's length, is ASCII and keeps case and non-letters at every index |
| Cipher.Encrypt | vigenere.py:89-115 | fails exactly when the key is empty and the text has a letter (the `i % len(key)` division); otherwise the result has the text's length, is ASCII and keeps case and non-letters at every index |
| Cipher.Decrypt | vigenere.py:117-143 | the same contract as `Encrypt`, for the reverse shift |
| CipherProperties.RoundTrip | vigenere.py:89-143 | with a usable key, decrypting the encryption gives the text back, and so does encrypting the decryption |
| CipherProperties.RunAppend | vigenere.py:99-114 | walking a concatenation equals walking the first part, then the second part with the key cursor advanced by the first part's letter count |
| CipherProperties.NthLetterUsesNthKeyChar | vigenere.py:99-111 | the letter at index j is shifted by the key letter at (number of letters before j) mod key length, forward for encrypt and backward for decrypt |
| CipherProperties.EncryptLetters | vigenere.py:100-114 | the letters of the ciphertext are the encryption of the plaintext's letters alone: non-letters do not influence the letters |
| CipherProperties.DecryptLetters | vigenere.py:128-142 | the letters of the decryption are the decryption of the ciphertext's letters alone |
| CipherProperties.InsertNonLetter | vigenere.py:113-114 | inserting a non-letter into the plaintext inserts the same character at the same place in the ciphertext and changes nothing else |
| CipherProperties.DecryptInsertNonLetter | vigenere.py:141-142 | inserting a non-letter into the ciphertext inserts the same character at the same place in the decryption and changes nothing else |
| CipherProperties.KeyCaseIrrelevant | vigenere.py:94 | a key and its upper-cased form give the same encryption and the same decryption |
| CipherProperties.AllAKeyIsIdentity | vigenere.py:108-109 | a key made only of 'a'/'A' leaves every text unchanged under both encrypt and decrypt |
| CipherProperties.LemonExample | vigenere.py:89-143 | "Attack at dawn" under key "LEMON" encrypts to "Lxfopv ef rnhr", and decrypting that with "lemon" gives the plaintext back |
| Frequency.Expected | vigenere.py:172-178 | every expected English frequency in the table is positive |
| Frequency.Observed | vigenere.py:182 | the observed frequency `message.count(c) / len(message)` lies in 0..1, is 0 exactly when `c` does not occur, and 1 exactly when every character is `c` |
| Frequency.ChiTerm | vigenere.py:183 | a letter's chi-squared term is non-negative, and 0 when the observed frequency equals the expected one |
| Frequency.Term | vigenere.py:180-184 | a letter contributes a non-negative term, and nothing when it does not occur in the message |
| Frequency.ScoreUpTo | vigenere.py:180-184 | the running total after the first n letters of the table is non-negative, and 0 when none of those letters occurs in the message |
| Frequency.FreqTest | vigenere.py:168-185 | the score is non-negative, and 0 for a message with no upper-case letter (only 'A'..'Z' are looked up) |
| Frequency.AbsentLettersNotPenalised | vigenere.py:179-185 | the score over the first n letters plus the expected frequencies of the absent letters equals the textbook chi-squared sum |
| Frequency.FreqTestVersusTextbook | vigenere.py:179-185 | `freqTest` plus the expected mass of the absent letters is the textbook chi-squared statistic over all 26 letters |
| Frequency.FreqTestPermutation | vigenere.py:179-185 | the score depends only on the multiset of characters: reordering a message does not change it |
| ArgMin.FirstMinIndex | vigenere.py:159 | the index `min` picks is in range, its score is least, and every earlier score is strictly greater |
| ArgMin.FirstMinIndexUnique | vigenere.py:164 | any index that is least and strictly beats every earlier one is the one `min` picks |
| Solver.TrimIsUpperLetters | vigenere.py:146 | `ciphertextTrimmed` is exactly the text's letters, upper-cased, in order |
| Solver.Trim | vigenere.py:146 | `ciphertextTrimmed` holds only 'A'..'Z' and is no longer than the ciphertext |
| Solver.Column | vigenere.py:153 | a column of upper-case letters is upper case, and a column starting past the last letter is empty |
| Solver.ColumnAt | vigenere.py:153 | element j of `islice(letters, i, None, l)` exists exactly when i + j·l is in range, and it is the letter there |
| Solver.ColumnsCoverLetters | vigenere.py:152-153 | splitting into l columns loses no letter: letter p is element p / l of column p % l |
| Solver.ColumnScore | vigenere.py:156-157 | the score of a column decrypted with one letter is non-negative; the decryption cannot fail, since the one-letter key is not empty |
| Solver.ShiftScores | vigenere.py:155-158 | `shifts` holds 26 scores, one per letter, each non-negative |
| Solver.BestShift | vigenere.py:154-159 | the chosen letter is upper case, its decryption of the column scores no worse than any letter's, and strictly better than every earlier letter's |
| Solver.CandidateKey | vigenere.py:151-161 | the key built for length l has length l and is upper case: one letter per column |
| Solver.AccuracyOf | vigenere.py:160 | summing the columns' shares of a key over l columns gives a non-negative accuracy |
| Solver.KeyAccuracy | vigenere.py:150-160 | `keyAccuracy` of a key, over as many columns as the key has letters, is non-negative |
| Solver.CandidateIsOptimal | vigenere.py:150-161 | the key built for a length has the least accuracy among all upper-case keys of that length |
| Solver.EmptyColumnPicksA | vigenere.py:155-159 | a column without letters scores 0 under every letter, so 'A' is chosen |
| Solver.TrailingColumnsPickA | vigenere.py:148-153 | key positions beyond the number of letters are 'A' |
| Solver.CandidateForLength | vigenere.py:150-161 | the inner loop builds exactly the candidate key of the length and its accuracy, the sum of each column's best score divided by the length |
| Solver.AllCandidates | vigenere.py:147-162 | the outer loop lists, for each length 1..n in order, the candidate key of that length with its accuracy |
| Solver.FirstMinCandidateIsOptimal | vigenere.py:164 | the first least entry of that list, at index k, marks length k + 1 as `IsBestLength`: its candidate is no worse than any length's candidate and strictly better than every shorter one's |
| Solver.BestLengthIsOptimal | vigenere.py:148-164 | the candidate of the best length has accuracy no greater than any upper-case key of lengths 1 to n, not only the other candidates |
| Solver.Solve | vigenere.py:145-166 | fails exactly on empty ciphertext; otherwise the key has length 1..len(ciphertext), is upper case, is the candidate key of its own length, that length is `IsBestLength` among 1..len(ciphertext), and the key decrypts the ciphertext without error |
| Solver.BestLengthUnique | vigenere.py:164-166 | at most one length is best, so the key returned is determined by the ciphertext |
| Solver.BestLengthBeatsShorter | vigenere.py:164 | the best length's candidate strictly beats every shorter length's candidate, so no shorter length is best: ties go to the shorter length |
| Solver.BestKeyWithoutLetters | vigenere.py:146-166 | without letters the best length is 1 and its candidate is "A", so a ciphertext with no letters solves to the key "A" |

## Left out

- The command-line parsing, the interactive menu, file reading and `errorMessage`
  (vigenere.py:17-87 and 187-232) are I/O around the core. The menu's unguarded empty
  key for decryption (vigenere.py:214-218) lies outside the modelled functions.
- Frequency.ChiTerm: the contract does not state the converse, that a term of 0 means
  the observed frequency equals the expected one. The proof needs reasoning about
  products of reals that the solver does not find reliably.
- Frequency.FreqTest: computed over exact reals, not IEEE doubles. Float rounding in
  `freq`, `** 2` and the sums could break a tie differently, and that is not modelled.
- Solver.Solve: accuracies are compared as exact reals, for the same reason.
- Cipher.Encrypt: the text and the key must be ASCII. `str.upper()` and `isalpha()` on
  other Unicode characters are not modelled.
- Cipher.Decrypt: the text and the key must be ASCII, for the same reason.
- Solver.Solve: the ciphertext must be ASCII, for the same reason.
- Solve is not claimed to recover the true key. That is a statistical property of
  English text, not a property of the code.
- The quadratic running time of `solve` and string building by `+=` are not modelled.
- The commented-out debugging prints in `solve` are left out.
