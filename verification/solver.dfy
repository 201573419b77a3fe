/** `solve`: ciphertext-only recovery of the key by per-column frequency analysis. */
module Solver {
  import opened Ascii
  import opened Results
  import opened Cipher
  import opened Frequency
  import opened ArgMin

  /** `min(keys, ...)` over an empty list of candidate keys raises ValueError; that
      happens exactly when the ciphertext is empty. */
  datatype SolveError = EmptyCiphertext

  /** The characters of `s` that are in `string.ascii_uppercase`, in order. */
  function KeepUpper(s: string): (r: string)
    ensures AllUpper(r)
    ensures |r| <= |s|
  {
    if s == [] then []
    else (if IsUpper(s[0]) then [s[0]] else []) + KeepUpper(s[1..])
  }

  /** `ciphertextTrimmed`: the ciphertext upper-cased, then stripped to 'A'..'Z'. */
  function Trim(text: string): (r: string)
    ensures AllUpper(r)
    ensures |r| <= |text|
  {
    KeepUpper(Upper(text))
  }

  /** Trimming keeps exactly the letters, upper-cased, in order. */
  lemma {:induction false} TrimIsUpperLetters(text: string)
    ensures Trim(text) == Upper(Letters(text))
    ensures |Trim(text)| == |Letters(text)|
    decreases |text|
  {
    if text != [] {
      var u := Upper(text);
      assert u[1..] == Upper(text[1..]);
      assert u[0] == ToUpper(text[0]);
      TrimIsUpperLetters(text[1..]);
      var head := if IsAlpha(text[0]) then [text[0]] else [];
      assert Letters(text) == head + Letters(text[1..]);
      assert Upper(head + Letters(text[1..])) == Upper(head) + Upper(Letters(text[1..]));
    }
  }

  /** `itertools.islice(letters, i, None, l)`: the letters at indices i, i + l, i + 2l, ... */
  function Column(letters: string, i: nat, l: nat): (col: string)
    requires l >= 1
    ensures AllUpper(letters) ==> AllUpper(col)
    ensures i >= |letters| ==> col == []
    decreases |letters| - i
  {
    if i >= |letters| then []
    else [letters[i]] + Column(letters, i + l, l)
  }

  /** Element `j` of column `i` exists exactly when index `i + j * l` is inside the
      letters, and it is the letter there. */
  lemma {:induction false} ColumnAt(letters: string, i: nat, l: nat, j: nat)
    requires l >= 1
    ensures j < |Column(letters, i, l)| <==> i + j * l < |letters|
    ensures j < |Column(letters, i, l)| ==> Column(letters, i, l)[j] == letters[i + j * l]
    decreases j
  {
    if i < |letters| && j > 0 {
      assert (i + l) + (j - 1) * l == i + j * l;
      ColumnAt(letters, i + l, l, j - 1);
    }
  }

  /** Splitting into `l` columns loses no letter: the letter at index `p` is element
      `p / l` of column `p % l`. */
  lemma ColumnsCoverLetters(letters: string, l: nat, p: nat)
    requires l >= 1 && p < |letters|
    ensures p / l < |Column(letters, p % l, l)|
    ensures Column(letters, p % l, l)[p / l] == letters[p]
  {
    assert p % l + (p / l) * l == p;
    ColumnAt(letters, p % l, l, p / l);
  }

  /** The score of column `column` decrypted with the single-letter key `c`:
      `freqTest(decrypt(affectedLetters, c))`. */
  function ColumnScore(column: string, c: char): (s: real)
    requires AllUpper(column) && IsUpper(c)
    ensures s >= 0.0
  {
    FreqTest(Decrypt(column, [c]).value)
  }

  /** The 26 scores of a column, one per candidate letter in alphabet order. */
  function ShiftScores(column: string): (scores: seq<real>)
    requires AllUpper(column)
    ensures |scores| == 26
    ensures forall j :: 0 <= j < 26 ==> scores[j] >= 0.0
  {
    seq(26, j requires 0 <= j < 26 => ColumnScore(column, Letter(j)))
  }

  /** The letter at index `k` of the alphabet is a least-scoring letter of the column,
      scoring strictly less than every earlier one, when index `k` is that for the 26
      scores. */
  lemma LetterOfFirstMin(column: string, k: nat)
    requires AllUpper(column) && k < 26
    requires forall j :: 0 <= j < 26 ==> ShiftScores(column)[k] <= ShiftScores(column)[j]
    requires forall j :: 0 <= j < k ==> ShiftScores(column)[k] < ShiftScores(column)[j]
    ensures forall d :: IsUpper(d) ==> ColumnScore(column, Letter(k)) <= ColumnScore(column, d)
    ensures forall d :: 'A' <= d < Letter(k) ==> ColumnScore(column, Letter(k)) < ColumnScore(column, d)
  {
    var scores := ShiftScores(column);
    forall d | IsUpper(d)
      ensures scores[d as int - 'A' as int] == ColumnScore(column, d)
    {
      assert Letter(d as int - 'A' as int) == d;
    }
  }

  /** `bestChar`: the letter whose decryption of the column scores least, the earliest
      letter winning a tie. */
  function BestShift(column: string): (c: char)
    requires AllUpper(column)
    ensures IsUpper(c)
    ensures forall d :: IsUpper(d) ==> ColumnScore(column, c) <= ColumnScore(column, d)
    ensures forall d :: 'A' <= d < c ==> ColumnScore(column, c) < ColumnScore(column, d)
  {
    var k := FirstMinIndex(ShiftScores(column));
    LetterOfFirstMin(column, k);
    Letter(k)
  }

  /** The key `solve` builds for length `l`: the best letter of each column. */
  function CandidateKey(letters: string, l: nat): (key: string)
    requires AllUpper(letters) && l >= 1
    ensures |key| == l && AllUpper(key)
  {
    seq(l, i requires 0 <= i < l => BestShift(Column(letters, i, l)))
  }

  /** `keyAccuracy` of `key` when the letters are split into `l` columns: the sum over
      the key's positions of the column score of its letter, each divided by `l`. */
  function AccuracyOf(letters: string, key: string, l: nat): (a: real)
    requires AllUpper(letters) && AllUpper(key) && l >= 1
    ensures a >= 0.0
    decreases |key|
  {
    if key == [] then 0.0
    else
      var n := |key| - 1;
      var prefix := key[..n];
      assert AllUpper(prefix);
      var col := Column(letters, n, l);
      var s := ColumnScore(col, key[n]);
      AccuracyOf(letters, prefix, l) + Share(s, l)
  }

  /** One column's share of a length's accuracy: its score divided by the length. */
  function Share(score: real, l: nat): (s: real)
    requires score >= 0.0 && l >= 1
    ensures s >= 0.0
  {
    score / (l as real)
  }

  /** The accuracy of a key of length at least 1 over columns as many as its letters. */
  function KeyAccuracy(letters: string, key: string): (a: real)
    requires AllUpper(letters) && AllUpper(key) && |key| >= 1
    ensures a >= 0.0
  {
    AccuracyOf(letters, key, |key|)
  }

  /** Dividing by a positive length keeps the order of two scores. */
  lemma ShareKeepsOrder(x: real, y: real, l: nat)
    requires 0.0 <= x <= y && l >= 1
    ensures Share(x, l) <= Share(y, l)
  {
  }

  /** Column by column, the candidate key's letters score no worse than any other
      letters, so its prefixes accumulate no more than any other key's. */
  lemma {:induction false} CandidatePrefixOptimal(letters: string, key: string, l: nat, n: nat)
    requires AllUpper(letters) && AllUpper(key) && |key| == l && l >= 1 && n <= l
    ensures AccuracyOf(letters, CandidateKey(letters, l)[..n], l) <= AccuracyOf(letters, key[..n], l)
  {
    if n > 0 {
      var best := CandidateKey(letters, l);
      CandidatePrefixOptimal(letters, key, l, n - 1);
      var col := Column(letters, n - 1, l);
      assert best[n - 1] == BestShift(col);
      ShareKeepsOrder(ColumnScore(col, best[n - 1]), ColumnScore(col, key[n - 1]), l);
      AccuracyOfPrefix(letters, best, l, n);
      AccuracyOfPrefix(letters, key, l, n);
    }
  }

  /** Extending a key prefix by one letter adds that letter's share of its column. */
  lemma AccuracyOfPrefix(letters: string, key: string, l: nat, n: nat)
    requires AllUpper(letters) && AllUpper(key) && l >= 1 && 1 <= n <= |key|
    ensures AccuracyOf(letters, key[..n], l)
         == AccuracyOf(letters, key[..n - 1], l) + Share(ColumnScore(Column(letters, n - 1, l), key[n - 1]), l)
  {
    assert key[..n][..n - 1] == key[..n - 1];
  }

  /** The candidate for length `l` has the least accuracy among all keys of length `l`. */
  lemma CandidateIsOptimal(letters: string, key: string)
    requires AllUpper(letters) && AllUpper(key) && |key| >= 1
    ensures KeyAccuracy(letters, CandidateKey(letters, |key|)) <= KeyAccuracy(letters, key)
  {
    var l := |key|;
    CandidatePrefixOptimal(letters, key, l, l);
    assert CandidateKey(letters, l)[..l] == CandidateKey(letters, l);
    assert key[..l] == key;
  }

  /** A column with no letters scores 0 under every letter, so 'A' wins the tie. */
  lemma EmptyColumnPicksA()
    ensures BestShift([]) == 'A'
  {
    var c := BestShift([]);
    assert |Decrypt([], [c]).value| == 0 && |Decrypt([], "A").value| == 0;
    assert ColumnScore([], c) == 0.0 == ColumnScore([], 'A');
  }

  /** A key length beyond the number of letters gives empty trailing columns, and the
      candidate key has 'A' there. */
  lemma TrailingColumnsPickA(letters: string, l: nat, i: nat)
    requires AllUpper(letters) && l >= 1 && |letters| <= i < l
    ensures CandidateKey(letters, l)[i] == 'A'
  {
    assert Column(letters, i, l) == [];
    EmptyColumnPicksA();
  }

  /** Extending a prefix by one element. */
  lemma PrefixSnoc<T>(s: seq<T>, i: nat)
    requires i < |s|
    ensures s[..i + 1] == s[..i] + [s[i]]
  {
  }

  /** The prefix of full length is the whole sequence. */
  lemma PrefixFull<T>(s: seq<T>)
    ensures s[..|s|] == s
  {
  }

  /** One round of the outer loop of `solve`: for each column the best letter is
      appended to `key` and its share added to `keyAccuracy`. */
  method CandidateForLength(trimmed: string, len: nat) returns (key: string, keyAccuracy: real)
    requires AllUpper(trimmed) && len >= 1
    ensures |key| == len && AllUpper(key)
    ensures key == CandidateKey(trimmed, len)
    ensures keyAccuracy == KeyAccuracy(trimmed, key)
  {
    ghost var target := CandidateKey(trimmed, len);
    keyAccuracy := 0.0;
    key := "";
    var i := 0;
    while i < len
      invariant 0 <= i <= len
      invariant key == target[..i]
      invariant keyAccuracy == AccuracyOf(trimmed, key, len)
    {
      var column := Column(trimmed, i, len);
      var best := BestShift(column);
      assert best == target[i];
      PrefixSnoc(target, i);
      AccuracyOfPrefix(trimmed, target, len, i + 1);
      keyAccuracy := keyAccuracy + Share(ColumnScore(column, best), len);
      key := key + [best];
      i := i + 1;
    }
    PrefixFull(target);
  }

  /** Length `l` is the one `solve` picks when lengths 1 to `n` are tried: the accuracy
      of its candidate key is no greater than that of any length's candidate, and
      strictly less than that of every shorter length's (the first minimum wins). */
  ghost predicate IsBestLength(letters: string, n: nat, l: nat)
    requires AllUpper(letters)
  {
    && 1 <= l <= n
    && (forall j :: 1 <= j <= n ==>
          KeyAccuracy(letters, CandidateKey(letters, l)) <= KeyAccuracy(letters, CandidateKey(letters, j)))
    && (forall j :: 1 <= j < l ==>
          KeyAccuracy(letters, CandidateKey(letters, l)) < KeyAccuracy(letters, CandidateKey(letters, j)))
  }

  /** The candidate of the best length has the least accuracy among all upper-case keys
      of lengths 1 to `n`, not only among the candidates. */
  lemma BestLengthIsOptimal(letters: string, n: nat, l: nat, other: string)
    requires AllUpper(letters) && IsBestLength(letters, n, l)
    requires 1 <= |other| <= n && AllUpper(other)
    ensures KeyAccuracy(letters, CandidateKey(letters, l)) <= KeyAccuracy(letters, other)
  {
    CandidateIsOptimal(letters, other);
  }

  /** At most one length is best, so the key `solve` returns, the candidate of that
      length, is determined by the letters and the number of lengths tried. */
  lemma BestLengthUnique(letters: string, n: nat, l1: nat, l2: nat)
    requires AllUpper(letters) && IsBestLength(letters, n, l1) && IsBestLength(letters, n, l2)
    ensures l1 == l2
  {
    if l1 < l2 {
      BestLengthBeatsShorter(letters, n, l2, l1);
    } else if l2 < l1 {
      BestLengthBeatsShorter(letters, n, l1, l2);
    }
  }

  /** No length shorter than a best length is best: the best length's candidate beats
      the shorter one's strictly, so the shorter one's is not least. */
  lemma BestLengthBeatsShorter(letters: string, n: nat, l: nat, j: nat)
    requires AllUpper(letters) && IsBestLength(letters, n, l) && 1 <= j < l
    ensures !IsBestLength(letters, n, j)
  {
    assert KeyAccuracy(letters, CandidateKey(letters, l)) < KeyAccuracy(letters, CandidateKey(letters, j));
  }

  /** With no letters every column is empty and every key scores 0. */
  lemma {:induction false} AccuracyWithoutLetters(key: string, l: nat)
    requires AllUpper(key) && l >= 1
    ensures AccuracyOf([], key, l) == 0.0
    decreases |key|
  {
    if key != [] {
      var n := |key| - 1;
      AccuracyWithoutLetters(key[..n], l);
      assert Column([], n, l) == [];
      assert |Decrypt([], [key[n]]).value| == 0;
    }
  }

  /** Without letters the best length is 1: a longer one would have to beat length 1
      strictly, while every candidate scores 0. */
  lemma BestLengthWithoutLetters(n: nat, l: nat)
    requires IsBestLength([], n, l)
    ensures l == 1
  {
    if l > 1 {
      AccuracyWithoutLetters(CandidateKey([], l), l);
      AccuracyWithoutLetters(CandidateKey([], 1), 1);
    }
  }

  /** The length-1 candidate without letters is "A". */
  lemma CandidateWithoutLetters()
    ensures CandidateKey([], 1) == "A"
  {
    EmptyColumnPicksA();
    assert Column([], 0, 1) == [];
  }

  /** A ciphertext without letters is solved by the one-letter key "A". */
  lemma BestKeyWithoutLetters(n: nat, l: nat)
    requires IsBestLength([], n, l)
    ensures l == 1 && CandidateKey([], l) == "A"
  {
    BestLengthWithoutLetters(n, l);
    CandidateWithoutLetters();
  }

  /** The first least entry of the candidates' accuracies, at index `k`, marks the best
      length `k + 1`. */
  lemma FirstMinCandidateIsOptimal(trimmed: string, accuracies: seq<real>, k: nat)
    requires AllUpper(trimmed) && k < |accuracies|
    requires forall j :: 0 <= j < |accuracies| ==> accuracies[j] == KeyAccuracy(trimmed, CandidateKey(trimmed, j + 1))
    requires forall j :: 0 <= j < |accuracies| ==> accuracies[k] <= accuracies[j]
    requires forall j :: 0 <= j < k ==> accuracies[k] < accuracies[j]
    ensures IsBestLength(trimmed, |accuracies|, k + 1)
  {
    forall l | 1 <= l <= |accuracies|
      ensures accuracies[k] <= KeyAccuracy(trimmed, CandidateKey(trimmed, l))
    {
      assert accuracies[l - 1] == KeyAccuracy(trimmed, CandidateKey(trimmed, l));
    }
    forall l | 1 <= l < k + 1
      ensures accuracies[k] < KeyAccuracy(trimmed, CandidateKey(trimmed, l))
    {
      assert accuracies[l - 1] == KeyAccuracy(trimmed, CandidateKey(trimmed, l));
    }
  }

  /** The outer loop of `solve`: for every key length from 1 to `n` the candidate key
      and its accuracy, in order of length (`keys` of `solve`, split in two lists). */
  method AllCandidates(trimmed: string, n: nat) returns (keys: seq<string>, accuracies: seq<real>)
    requires AllUpper(trimmed)
    ensures |keys| == n && |accuracies| == n
    ensures forall j :: 0 <= j < n ==> keys[j] == CandidateKey(trimmed, j + 1)
    ensures forall j :: 0 <= j < n ==> accuracies[j] == KeyAccuracy(trimmed, CandidateKey(trimmed, j + 1))
  {
    keys, accuracies := [], [];
    var l := 0;
    while l < n
      invariant 0 <= l <= n
      invariant |keys| == l && |accuracies| == l
      invariant forall j :: 0 <= j < l ==> keys[j] == CandidateKey(trimmed, j + 1)
      invariant forall j :: 0 <= j < l ==> accuracies[j] == KeyAccuracy(trimmed, CandidateKey(trimmed, j + 1))
    {
      var key, keyAccuracy := CandidateForLength(trimmed, l + 1);
      ghost var keys0, accuracies0 := keys, accuracies;
      keys := keys + [key];
      accuracies := accuracies + [keyAccuracy];
      forall j | 0 <= j < l + 1
        ensures keys[j] == CandidateKey(trimmed, j + 1)
        ensures accuracies[j] == KeyAccuracy(trimmed, CandidateKey(trimmed, j + 1))
      {
        if j < l {
          assert keys[j] == keys0[j] && accuracies[j] == accuracies0[j];
        } else {
          assert keys[j] == key && accuracies[j] == keyAccuracy;
        }
      }
      l := l + 1;
    }
  }

  /** `solve(ciphertext)`: for every length from 1 to `len(ciphertext)` build the
      candidate key and its accuracy, then return the candidate of least accuracy, the
      shortest winning a tie. */
  method Solve(ciphertext: string) returns (r: Result<string, SolveError>)
    requires IsAscii(ciphertext)
    ensures r.Failure? <==> ciphertext == []
    ensures r.Success? ==> 1 <= |r.value| <= |ciphertext| && AllUpper(r.value)
    ensures r.Success? ==> r.value == CandidateKey(Trim(ciphertext), |r.value|)
    ensures r.Success? ==> IsBestLength(Trim(ciphertext), |ciphertext|, |r.value|)
    ensures r.Success? ==> Decrypt(ciphertext, r.value).Success?
  {
    var trimmed := Trim(ciphertext);
    var keys, accuracies := AllCandidates(trimmed, |ciphertext|);
    if |keys| == 0 {
      return Failure(EmptyCiphertext);
    }
    var k := FirstMinIndex(accuracies);
    FirstMinCandidateIsOptimal(trimmed, accuracies, k);
    assert keys[k] == CandidateKey(trimmed, k + 1);
    r := Success(keys[k]);
  }
}
