/** The chi-squared-style letter-frequency score of `freqTest`, over exact reals. */
module Frequency {
  import opened Ascii

  /** `ENGLISH_FREQ`: the expected relative frequency of 'A'..'Z' in English text, in
      alphabet order, with each decimal literal read as an exact real. */
  const EnglishFreq: seq<real> := [
    0.08497, 0.01492, 0.02202, 0.04253, 0.11162, 0.02228,
    0.02015, 0.06094, 0.07546, 0.00153, 0.01292, 0.04025,
    0.02406, 0.06749, 0.07507, 0.01929, 0.00095, 0.07587,
    0.06327, 0.09356, 0.02758, 0.00978, 0.02560, 0.00150,
    0.01994, 0.00077
  ]

  /** The expected frequency of `Letter(j)`; every entry of the table is positive, so
      dividing by it is defined. */
  function Expected(j: int): (e: real)
    requires 0 <= j < 26
    ensures e > 0.0
  {
    assert |EnglishFreq| == 26;
    assert forall k :: 0 <= k < 26 ==> EnglishFreq[k] > 0.0;
    EnglishFreq[j]
  }

  /** `message.count(c)`. */
  function Count(message: string, c: char): nat {
    multiset(message)[c]
  }

  /** The observed relative frequency of `c`: `message.count(c) / len(message)`, where the
      length is that of the whole message, non-letters included. */
  function Observed(message: string, c: char): (r: real)
    requires |message| > 0
    ensures 0.0 <= r <= 1.0
    ensures r == 0.0 <==> c !in message
    ensures r == 1.0 <==> forall k :: 0 <= k < |message| ==> message[k] == c
  {
    CountBounds(message, c);
    RatioBounds(Count(message, c), |message|);
    (Count(message, c) as real) / (|message| as real)
  }

  /** `message.count(c)` is at most the length, positive exactly when `c` occurs, and
      the full length exactly when every character is `c`. */
  lemma {:induction false} CountBounds(message: string, c: char)
    ensures Count(message, c) <= |message|
    ensures Count(message, c) > 0 <==> c in message
    ensures Count(message, c) == |message| <==> forall k :: 0 <= k < |message| ==> message[k] == c
    decreases |message|
  {
    if message != [] {
      var rest := message[1..];
      assert message == [message[0]] + rest;
      assert multiset(message) == multiset([message[0]]) + multiset(rest);
      CountBounds(rest, c);
      if forall k :: 0 <= k < |rest| ==> rest[k] == c {
        if message[0] == c {
          forall k | 0 <= k < |message|
            ensures message[k] == c
          {
            if k > 0 { assert message[k] == rest[k - 1]; }
          }
        }
      } else {
        var k :| 0 <= k < |rest| && rest[k] != c;
        assert message[k + 1] == rest[k];
      }
    }
  }

  /** A count out of a positive total is a ratio in 0..1, 0 exactly for no hits and 1
      exactly when every element is a hit. */
  lemma RatioBounds(k: nat, n: nat)
    requires 0 < n && k <= n
    ensures 0.0 <= (k as real) / (n as real) <= 1.0
    ensures (k as real) / (n as real) == 0.0 <==> k == 0
    ensures (k as real) / (n as real) == 1.0 <==> k == n
  {
  }

  /** One letter's chi-squared term, (observed - expected)^2 / expected. */
  function ChiTerm(observed: real, expected: real): (t: real)
    requires expected > 0.0
    ensures t >= 0.0
    ensures observed == expected ==> t == 0.0
  {
    var diff := observed - expected;
    assert diff * diff >= 0.0;
    diff * diff / expected
  }

  /** What `Letter(j)` adds to the score: its chi-squared term when it occurs in the
      message, and nothing otherwise (the `if c in message` guard, which also keeps
      `len(message)` away from 0). */
  function Term(message: string, j: int): (t: real)
    requires 0 <= j < 26
    ensures t >= 0.0
    ensures Letter(j) !in message ==> t == 0.0
  {
    var c := Letter(j);
    if c in message then ChiTerm(Observed(message, c), Expected(j)) else 0.0
  }

  /** The sum of the terms of the first `n` letters of the alphabet, in table order. */
  function ScoreUpTo(message: string, n: nat): (r: real)
    requires n <= 26
    ensures r >= 0.0
    ensures (forall j :: 0 <= j < n ==> Letter(j) !in message) ==> r == 0.0
  {
    if n == 0 then 0.0 else ScoreUpTo(message, n - 1) + Term(message, n - 1)
  }

  /** `freqTest(message)`: lower means closer to English. */
  function FreqTest(message: string): (r: real)
    ensures r >= 0.0
    ensures (forall i :: 0 <= i < |message| ==> !IsUpper(message[i])) ==> r == 0.0
  {
    ScoreUpTo(message, 26)
  }

  /** The textbook statistic over the first `n` letters: absent letters are counted too,
      with an observed frequency of 0. */
  function TextbookUpTo(message: string, n: nat): real
    requires |message| > 0 && n <= 26
  {
    if n == 0 then 0.0
    else TextbookUpTo(message, n - 1) + ChiTerm(Observed(message, Letter(n - 1)), Expected(n - 1))
  }

  /** The expected frequencies of those of the first `n` letters that `message` lacks. */
  function AbsentMass(message: string, n: nat): real
    requires n <= 26
  {
    if n == 0 then 0.0
    else AbsentMass(message, n - 1) + (if Letter(n - 1) in message then 0.0 else Expected(n - 1))
  }

  /** An absent letter would add (0 - e)^2 / e = e to the textbook statistic. */
  lemma AbsentTerm(e: real)
    requires e > 0.0
    ensures ChiTerm(0.0, e) == e
  {
    assert (0.0 - e) * (0.0 - e) == e * e;
  }

  /** Absent letters are not penalised: the score falls short of the textbook statistic
      by exactly the expected frequencies of the letters that do not occur. */
  lemma {:induction false} AbsentLettersNotPenalised(message: string, n: nat)
    requires |message| > 0 && n <= 26
    ensures ScoreUpTo(message, n) + AbsentMass(message, n) == TextbookUpTo(message, n)
  {
    if n > 0 {
      AbsentLettersNotPenalised(message, n - 1);
      var c := Letter(n - 1);
      if c !in message {
        assert Count(message, c) == 0;
        assert Observed(message, c) == 0.0;
        AbsentTerm(Expected(n - 1));
      }
    }
  }

  /** `freqTest` plus the mass of the absent letters is the textbook chi-squared statistic. */
  lemma FreqTestVersusTextbook(message: string)
    requires |message| > 0
    ensures FreqTest(message) + AbsentMass(message, 26) == TextbookUpTo(message, 26)
  {
    AbsentLettersNotPenalised(message, 26);
  }

  /** The score depends on the letter counts only, not on the order of the message. */
  lemma {:induction false} ScoreUpToPermutation(m1: string, m2: string, n: nat)
    requires multiset(m1) == multiset(m2) && n <= 26
    ensures ScoreUpTo(m1, n) == ScoreUpTo(m2, n)
  {
    if n > 0 {
      ScoreUpToPermutation(m1, m2, n - 1);
      var c := Letter(n - 1);
      assert |m1| == |multiset(m1)| == |multiset(m2)| == |m2|;
      assert c in m1 <==> c in multiset(m1);
      assert c in m2 <==> c in multiset(m2);
      assert Count(m1, c) == Count(m2, c);
      if c in m1 {
        assert Observed(m1, c) == Observed(m2, c);
      }
      assert Term(m1, n - 1) == Term(m2, n - 1);
    }
  }

  /** Rearranging a message does not change its score. */
  lemma FreqTestPermutation(m1: string, m2: string)
    requires multiset(m1) == multiset(m2)
    ensures FreqTest(m1) == FreqTest(m2)
  {
    ScoreUpToPermutation(m1, m2, 26);
  }
}
