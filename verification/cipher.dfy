/** The iterated-key Vigenère transform of `encrypt` and `decrypt`. */
module Cipher {
  import opened Ascii
  import opened Results

  /** The one way `encrypt`/`decrypt` fail: `i % len(key)` with an empty key raises
      ZeroDivisionError, and it is evaluated only once a letter of the text is reached. */
  datatype CipherError = EmptyKey

  /** `encrypt` adds the key shift, `decrypt` subtracts it. */
  datatype Direction = Forward | Backward {
    function Flip(): Direction {
      if Forward? then Backward else Forward
    }
  }

  /** `b` is what the transform may put at the place of `a`: a letter of the same case,
      or `a` itself when `a` is not a letter. */
  predicate SameShape(a: char, b: char) {
    && (IsUpper(a) <==> IsUpper(b))
    && (IsLower(a) <==> IsLower(b))
    && (!IsAlpha(a) ==> b == a)
  }

  /** `start` in `encrypt`/`decrypt`: 'A' for an upper-case letter, 'a' otherwise. */
  function Start(c: char): int {
    if IsUpper(c) then 'A' as int else 'a' as int
  }

  /** Moves a letter `delta` places along the alphabet of its own case, wrapping around
      after 26. Python's `%` floors; with the positive divisor 26 that agrees with Dafny's
      Euclidean `%`, so a negative `delta` still lands in 0..25. */
  function ShiftLetter(c: char, delta: int): (r: char)
    requires IsAlpha(c)
    ensures SameShape(c, r)
  {
    ((c as int - Start(c) + delta) % 26 + Start(c)) as char
  }

  /** The shift for key cursor `i`: the code of the key character at `i` modulo the key
      length, less the code of 'A'. An upper-case key letter shifts by its place in the
      alphabet, 'A' by 0 up to 'Z' by 25; any other key character gives a shift outside
      0..25, possibly negative. */
  function KeyShift(key: string, i: nat): (r: int)
    requires |key| > 0
    ensures 0 <= r < 26 <==> IsUpper(key[i % |key|])
    ensures r >= -('A' as int)
  {
    key[i % |key|] as int - 'A' as int
  }

  /** The signed shift applied to the letter at key cursor `i`. */
  function Delta(dir: Direction, key: string, i: nat): int
    requires |key| > 0
  {
    if dir == Forward then KeyShift(key, i) else -KeyShift(key, i)
  }

  /** The loop of `encrypt`/`decrypt` from key cursor `i` on, over an already upper-cased
      key: a letter is shifted and advances the cursor, anything else is copied as is. */
  function Run(text: string, key: string, dir: Direction, i: nat): (r: string)
    requires |key| > 0 || Letters(text) == []
    ensures |r| == |text|
    decreases |text|
  {
    if text == [] then []
    else if IsAlpha(text[0]) then
      [ShiftLetter(text[0], Delta(dir, key, i))] + Run(text[1..], key, dir, i + 1)
    else
      [text[0]] + Run(text[1..], key, dir, i)
  }

  /** Every character of the loop's output has the shape of the input character at the
      same index: case kept, non-letters copied. */
  lemma {:induction false} RunKeepsShape(text: string, key: string, dir: Direction, i: nat)
    requires |key| > 0 || Letters(text) == []
    ensures forall j :: 0 <= j < |text| ==> SameShape(text[j], Run(text, key, dir, i)[j])
    decreases |text|
  {
    if text != [] {
      var next := if IsAlpha(text[0]) then i + 1 else i;
      var r := Run(text, key, dir, i);
      assert r[1..] == Run(text[1..], key, dir, next);
      RunKeepsShape(text[1..], key, dir, next);
      forall j | 1 <= j < |text|
        ensures SameShape(text[j], r[j])
      {
        assert text[j] == text[1..][j - 1] && r[j] == r[1..][j - 1];
      }
    }
  }

  /** A text the transform produced from an ASCII text is ASCII again. */
  lemma SameShapeKeepsAscii(text: string, r: string)
    requires IsAscii(text) && |r| == |text|
    requires forall j :: 0 <= j < |text| ==> SameShape(text[j], r[j])
    ensures IsAscii(r)
  {
    forall j | 0 <= j < |r|
      ensures r[j] as int < 128
    {
      assert SameShape(text[j], r[j]);
    }
  }

  /** `key.upper()` followed by the loop; fails exactly when the key is empty and the
      text holds a letter. */
  function Transform(text: string, key: string, dir: Direction): (r: Result<string, CipherError>)
    requires IsAscii(text) && IsAscii(key)
    ensures r.Failure? <==> key == [] && Letters(text) != []
    ensures r.Success? ==> |r.value| == |text| && IsAscii(r.value)
    ensures r.Success? ==> forall j :: 0 <= j < |text| ==> SameShape(text[j], r.value[j])
  {
    if key == [] && Letters(text) != [] then Failure(EmptyKey)
    else
      var out := Run(text, Upper(key), dir, 0);
      RunKeepsShape(text, Upper(key), dir, 0);
      SameShapeKeepsAscii(text, out);
      Success(out)
  }

  /** `encrypt(plaintext, key)`. */
  function Encrypt(plaintext: string, key: string): (r: Result<string, CipherError>)
    requires IsAscii(plaintext) && IsAscii(key)
    ensures r.Failure? <==> key == [] && Letters(plaintext) != []
    ensures r.Success? ==> |r.value| == |plaintext| && IsAscii(r.value)
    ensures r.Success? ==> forall j :: 0 <= j < |plaintext| ==> SameShape(plaintext[j], r.value[j])
  {
    Transform(plaintext, key, Forward)
  }

  /** `decrypt(ciphertext, key)`. */
  function Decrypt(ciphertext: string, key: string): (r: Result<string, CipherError>)
    requires IsAscii(ciphertext) && IsAscii(key)
    ensures r.Failure? <==> key == [] && Letters(ciphertext) != []
    ensures r.Success? ==> |r.value| == |ciphertext| && IsAscii(r.value)
    ensures r.Success? ==> forall j :: 0 <= j < |ciphertext| ==> SameShape(ciphertext[j], r.value[j])
  {
    Transform(ciphertext, key, Backward)
  }
}
