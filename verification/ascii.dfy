/** Character classification and case mapping over 7-bit ASCII: the domain on which
    Python's `str.isalpha`, `str.isupper` and `str.upper` are modelled. */
module Ascii {

  /** Every character of `s` is 7-bit ASCII. */
  predicate IsAscii(s: string) {
    forall i :: 0 <= i < |s| ==> s[i] as int < 128
  }

  predicate IsUpper(c: char) { 'A' <= c <= 'Z' }

  predicate IsLower(c: char) { 'a' <= c <= 'z' }

  /** `c.isalpha()` on an ASCII character. */
  predicate IsAlpha(c: char) { IsUpper(c) || IsLower(c) }

  /** Every character of `s` is one of 'A'..'Z' (`string.ascii_uppercase`). */
  predicate AllUpper(s: string) {
    forall i :: 0 <= i < |s| ==> IsUpper(s[i])
  }

  /** The `j`-th letter of the upper-case alphabet. */
  function Letter(j: int): (c: char)
    requires 0 <= j < 26
    ensures IsUpper(c)
    ensures c as int - 'A' as int == j
  {
    ('A' as int + j) as char
  }

  /** `c.upper()` on an ASCII character: only 'a'..'z' change. */
  function ToUpper(c: char): char {
    if IsLower(c) then (c as int - 32) as char else c
  }

  /** `s.upper()` on an ASCII string. */
  function Upper(s: string): string {
    seq(|s|, i requires 0 <= i < |s| => ToUpper(s[i]))
  }

  /** The alphabetic characters of `s`, in order. */
  function Letters(s: string): (r: string)
    ensures |r| <= |s|
    ensures forall i :: 0 <= i < |r| ==> IsAlpha(r[i])
  {
    if s == [] then []
    else (if IsAlpha(s[0]) then [s[0]] else []) + Letters(s[1..])
  }

  /** Upper-casing keeps the length and the ASCII range and leaves no lower-case letter;
      doing it twice is doing it once. */
  lemma UpperProperties(s: string)
    ensures |Upper(s)| == |s|
    ensures IsAscii(s) ==> IsAscii(Upper(s))
    ensures forall i :: 0 <= i < |s| ==> !IsLower(Upper(s)[i])
    ensures forall i :: 0 <= i < |s| ==> IsAlpha(Upper(s)[i]) == IsAlpha(s[i])
    ensures Upper(Upper(s)) == Upper(s)
  {
  }

  /** Extracting the letters distributes over concatenation. */
  lemma {:induction false} LettersAppend(a: string, b: string)
    ensures Letters(a + b) == Letters(a) + Letters(b)
  {
    if a == [] {
      assert a + b == b;
    } else {
      var head := if IsAlpha(a[0]) then [a[0]] else [];
      assert (a + b)[0] == a[0];
      assert (a + b)[1..] == a[1..] + b;
      assert Letters(a + b) == head + Letters(a[1..] + b);
      LettersAppend(a[1..], b);
      assert head + (Letters(a[1..]) + Letters(b)) == (head + Letters(a[1..])) + Letters(b);
    }
  }
}
