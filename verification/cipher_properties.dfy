/** What `encrypt` and `decrypt` promise: they undo each other, the key cursor counts
    letters only, the key's case does not matter, and an all-'A' key changes nothing. */
module CipherProperties {
  import opened Ascii
  import opened Results
  import opened Cipher

  /** Subtracting a shift modulo 26 undoes adding it, whatever the sign of the shift. */
  lemma ModInverse(p: int, s: int)
    requires 0 <= p < 26
    ensures ((p + s) % 26 - s) % 26 == p
  {
    var q := (p + s) / 26;
    assert (p + s) % 26 - s == p - 26 * q;
  }

  /** Shifting a letter back by the amount it was shifted forward restores it. */
  lemma ShiftLetterInverse(c: char, s: int)
    requires IsAlpha(c)
    ensures ShiftLetter(ShiftLetter(c, s), -s) == c
  {
    var r := ShiftLetter(c, s);
    assert Start(r) == Start(c);
    ModInverse(c as int - Start(c), s);
  }

  /** Running the loop in one direction and then in the other from the same cursor
      gives the text back. */
  lemma {:induction false} RunInverse(text: string, key: string, dir: Direction, i: nat)
    requires |key| > 0
    ensures Run(Run(text, key, dir, i), key, dir.Flip(), i) == text
    decreases |text|
  {
    if text != [] {
      var r := Run(text, key, dir, i);
      assert r[1..] == Run(text[1..], key, dir, if IsAlpha(text[0]) then i + 1 else i);
      if IsAlpha(text[0]) {
        assert Delta(dir.Flip(), key, i) == -Delta(dir, key, i);
        ShiftLetterInverse(text[0], Delta(dir, key, i));
        RunInverse(text[1..], key, dir, i + 1);
      } else {
        RunInverse(text[1..], key, dir, i);
      }
    }
  }

  /** A text without letters passes through the loop unchanged, whatever the key. */
  lemma {:induction false} RunWithoutLetters(text: string, key: string, dir: Direction, i: nat)
    requires Letters(text) == []
    ensures Run(text, key, dir, i) == text
    decreases |text|
  {
    if text != [] {
      RunWithoutLetters(text[1..], key, dir, i);
    }
  }

  /** Round trip: decrypting what `encrypt` returned restores the plaintext, and
      encrypting what `decrypt` returned restores the ciphertext. */
  lemma RoundTrip(text: string, key: string)
    requires IsAscii(text) && IsAscii(key)
    requires key != [] || Letters(text) == []
    ensures Encrypt(text, key).Success? && Decrypt(text, key).Success?
    ensures Decrypt(Encrypt(text, key).value, key) == Success(text)
    ensures Encrypt(Decrypt(text, key).value, key) == Success(text)
  {
    UpperProperties(key);
    if key == [] {
      RunWithoutLetters(text, Upper(key), Forward, 0);
      RunWithoutLetters(text, Upper(key), Backward, 0);
    } else {
      RunInverse(text, Upper(key), Forward, 0);
      RunInverse(text, Upper(key), Backward, 0);
    }
  }

  /** The loop over `a + b` is the loop over `a` followed by the loop over `b` from the
      cursor advanced by the letters of `a`. */
  lemma {:induction false} RunAppend(a: string, b: string, key: string, dir: Direction, i: nat)
    requires |key| > 0
    ensures Run(a + b, key, dir, i) == Run(a, key, dir, i) + Run(b, key, dir, i + |Letters(a)|)
    decreases |a|
  {
    if a == [] {
      assert a + b == b;
    } else if IsAlpha(a[0]) {
      RunAppend(a[1..], b, key, dir, i + 1);
      RunAppendLetter(a, b, key, dir, i);
    } else {
      RunAppend(a[1..], b, key, dir, i);
      RunAppendOther(a, b, key, dir, i);
    }
  }

  /** The step of `RunAppend` when `a` starts with a letter. */
  lemma RunAppendLetter(a: string, b: string, key: string, dir: Direction, i: nat)
    requires |key| > 0 && a != [] && IsAlpha(a[0])
    requires Run(a[1..] + b, key, dir, i + 1)
          == Run(a[1..], key, dir, i + 1) + Run(b, key, dir, i + 1 + |Letters(a[1..])|)
    ensures Run(a + b, key, dir, i) == Run(a, key, dir, i) + Run(b, key, dir, i + |Letters(a)|)
  {
    var c, ab := a[0], a + b;
    assert ab[0] == c && ab[1..] == a[1..] + b;
    var head := [ShiftLetter(c, Delta(dir, key, i))];
    assert Letters(a) == [c] + Letters(a[1..]);
    calc {
      Run(ab, key, dir, i);
      head + Run(a[1..] + b, key, dir, i + 1);
      head + (Run(a[1..], key, dir, i + 1) + Run(b, key, dir, i + 1 + |Letters(a[1..])|));
      (head + Run(a[1..], key, dir, i + 1)) + Run(b, key, dir, i + |Letters(a)|);
    }
  }

  /** The step of `RunAppend` when `a` starts with a non-letter. */
  lemma RunAppendOther(a: string, b: string, key: string, dir: Direction, i: nat)
    requires |key| > 0 && a != [] && !IsAlpha(a[0])
    requires Run(a[1..] + b, key, dir, i)
          == Run(a[1..], key, dir, i) + Run(b, key, dir, i + |Letters(a[1..])|)
    ensures Run(a + b, key, dir, i) == Run(a, key, dir, i) + Run(b, key, dir, i + |Letters(a)|)
  {
    var c, ab := a[0], a + b;
    assert ab[0] == c && ab[1..] == a[1..] + b;
    assert Letters(a) == Letters(a[1..]);
    calc {
      Run(ab, key, dir, i);
      [c] + Run(a[1..] + b, key, dir, i);
      [c] + (Run(a[1..], key, dir, i) + Run(b, key, dir, i + |Letters(a[1..])|));
      ([c] + Run(a[1..], key, dir, i)) + Run(b, key, dir, i + |Letters(a)|);
    }
  }

  /** The cursor counts letters only: the letter at index `j` is shifted by the key
      character at the number of letters before it. */
  lemma RunAt(text: string, key: string, dir: Direction, i: nat, j: nat)
    requires |key| > 0 && j < |text| && IsAlpha(text[j])
    ensures Run(text, key, dir, i)[j] == ShiftLetter(text[j], Delta(dir, key, i + |Letters(text[..j])|))
  {
    assert text == text[..j] + text[j..];
    RunAppend(text[..j], text[j..], key, dir, i);
  }

  /** The n-th letter of the text, counting from 0 and skipping everything else, is
      shifted by `key[n % len(key)]` of the upper-cased key, forward by `encrypt` and
      backward by `decrypt`. */
  lemma NthLetterUsesNthKeyChar(text: string, key: string, j: nat)
    requires IsAscii(text) && IsAscii(key) && key != []
    requires j < |text| && IsAlpha(text[j])
    ensures Encrypt(text, key).value[j] == ShiftLetter(text[j], KeyShift(Upper(key), |Letters(text[..j])|))
    ensures Decrypt(text, key).value[j] == ShiftLetter(text[j], -KeyShift(Upper(key), |Letters(text[..j])|))
  {
    RunAt(text, Upper(key), Forward, 0, j);
    RunAt(text, Upper(key), Backward, 0, j);
  }

  /** Dropping the non-letters before or after the transform gives the same letters:
      punctuation never consumes key material. */
  lemma {:induction false} LettersOfRun(text: string, key: string, dir: Direction, i: nat)
    requires |key| > 0
    ensures Letters(Run(text, key, dir, i)) == Run(Letters(text), key, dir, i)
    decreases |text|
  {
    if text != [] {
      var c := text[0];
      var r := Run(text, key, dir, i);
      if IsAlpha(c) {
        var d := ShiftLetter(c, Delta(dir, key, i));
        assert r == [d] + Run(text[1..], key, dir, i + 1);
        assert r[1..] == Run(text[1..], key, dir, i + 1);
        assert Letters(text) == [c] + Letters(text[1..]);
        calc {
          Letters(r);
          [d] + Letters(Run(text[1..], key, dir, i + 1));
          { LettersOfRun(text[1..], key, dir, i + 1); }
          [d] + Run(Letters(text[1..]), key, dir, i + 1);
          Run(Letters(text), key, dir, i);
        }
      } else {
        assert r == [c] + Run(text[1..], key, dir, i);
        assert r[1..] == Run(text[1..], key, dir, i);
        assert Letters(text) == Letters(text[1..]);
        calc {
          Letters(r);
          Letters(Run(text[1..], key, dir, i));
          { LettersOfRun(text[1..], key, dir, i); }
          Run(Letters(text), key, dir, i);
        }
      }
    }
  }

  /** The letters of the ciphertext are the encryption of the letters of the plaintext. */
  lemma EncryptLetters(text: string, key: string)
    requires IsAscii(text) && IsAscii(key) && key != []
    ensures IsAscii(Letters(text))
    ensures Letters(Encrypt(text, key).value) == Encrypt(Letters(text), key).value
  {
    UpperProperties(key);
    LettersOfRun(text, Upper(key), Forward, 0);
  }

  /** The letters of the decryption are the decryption of the ciphertext's letters. */
  lemma DecryptLetters(text: string, key: string)
    requires IsAscii(text) && IsAscii(key) && key != []
    ensures IsAscii(Letters(text))
    ensures Letters(Decrypt(text, key).value) == Decrypt(Letters(text), key).value
  {
    UpperProperties(key);
    LettersOfRun(text, Upper(key), Backward, 0);
  }

  /** Inserting a non-letter `x` into the loop's input inserts `x` at the same place in
      its output and changes nothing else. */
  lemma RunInsertNonLetter(a: string, x: char, b: string, key: string, dir: Direction, i: nat)
    requires |key| > 0 && !IsAlpha(x)
    ensures |Run(a + b, key, dir, i)| == |a| + |b|
    ensures Run(a + [x] + b, key, dir, i)
         == Run(a + b, key, dir, i)[..|a|] + [x] + Run(a + b, key, dir, i)[|a|..]
  {
    var ra := Run(a, key, dir, i);
    var rb := Run(b, key, dir, i + |Letters(a)|);
    RunAppend(a, b, key, dir, i);
    assert Run(a + b, key, dir, i)[..|a|] == ra;
    assert Run(a + b, key, dir, i)[|a|..] == rb;
    RunAppend(a, [x], key, dir, i);
    assert Run([x], key, dir, i + |Letters(a)|) == [x];
    LettersAppend(a, [x]);
    assert Letters([x]) == [];
    assert a + [x] + b == (a + [x]) + b;
    RunAppend(a + [x], b, key, dir, i);
  }

  /** Inserting a non-letter `x` into the plaintext inserts `x` at the same place in the
      ciphertext and changes nothing else. */
  lemma InsertNonLetter(a: string, x: char, b: string, key: string)
    requires IsAscii(a + [x] + b) && IsAscii(key) && key != []
    requires !IsAlpha(x)
    ensures IsAscii(a + b)
    ensures Encrypt(a + [x] + b, key).value
         == Encrypt(a + b, key).value[..|a|] + [x] + Encrypt(a + b, key).value[|a|..]
  {
    UpperProperties(key);
    assert forall j :: 0 <= j < |a + b| ==> (a + b)[j] in a + [x] + b;
    RunInsertNonLetter(a, x, b, Upper(key), Forward, 0);
  }

  /** Inserting a non-letter `x` into the ciphertext inserts `x` at the same place in the
      decryption and changes nothing else. */
  lemma DecryptInsertNonLetter(a: string, x: char, b: string, key: string)
    requires IsAscii(a + [x] + b) && IsAscii(key) && key != []
    requires !IsAlpha(x)
    ensures IsAscii(a + b)
    ensures Decrypt(a + [x] + b, key).value
         == Decrypt(a + b, key).value[..|a|] + [x] + Decrypt(a + b, key).value[|a|..]
  {
    UpperProperties(key);
    assert forall j :: 0 <= j < |a + b| ==> (a + b)[j] in a + [x] + b;
    RunInsertNonLetter(a, x, b, Upper(key), Backward, 0);
  }

  /** Upper-casing the key first changes nothing: the transform does it already. */
  lemma KeyCaseIrrelevant(text: string, key: string)
    requires IsAscii(text) && IsAscii(key)
    ensures IsAscii(Upper(key))
    ensures Encrypt(text, key) == Encrypt(text, Upper(key))
    ensures Decrypt(text, key) == Decrypt(text, Upper(key))
  {
    UpperProperties(key);
  }

  /** With every key shift 0 the loop is the identity. */
  lemma {:induction false} RunZeroShift(text: string, key: string, dir: Direction, i: nat)
    requires |key| > 0
    requires forall j :: 0 <= j < |key| ==> key[j] == 'A'
    ensures Run(text, key, dir, i) == text
    decreases |text|
  {
    if text != [] {
      if IsAlpha(text[0]) {
        assert key[i % |key|] == 'A';
        assert KeyShift(key, i) == 0;
        assert ShiftLetter(text[0], Delta(dir, key, i)) == text[0];
        RunZeroShift(text[1..], key, dir, i + 1);
      } else {
        RunZeroShift(text[1..], key, dir, i);
      }
    }
  }

  /** A key made of 'A' and 'a' only shifts every letter by 0. */
  lemma AllAKeyIsIdentity(text: string, key: string)
    requires IsAscii(text) && IsAscii(key) && key != []
    requires forall j :: 0 <= j < |key| ==> ToUpper(key[j]) == 'A'
    ensures Encrypt(text, key) == Success(text)
    ensures Decrypt(text, key) == Success(text)
  {
    RunZeroShift(text, Upper(key), Forward, 0);
    RunZeroShift(text, Upper(key), Backward, 0);
  }

  /** With a non-empty key `encrypt` is the loop over the upper-cased key from cursor 0. */
  lemma EncryptWithKey(text: string, key: string)
    requires IsAscii(text) && IsAscii(key) && key != []
    ensures Encrypt(text, key) == Success(Run(text, Upper(key), Forward, 0))
  {
  }

  /** The loop over "Att" from cursor 0 under LEMON. */
  lemma LemonSyllable1(t: string, key: string, dir: Direction)
    requires t == "Att" && key == "LEMON" && dir == Forward
    ensures Run(t, key, dir, 0) == "Lxf"
    ensures |Letters(t)| == 3
  {
    assert ShiftLetter(t[2], Delta(dir, key, 2)) == 'f';
    assert Run(t[2..], key, dir, 2) == "f";
    assert Letters(t[2..]) == "t";
    assert ShiftLetter(t[1], Delta(dir, key, 1)) == 'x';
    assert Run(t[1..], key, dir, 1) == "xf";
    assert Letters(t[1..]) == "tt";
    assert ShiftLetter(t[0], Delta(dir, key, 0)) == 'L';
    assert Run(t, key, dir, 0) == [ShiftLetter(t[0], Delta(dir, key, 0))] + Run(t[1..], key, dir, 1);
  }

  /** The loop over "ack" from cursor 3 under LEMON. */
  lemma LemonSyllable2(t: string, key: string, dir: Direction)
    requires t == "ack" && key == "LEMON" && dir == Forward
    ensures Run(t, key, dir, 3) == "opv"
  {
    assert ShiftLetter(t[2], Delta(dir, key, 5)) == 'v';
    assert Run(t[2..], key, dir, 5) == "v";
    assert Letters(t[2..]) == "k";
    assert ShiftLetter(t[1], Delta(dir, key, 4)) == 'p';
    assert Run(t[1..], key, dir, 4) == "pv";
    assert Letters(t[1..]) == "ck";
    assert ShiftLetter(t[0], Delta(dir, key, 3)) == 'o';
    assert Run(t, key, dir, 3) == [ShiftLetter(t[0], Delta(dir, key, 3))] + Run(t[1..], key, dir, 4);
  }

  /** The loop over "Attack" from cursor 0 under LEMON. */
  lemma LemonWord1(t: string, key: string, dir: Direction)
    requires t == "Attack" && key == "LEMON" && dir == Forward
    ensures Run(t, key, dir, 0) == "Lxfopv"
    ensures |Letters(t)| == 6
  {
    var a, b := "Att", "ack";
    assert t == a + b;
    LemonSyllable1(a, key, dir);
    LemonSyllable2(b, key, dir);
    RunAppend(a, b, key, dir, 0);
    LettersAppend(a, b);
    assert |Letters(b)| == 3;
  }

  /** The loop over " at" from cursor 6 under LEMON. */
  lemma LemonWord2(t: string, key: string, dir: Direction)
    requires t == " at" && key == "LEMON" && dir == Forward
    ensures Run(t, key, dir, 6) == " ef"
    ensures |Letters(t)| == 2
  {
    assert ShiftLetter(t[2], Delta(dir, key, 7)) == 'f';
    assert Run(t[2..], key, dir, 7) == "f";
    assert Letters(t[2..]) == "t";
    assert ShiftLetter(t[1], Delta(dir, key, 6)) == 'e';
    assert Run(t[1..], key, dir, 6) == "ef";
    assert Letters(t[1..]) == "at";
    assert Run(t, key, dir, 6) == [t[0]] + Run(t[1..], key, dir, 6);
  }

  /** The loop over " dawn" from cursor 8 under LEMON. */
  lemma LemonWord3(t: string, key: string, dir: Direction)
    requires t == " dawn" && key == "LEMON" && dir == Forward
    ensures Run(t, key, dir, 8) == " rnhr"
    ensures |Letters(t)| == 4
  {
    assert ShiftLetter(t[4], Delta(dir, key, 11)) == 'r';
    assert Run(t[4..], key, dir, 11) == "r";
    assert Letters(t[4..]) == "n";
    assert ShiftLetter(t[3], Delta(dir, key, 10)) == 'h';
    assert Run(t[3..], key, dir, 10) == "hr";
    assert Letters(t[3..]) == "wn";
    assert ShiftLetter(t[2], Delta(dir, key, 9)) == 'n';
    assert Run(t[2..], key, dir, 9) == "nhr";
    assert Letters(t[2..]) == "awn";
    assert ShiftLetter(t[1], Delta(dir, key, 8)) == 'r';
    assert Run(t[1..], key, dir, 8) == "rnhr";
    assert Letters(t[1..]) == "dawn";
    assert Run(t, key, dir, 8) == [t[0]] + Run(t[1..], key, dir, 8);
  }


  /** The three words joined: the whole textbook sentence. */
  lemma LemonSentence(w1: string, w2: string, w3: string, key: string)
    requires w1 == "Attack" && w2 == " at" && w3 == " dawn" && key == "LEMON"
    ensures Run(w1 + w2 + w3, key, Forward, 0) == "Lxfopv ef rnhr"
  {
    LemonWord1(w1, key, Forward);
    LemonWord2(w2, key, Forward);
    LemonWord3(w3, key, Forward);
    RunAppend(w1, w2, key, Forward, 0);
    LettersAppend(w1, w2);
    RunAppend(w1 + w2, w3, key, Forward, 0);
  }

  /** The textbook example: ATTACKATDAWN under LEMON, with case and spaces kept, and
      back again under the lower-case key. */
  lemma LemonExampleOf(plain: string, cipher: string, key: string, lowerKey: string)
    requires plain == "Attack at dawn" && cipher == "Lxfopv ef rnhr"
    requires key == "LEMON" && lowerKey == "lemon"
    ensures IsAscii(plain) && IsAscii(cipher) && IsAscii(key) && IsAscii(lowerKey)
    ensures Encrypt(plain, key) == Success(cipher)
    ensures Decrypt(cipher, lowerKey) == Success(plain)
  {
    var w1, w2, w3 := "Attack", " at", " dawn";
    assert plain == w1 + w2 + w3;
    assert Upper(key) == key;
    assert Upper(lowerKey) == key;
    LemonSentence(w1, w2, w3, key);
    EncryptWithKey(plain, key);
    RoundTrip(plain, key);
    KeyCaseIrrelevant(cipher, lowerKey);
  }

  /** The textbook example with its literals written out. */
  lemma LemonExample()
    ensures IsAscii("Attack at dawn") && IsAscii("Lxfopv ef rnhr")
    ensures IsAscii("LEMON") && IsAscii("lemon")
    ensures Encrypt("Attack at dawn", "LEMON") == Success("Lxfopv ef rnhr")
    ensures Decrypt("Lxfopv ef rnhr", "lemon") == Success("Attack at dawn")
  {
    LemonExampleOf("Attack at dawn", "Lxfopv ef rnhr", "LEMON", "lemon");
  }
}
