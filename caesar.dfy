/**
 * The Caesar cipher (lib/caesar.ts). Each character is upper-cased; an
 * upper-case letter A-Z is rotated over the alphabet by `shift % 26`
 * positions and every other character is copied unchanged. `%` is
 * JavaScript's truncating remainder, so a negative shift can produce a
 * negative alphabet index: the source then appends `alphabet[-k]`, which
 * is `undefined`, and string concatenation writes the word "undefined".
 *
 * Inputs are ASCII strings: JavaScript's full Unicode case mapping (where
 * for instance the upper-case form of a long s is an S) is not modelled.
 */
module Caesar {
  import Js

  const Alphabet: string := "ABCDEFGHIJKLMNOPQRSTUVWXYZ"

  /** `alphabet[k]`, computed from `k` (AlphabetAt shows the two agree). */
  function Letter(k: int): (r: char)
    requires 0 <= k < 26
    ensures Js.IsUpperLetter(r)
  {
    ('A' as int + k) as char
  }

  lemma AlphabetAt(k: int)
    requires 0 <= k < 26
    ensures |Alphabet| == 26 && Alphabet[k] == Letter(k)
  {
  }

  /** `alphabet.indexOf(c)` for an upper-case letter. */
  function Pos(c: char): (r: nat)
    requires Js.IsUpperLetter(c)
    ensures r < 26 && Letter(r) == c
  {
    c as int - 'A' as int
  }

  lemma PosOfLetter(k: int)
    requires 0 <= k < 26
    ensures Pos(Letter(k)) == k
  {
  }

  // ---------------------------------------------------------------------
  // The output of one loop iteration, and of the whole loop
  // ---------------------------------------------------------------------

  /** What one iteration of the encryption loop appends for `c`, given
      the normalised shift `ns == shift % 26`. */
  function EncryptChar(c: char, ns: int): string
    requires -26 < ns < 26
  {
    var u := Js.UpperChar(c);
    if Js.IsUpperLetter(u) then
      var encryptedPos := Js.Rem(Pos(u) + ns, 26);
      if encryptedPos >= 0 then [Letter(encryptedPos)] else "undefined"
    else [c]
  }

  /** What one iteration of the decryption loop appends for `c`. The index
      `(pos - ns + 26) % 26` is in [0, 26) for every normalised shift. */
  function DecryptChar(c: char, ns: int): string
    requires -26 < ns < 26
  {
    var u := Js.UpperChar(c);
    if Js.IsUpperLetter(u) then [Letter(Js.Rem(Pos(u) - ns + 26, 26))] else [c]
  }

  /** `caesarEncrypt(text, shift)`: the concatenation of what each
      iteration appends. */
  function Encrypt(text: string, shift: int): string
    requires Js.IsAscii(text)
  {
    if text == [] then []
    else Encrypt(text[..|text| - 1], shift) + EncryptChar(text[|text| - 1], Js.Rem(shift, 26))
  }

  /** `caesarDecrypt(ciphertext, shift)` */
  function Decrypt(ciphertext: string, shift: int): string
    requires Js.IsAscii(ciphertext)
  {
    if ciphertext == [] then []
    else Decrypt(ciphertext[..|ciphertext| - 1], shift) + DecryptChar(ciphertext[|ciphertext| - 1], Js.Rem(shift, 26))
  }

  // ---------------------------------------------------------------------
  // The two loops
  // ---------------------------------------------------------------------

  method CaesarEncrypt(text: string, shift: int) returns (result: string)
    requires Js.IsAscii(text)
    ensures result == Encrypt(text, shift)
  {
    var normalizedShift := Js.Rem(shift, 26);
    result := "";
    for i := 0 to |text|
      invariant result == Encrypt(text[..i], shift)
    {
      var c := Js.UpperChar(text[i]);
      if Js.IsUpperLetter(c) {
        var textPos := Pos(c);
        var encryptedPos := Js.Rem(textPos + normalizedShift, 26);
        if encryptedPos >= 0 {
          result := result + [Letter(encryptedPos)];
        } else {
          // alphabet[encryptedPos] is undefined, which `+=` spells out
          result := result + "undefined";
        }
      } else {
        result := result + [text[i]];
      }
      assert text[..i + 1][..i] == text[..i];
    }
    assert text[..|text|] == text;
  }

  method CaesarDecrypt(ciphertext: string, shift: int) returns (result: string)
    requires Js.IsAscii(ciphertext)
    ensures result == Decrypt(ciphertext, shift)
  {
    var normalizedShift := Js.Rem(shift, 26);
    result := "";
    for i := 0 to |ciphertext|
      invariant result == Decrypt(ciphertext[..i], shift)
    {
      var c := Js.UpperChar(ciphertext[i]);
      if Js.IsUpperLetter(c) {
        var cipherPos := Pos(c);
        var decryptedPos := Js.Rem(cipherPos - normalizedShift + 26, 26);
        result := result + [Letter(decryptedPos)];
      } else {
        result := result + [ciphertext[i]];
      }
      assert ciphertext[..i + 1][..i] == ciphertext[..i];
    }
    assert ciphertext[..|ciphertext|] == ciphertext;
  }

  // ---------------------------------------------------------------------
  // Reference definitions: one character in, one character out
  // ---------------------------------------------------------------------

  /** The textbook rotation of one character by a non-negative shift. */
  function Rotated(c: char, shift: nat): char {
    var u := Js.UpperChar(c);
    if Js.IsUpperLetter(u) then Letter((Pos(u) + shift) % 26) else c
  }

  /** The inverse rotation by the normalised shift `ns`. */
  function Unrotated(c: char, ns: int): char
    requires -26 < ns < 26
  {
    var u := Js.UpperChar(c);
    if Js.IsUpperLetter(u) then Letter((Pos(u) - ns + 26) % 26) else c
  }

  lemma ModShift(p: int, s: nat)
    ensures (p + Js.Rem(s, 26)) % 26 == (p + s) % 26
  {
  }

  /** One iteration with a non-negative shift appends the textbook
      rotation of its character. */
  lemma EncryptCharRotates(c: char, shift: nat)
    ensures EncryptChar(c, Js.Rem(shift, 26)) == [Rotated(c, shift)]
  {
    var ns := Js.Rem(shift, 26);
    assert ns == shift % 26;
    var u := Js.UpperChar(c);
    if Js.IsUpperLetter(u) {
      var p := Pos(u);
      var k := Js.Rem(p + ns, 26);
      ReduceShift(p, shift);
      assert k == (p + shift) % 26;
      assert EncryptChar(c, ns) == [Letter(k)];
    }
  }

  /** For a non-negative shift, encryption writes exactly one character per
      input character, and that character is the textbook rotation. */
  lemma {:induction false} EncryptShape(text: string, shift: nat)
    requires Js.IsAscii(text)
    ensures |Encrypt(text, shift)| == |text|
    ensures forall i | 0 <= i < |text| :: Encrypt(text, shift)[i] == Rotated(text[i], shift)
    decreases |text|
  {
    if text != [] {
      var n := |text|;
      var p := text[..n - 1];
      EncryptShape(p, shift);
      var c := text[n - 1];
      EncryptCharRotates(c, shift);
      var e := Encrypt(p, shift);
      assert Encrypt(text, shift) == e + [Rotated(c, shift)];
      forall i | 0 <= i < n
        ensures Encrypt(text, shift)[i] == Rotated(text[i], shift)
      {
        if i < n - 1 {
          assert p[i] == text[i];
          assert (e + [Rotated(c, shift)])[i] == e[i];
        }
      }
    }
  }

  /** For every shift, decryption writes exactly one character per input
      character: its alphabet index never leaves [0, 26). */
  lemma {:induction false} DecryptShape(ciphertext: string, shift: int)
    requires Js.IsAscii(ciphertext)
    ensures |Decrypt(ciphertext, shift)| == |ciphertext|
    ensures forall i | 0 <= i < |ciphertext| ::
      Decrypt(ciphertext, shift)[i] == Unrotated(ciphertext[i], Js.Rem(shift, 26))
    decreases |ciphertext|
  {
    if ciphertext != [] {
      var n := |ciphertext|;
      var p := ciphertext[..n - 1];
      DecryptShape(p, shift);
      forall i | 0 <= i < n
        ensures Decrypt(ciphertext, shift)[i] == Unrotated(ciphertext[i], Js.Rem(shift, 26))
      {
        if i < n - 1 {
          assert p[i] == ciphertext[i];
        }
      }
    }
  }

  // ---------------------------------------------------------------------
  // Properties of encryption
  // ---------------------------------------------------------------------

  /** Characters whose upper-case form is not a letter are copied. */
  lemma EncryptPassesThrough(text: string, shift: nat, i: int)
    requires Js.IsAscii(text) && 0 <= i < |text|
    requires !Js.IsUpperLetter(Js.UpperChar(text[i]))
    ensures |Encrypt(text, shift)| == |text| && Encrypt(text, shift)[i] == text[i]
  {
    EncryptShape(text, shift);
  }

  /** No lower-case letter survives encryption by a non-negative shift:
      letters come out upper-cased and rotated. */
  lemma EncryptIsUpperCase(text: string, shift: nat)
    requires Js.IsAscii(text)
    ensures forall i | 0 <= i < |Encrypt(text, shift)| :: !Js.IsLowerLetter(Encrypt(text, shift)[i])
  {
    EncryptShape(text, shift);
  }

  /** A letter is upper-cased and rotated by `shift % 26`. */
  lemma EncryptRotatesLetter(text: string, shift: nat, i: int)
    requires Js.IsAscii(text) && 0 <= i < |text|
    requires Js.IsUpperLetter(Js.UpperChar(text[i]))
    ensures |Encrypt(text, shift)| == |text|
    ensures Encrypt(text, shift)[i] == Letter((Pos(Js.UpperChar(text[i])) + shift % 26) % 26)
  {
    EncryptAt(text, shift, i);
    RotatedLetter(text[i], shift);
  }

  lemma EncryptAt(text: string, shift: nat, i: int)
    requires Js.IsAscii(text) && 0 <= i < |text|
    ensures |Encrypt(text, shift)| == |text| && Encrypt(text, shift)[i] == Rotated(text[i], shift)
  {
    EncryptShape(text, shift);
  }

  lemma RotatedLetter(c: char, shift: nat)
    requires Js.IsUpperLetter(Js.UpperChar(c))
    ensures Rotated(c, shift) == Letter((Pos(Js.UpperChar(c)) + shift % 26) % 26)
  {
    ReduceShift(Pos(Js.UpperChar(c)), shift);
  }

  lemma ReduceShift(p: nat, s: nat)
    ensures (p + s % 26) % 26 == (p + s) % 26
  {
    var q := s / 26;
    assert p + s == (p + s % 26) + 26 * q;
  }

  /** The shift only matters modulo 26. */
  lemma EncryptPeriodic(text: string, shift: nat)
    requires Js.IsAscii(text)
    ensures Encrypt(text, shift) == Encrypt(text, shift + 26)
  {
    EncryptShape(text, shift);
    EncryptShape(text, shift + 26);
  }

  /** A zero shift only upper-cases. */
  lemma EncryptByZero(text: string)
    requires Js.IsAscii(text)
    ensures Encrypt(text, 0) == Js.ToUpper(text)
  {
    EncryptShape(text, 0);
    forall i | 0 <= i < |text| ensures Encrypt(text, 0)[i] == Js.ToUpper(text)[i] {
      RotatedByZero(text[i]);
    }
  }

  lemma RotatedByZero(c: char)
    ensures Rotated(c, 0) == Js.UpperChar(c)
  {
    var u := Js.UpperChar(c);
    if Js.IsUpperLetter(u) {
      assert (Pos(u) + 0) % 26 == Pos(u);
    }
  }

  /** Out of the documented range: a negative shift yields the text
      "undefined" for a letter that rotates below A. */
  lemma EncryptNegativeShift()
    ensures Encrypt("A", -1) == "undefined"
  {
    assert "A"[..0] == [];
  }

  // ---------------------------------------------------------------------
  // Round trip
  // ---------------------------------------------------------------------

  lemma UnshiftShift(p: int, shift: nat)
    requires 0 <= p < 26
    ensures ((p + shift) % 26 - shift % 26 + 26) % 26 == p
  {
    var ns := shift % 26;
    ModShift(p, shift);
    if p + ns < 26 {
      assert (p + shift) % 26 == p + ns;
    } else {
      assert (p + shift) % 26 == p + ns - 26;
    }
  }

  lemma UnrotateRotated(c: char, shift: nat)
    ensures Rotated(c, shift) as int < 128 || Rotated(c, shift) == c
    ensures Unrotated(Rotated(c, shift), Js.Rem(shift, 26)) == Js.UpperChar(c)
  {
    var u := Js.UpperChar(c);
    if Js.IsUpperLetter(u) {
      var p := Pos(u);
      var k := (p + shift) % 26;
      PosOfLetter(k);
      UnshiftShift(p, shift);
      assert Rotated(c, shift) == Letter(k);
      assert Js.UpperChar(Letter(k)) == Letter(k);
      assert Unrotated(Letter(k), Js.Rem(shift, 26)) == Letter(p);
    }
  }

  /** Decryption undoes encryption up to upper-casing. */
  lemma RoundTrip(text: string, shift: nat)
    requires Js.IsAscii(text)
    ensures Js.IsAscii(Encrypt(text, shift))
    ensures Decrypt(Encrypt(text, shift), shift) == Js.ToUpper(text)
  {
    EncryptShape(text, shift);
    var e := Encrypt(text, shift);
    forall i | 0 <= i < |e| ensures e[i] as int < 128 {
      UnrotateRotated(text[i], shift);
    }
    DecryptShape(e, shift);
    forall i | 0 <= i < |text|
      ensures Decrypt(e, shift)[i] == Js.ToUpper(text)[i]
    {
      UnrotateRotated(text[i], shift);
    }
  }

  /** Text without lower-case letters comes back exactly. */
  lemma RoundTripExact(text: string, shift: nat)
    requires Js.IsAscii(text)
    requires forall i | 0 <= i < |text| :: !Js.IsLowerLetter(text[i])
    ensures Js.IsAscii(Encrypt(text, shift))
    ensures Decrypt(Encrypt(text, shift), shift) == text
  {
    RoundTrip(text, shift);
  }

  /** The time-based puzzle's plaintext survives every shift. */
  lemma RoundTripPhrase(shift: nat)
    ensures Js.IsAscii(Encrypt("ME GUSTA EL FERNET", shift))
    ensures Decrypt(Encrypt("ME GUSTA EL FERNET", shift), shift) == "ME GUSTA EL FERNET"
  {
    var p := "ME GUSTA EL FERNET";
    assert forall i | 0 <= i < |p| :: p[i] == ' ' || Js.IsUpperLetter(p[i]);
    RoundTripExact(p, shift);
  }
}
