/**
 * Puzzle 9 (components/challenges/Challenge9.tsx): `encryptText`, a
 * substitution cipher that replaces each character by its entry in a
 * map from characters to strings. A character without an entry, or
 * whose entry is the empty string, stands for itself (`cipher.get(char)
 * || char`). The map itself comes from a server route that is not part
 * of this model.
 */
module Challenge9 {

  /** What one character becomes. */
  function Substitute(cipher: map<char, string>, c: char): (r: string)
    ensures c in cipher && cipher[c] != "" ==> r == cipher[c]
    ensures !(c in cipher && cipher[c] != "") ==> r == [c]
    ensures r != []
  {
    if c in cipher && cipher[c] != "" then cipher[c] else [c]
  }

  /** `text.split('').map(...).join('')` */
  function EncryptText(text: string, cipher: map<char, string>): (r: string)
    ensures |r| >= |text|
  {
    if text == [] then [] else Substitute(cipher, text[0]) + EncryptText(text[1..], cipher)
  }

  /** Encryption works character by character: it distributes over
      concatenation. */
  lemma {:induction false} EncryptConcat(a: string, b: string, cipher: map<char, string>)
    ensures EncryptText(a + b, cipher) == EncryptText(a, cipher) + EncryptText(b, cipher)
    decreases |a|
  {
    if a != [] {
      assert (a + b)[1..] == a[1..] + b;
      EncryptConcat(a[1..], b, cipher);
    } else {
      assert a + b == b;
    }
  }

  /** Characters that the map does not change pass through; in particular
      the empty map is the identity. */
  lemma {:induction false} EncryptUnmapped(text: string, cipher: map<char, string>)
    requires forall i | 0 <= i < |text| :: text[i] !in cipher || cipher[text[i]] == ""
    ensures EncryptText(text, cipher) == text
    decreases |text|
  {
    if text != [] {
      EncryptUnmapped(text[1..], cipher);
    }
  }

  lemma EncryptEmptyMap(text: string)
    ensures EncryptText(text, map[]) == text
  {
    EncryptUnmapped(text, map[]);
  }

  /** When every entry is a single character, the length is kept, and
      each position is substituted independently. */
  lemma {:induction false} EncryptPointwise(text: string, cipher: map<char, string>)
    requires forall c | c in cipher :: |cipher[c]| <= 1
    ensures |EncryptText(text, cipher)| == |text|
    ensures forall i | 0 <= i < |text| :: [EncryptText(text, cipher)[i]] == Substitute(cipher, text[i])
    decreases |text|
  {
    if text != [] {
      EncryptPointwise(text[1..], cipher);
      var e := EncryptText(text, cipher);
      forall i | 0 <= i < |text| ensures [e[i]] == Substitute(cipher, text[i]) {
        if i > 0 {
          assert text[1..][i - 1] == text[i];
        }
      }
    }
  }

  /** A map `inverse` that sends each substituted character back undoes
      the encryption. */
  lemma {:induction false} DecryptWithInverse(text: string, cipher: map<char, string>, inverse: map<char, string>)
    requires forall i | 0 <= i < |text| ::
      |Substitute(cipher, text[i])| == 1 && Substitute(inverse, Substitute(cipher, text[i])[0]) == [text[i]]
    ensures EncryptText(EncryptText(text, cipher), inverse) == text
    decreases |text|
  {
    if text != [] {
      var head := Substitute(cipher, text[0]);
      DecryptWithInverse(text[1..], cipher, inverse);
      EncryptConcat(head, EncryptText(text[1..], cipher), inverse);
      assert head == [head[0]];
      assert [head[0]][1..] == [];
      assert EncryptText(head, inverse) == [text[0]];
      assert text == [text[0]] + text[1..];
    }
  }
}
