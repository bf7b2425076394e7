/**
 * The name normalisation applied on load (`str.translate` with `_dia_trans`):
 * the cedilla letters Ş ş Ţ ţ become the comma-below letters Ș ș Ț ț and every
 * other character is kept.
 */
module Diacritics {

  /** Ş, ş, Ţ, ţ (U+015E, U+015F, U+0162, U+0163). */
  predicate IsCedilla(c: char) {
    c == '\U{015E}' || c == '\U{015F}' || c == '\U{0162}' || c == '\U{0163}'
  }

  /** Ș, ș, Ț, ț (U+0218, U+0219, U+021A, U+021B). */
  predicate IsCommaBelow(c: char) {
    c == '\U{0218}' || c == '\U{0219}' || c == '\U{021A}' || c == '\U{021B}'
  }

  /** The translation table applied to one character. */
  function Translate(c: char): (t: char)
    ensures IsCedilla(c) ==> IsCommaBelow(t)
    ensures !IsCedilla(c) ==> t == c
  {
    if c == '\U{015E}' then '\U{0218}'
    else if c == '\U{015F}' then '\U{0219}'
    else if c == '\U{0162}' then '\U{021A}'
    else if c == '\U{0163}' then '\U{021B}'
    else c
  }

  /** `name.translate(_dia_trans)`: the table applied character by character. */
  function Normalize(s: string): (r: string)
    ensures |r| == |s|
    ensures forall i :: 0 <= i < |s| ==> r[i] == Translate(s[i])
  {
    if s == [] then [] else [Translate(s[0])] + Normalize(s[1..])
  }

  predicate HasCedilla(s: string) {
    exists i :: 0 <= i < |s| && IsCedilla(s[i])
  }

  /** The table moves exactly the four cedilla letters, each to its comma-below form. */
  lemma TranslateMovesOnlyCedillas(c: char)
    ensures Translate(c) != c <==> IsCedilla(c)
    ensures IsCedilla(c) ==> IsCommaBelow(Translate(c))
    ensures !IsCedilla(Translate(c))
  {
  }

  /** A normalised name holds no cedilla letter. */
  lemma NormalizeRemovesCedillas(s: string)
    ensures !HasCedilla(Normalize(s))
  {
    var r := Normalize(s);
    forall i | 0 <= i < |r|
      ensures !IsCedilla(r[i])
    {
      TranslateMovesOnlyCedillas(s[i]);
    }
  }

  /** Characters other than the cedilla letters pass through unchanged. */
  lemma NormalizeKeepsOtherCharacters(s: string, i: nat)
    requires i < |s| && !IsCedilla(s[i])
    ensures Normalize(s)[i] == s[i]
  {
    TranslateMovesOnlyCedillas(s[i]);
  }

  /** A name without cedilla letters is already normal. */
  lemma NormalizeFixesCedillaFree(s: string)
    requires !HasCedilla(s)
    ensures Normalize(s) == s
  {
    var r := Normalize(s);
    forall i | 0 <= i < |s|
      ensures r[i] == s[i]
    {
      TranslateMovesOnlyCedillas(s[i]);
    }
  }

  /** Normalising twice is normalising once. */
  lemma NormalizeIdempotent(s: string)
    ensures Normalize(Normalize(s)) == Normalize(s)
  {
    NormalizeRemovesCedillas(s);
    NormalizeFixesCedillaFree(Normalize(s));
  }
}
