/** Bytes, lines and the C-locale character classes the editor relies on. */
module Bytes {

  type byte = b: int | 0 <= b < 256

  /** A line of the buffer: the bytes before the terminating NUL. */
  type Line = seq<byte>

  const NUL: byte := 0
  const TAB: byte := 9
  const NL: byte := 10
  const CR: byte := 13
  const ESC: byte := 27
  const SPACE: byte := 32
  const BACKSPACE: byte := 127

  datatype Option<+T> = None | Some(value: T)

  /** A continuation byte of UTF-8: the two top bits are 10. */
  predicate IsCont(b: byte) {
    0x80 <= b < 0xC0
  }

  predicate IsWordChar(b: byte) {
    || b >= 128
    || 97 <= b <= 122
    || 65 <= b <= 90
    || 48 <= b <= 57
    || b == 95
  }

  predicate IsNotWordChar(b: byte) {
    !IsWordChar(b)
  }

  /** `ch < 128 && isspace(ch)`. */
  predicate IsSpace(b: byte) {
    9 <= b <= 13 || b == 32
  }

  /** `tolower` in the C locale. */
  function Fold(b: byte): (f: byte)
    ensures IsCont(f) <==> IsCont(b)
    ensures !(65 <= f <= 90)
  {
    if 65 <= b <= 90 then b + 32 else b
  }

  /** The same byte, or the two cases of one ASCII letter. */
  predicate SameLetter(a: byte, b: byte) {
    a == b || ('A' as int <= a <= 'Z' as int && b == a + 32) || ('A' as int <= b <= 'Z' as int && a == b + 32)
  }

  /** Folding tells exactly the bytes apart that are not two cases of one letter. */
  lemma FoldIff(a: byte, b: byte)
    ensures Fold(a) == Fold(b) <==> SameLetter(a, b)
  {
  }

  const LOWER := "abcdefghijklmnopqrstuvwxyz"
  const UPPER := "ABCDEFGHIJKLMNOPQRSTUVWXYZ"
  const DIGITS := "0123456789"

  lemma Letters(b: byte)
    ensures b as char in LOWER <==> 97 <= b <= 122
    ensures b as char in UPPER <==> 65 <= b <= 90
  {
    assert forall k :: 0 <= k < 26 ==> LOWER[k] as int == 97 + k && UPPER[k] as int == 65 + k;
    if 97 <= b <= 122 {
      assert LOWER[b - 97] as int == b;
    } else if 65 <= b <= 90 {
      assert UPPER[b - 65] as int == b;
    }
  }

  lemma Numerals(b: byte)
    ensures b as char in DIGITS <==> 48 <= b <= 57
  {
    assert forall k :: 0 <= k < 10 ==> DIGITS[k] as int == 48 + k;
    if 48 <= b <= 57 {
      assert DIGITS[b - 48] as int == b;
    }
  }

  /** The classes by the characters they hold. */
  lemma CharacterClasses(b: byte)
    ensures IsWordChar(b) <==>
              b >= 128 || b as char in LOWER || b as char in UPPER || b as char in DIGITS || b as char == '_'
    ensures IsSpace(b) <==> b as char in " \t\n\r" || b == 11 || b == 12
    ensures IsCont(b) <==> b / 64 == 2
  {
    Letters(b);
    Numerals(b);
  }

  function Max(a: nat, b: nat): nat {
    if a < b then b else a
  }

  function Min(a: nat, b: nat): nat {
    if a < b then a else b
  }

  lemma CatAssoc<T>(a: seq<T>, b: seq<T>, c: seq<T>)
    ensures a + (b + c) == (a + b) + c
  {
  }
}
