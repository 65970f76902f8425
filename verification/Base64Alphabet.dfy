/**
 * The Base64 alphabet of section 6.8 of RFC 2045, shared by the two codecs,
 * and the regrouping of three bytes as four six-bit values.
 */
module Base64Alphabet {

  import opened Common

  type sextet = v: int | 0 <= v < 64

  const PAD: byte := 61

  /** The character that stands for a six-bit value. */
  function Digit(v: sextet): byte {
    if v < 26 then 65 + v
    else if v < 52 then 97 + (v - 26)
    else if v < 62 then 48 + (v - 52)
    else if v == 62 then 43
    else 47
  }

  /** The six-bit value a character stands for; the pad character has none. */
  function Value(c: byte): Option<sextet> {
    if 65 <= c <= 90 then Some(c - 65)
    else if 97 <= c <= 122 then Some(c - 97 + 26)
    else if 48 <= c <= 57 then Some(c - 48 + 52)
    else if c == 43 then Some(62)
    else if c == 47 then Some(63)
    else None
  }

  lemma DigitValue(v: sextet)
    ensures Value(Digit(v)) == Some(v)
    ensures Digit(v) != PAD && Digit(v) >= 43
  {
  }

  const UPPER: seq<byte> := [
    65, 66, 67, 68, 69, 70, 71, 72, 73, 74, 75, 76, 77,
    78, 79, 80, 81, 82, 83, 84, 85, 86, 87, 88, 89, 90]
  const LOWER: seq<byte> := [
    97, 98, 99, 100, 101, 102, 103, 104, 105, 106, 107, 108, 109,
    110, 111, 112, 113, 114, 115, 116, 117, 118, 119, 120, 121, 122]
  const DIGITS: seq<byte> := [48, 49, 50, 51, 52, 53, 54, 55, 56, 57]

  /** The alphabet in order of the values: A to Z, a to z, 0 to 9, the plus sign and the slash. */
  const ALPHABET: seq<byte> := UPPER + LOWER + DIGITS + [43, 47]

  /** Every value is written by its character of the alphabet, and read from no other. */
  lemma Alphabet(v: sextet, c: byte)
    ensures |ALPHABET| == 64 && Digit(v) == ALPHABET[v]
    ensures Value(c) == Some(v) <==> c == ALPHABET[v]
  {
    assert |UPPER| == |LOWER| == 26 && |DIGITS| == 10;
    if v < 26 {
      assert ALPHABET[v] == UPPER[v] == 65 + v;
    } else if v < 52 {
      assert ALPHABET[v] == LOWER[v - 26] == 97 + (v - 26);
    } else if v < 62 {
      assert ALPHABET[v] == DIGITS[v - 52] == 48 + (v - 52);
    }
    DigitValue(v);
    if Value(c).Some? { assert Digit(Value(c).value) == c; }
  }

  function First(a: byte): sextet { a / 4 }
  function Second(a: byte, b: byte): sextet { a % 4 * 16 + b / 16 }
  function Third(b: byte, c: byte): sextet { b % 16 * 4 + c / 64 }
  function Fourth(c: byte): sextet { c % 64 }

  /** The four characters for three bytes. */
  function Quad(a: byte, b: byte, c: byte): seq<byte> {
    [Digit(First(a)), Digit(Second(a, b)), Digit(Third(b, c)), Digit(Fourth(c))]
  }

  function Byte0(u: sextet, v: sextet): byte { u * 4 + v / 16 }
  function Byte1(v: sextet, w: sextet): byte { v * 16 % 256 + w / 4 }
  function Byte2(w: sextet, x: sextet): byte { w * 64 % 256 + x }

  /**
   * Regrouping three bytes and back is the identity, and the first one or two
   * bytes come back whatever follows them.
   */
  lemma Regrouped(a: byte, b: byte, c: byte)
    ensures Byte0(First(a), Second(a, b)) == a
    ensures Byte1(Second(a, b), Third(b, c)) == b
    ensures Byte2(Third(b, c), Fourth(c)) == c
  {
    Split(a % 4, 16, b / 16);
    Split(b % 16, 4, c / 64);
    var v: int, w: int := Second(a, b), Third(b, c);
    assert v * 16 == a % 4 * 256 + b / 16 * 16;
    Split(a % 4, 256, b / 16 * 16);
    assert w * 64 == b % 16 * 256 + c / 64 * 64;
    Split(b % 16, 256, c / 64 * 64);
  }

  lemma Split(high: nat, unit: nat, low: nat)
    requires unit in {4, 16, 256} && low < unit
    ensures (high * unit + low) / unit == high && (high * unit + low) % unit == low
  {
    if unit == 4 {
    } else if unit == 16 {
    } else {
    }
  }
}
