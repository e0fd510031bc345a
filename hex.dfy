/**
 * Lowercase hexadecimal rendering of digests, as `encoding/hex` does it: two
 * characters per byte, high nibble first, digits "0123456789abcdef".
 */
module Hex {
  import opened Bytes

  /** The character for a nibble value. */
  function Digit(n: int): (r: Byte)
    requires 0 <= n < 16
  {
    if n < 10 then '0' as int + n else 'a' as int + (n - 10)
  }

  predicate IsHexDigit(b: Byte) {
    ('0' as int <= b <= '9' as int) || ('a' as int <= b <= 'f' as int)
  }

  /** The nibble value of a hex character: the inverse of `Digit`. */
  function DigitValue(b: Byte): (n: int)
    requires IsHexDigit(b)
    ensures 0 <= n < 16 && Digit(n) == b
  {
    if b <= '9' as int then b - '0' as int else b - 'a' as int + 10
  }

  /** The hex rendering of a byte string. */
  function HexOf(s: seq<Byte>): (r: seq<Byte>)
    ensures |r| == 2 * |s|
    ensures forall i | 0 <= i < |r| :: IsHexDigit(r[i])
  {
    if s == [] then [] else [Digit(s[0] / 16), Digit(s[0] % 16)] + HexOf(s[1..])
  }

  /** Decoding a well-formed hex string back into bytes. */
  function Unhex(h: seq<Byte>): seq<Byte>
    requires |h| % 2 == 0
    requires forall i | 0 <= i < |h| :: IsHexDigit(h[i])
  {
    if h == [] then [] else [16 * DigitValue(h[0]) + DigitValue(h[1])] + Unhex(h[2..])
  }

  /** Rendering distributes over concatenation. */
  lemma {:induction false} HexConcat(a: seq<Byte>, b: seq<Byte>)
    ensures HexOf(a + b) == HexOf(a) + HexOf(b)
    decreases |a|
  {
    if a != [] {
      assert (a + b)[1..] == a[1..] + b;
      HexConcat(a[1..], b);
    } else {
      assert a + b == b;
    }
  }

  /** Decoding undoes the rendering. */
  lemma {:induction false} UnhexHex(s: seq<Byte>)
    ensures Unhex(HexOf(s)) == s
    decreases |s|
  {
    if s != [] {
      var h := HexOf(s);
      assert h[2..] == HexOf(s[1..]);
      assert DigitValue(h[0]) == s[0] / 16 && DigitValue(h[1]) == s[0] % 16;
      UnhexHex(s[1..]);
    }
  }

  /** A byte splits back into the two nibbles it was built from. */
  lemma Nibbles(hi: int, lo: int)
    requires 0 <= hi < 16 && 0 <= lo < 16
    ensures (16 * hi + lo) / 16 == hi && (16 * hi + lo) % 16 == lo
  {
  }

  /** A string of hex digits is rendered by its decoding: rendering is
      injective and its image is exactly the even-length hex strings. */
  lemma {:induction false} HexUnhex(h: seq<Byte>)
    requires |h| % 2 == 0
    requires forall i | 0 <= i < |h| :: IsHexDigit(h[i])
    ensures HexOf(Unhex(h)) == h
    decreases |h|
  {
    if h != [] {
      Nibbles(DigitValue(h[0]), DigitValue(h[1]));
      HexUnhex(h[2..]);
      assert Unhex(h)[1..] == Unhex(h[2..]);
      assert h == [h[0], h[1]] + h[2..];
    }
  }

  /** `hex.Encode(dst, src)`: writes the rendering of `src` into the first
      `2 * |src|` bytes of `dst` and leaves the rest alone. */
  method Encode(dst: array<Byte>, src: seq<Byte>)
    requires 2 * |src| <= dst.Length
    modifies dst
    ensures dst[..2 * |src|] == HexOf(src)
    ensures dst[2 * |src|..] == old(dst[2 * |src|..])
  {
    var j := 0;
    for i := 0 to |src|
      invariant j == 2 * i
      invariant dst[..j] == HexOf(src[..i])
      invariant dst[2 * |src|..] == old(dst[2 * |src|..])
    {
      dst[j] := Digit(src[i] / 16);
      dst[j + 1] := Digit(src[i] % 16);
      HexConcat(src[..i], [src[i]]);
      assert src[..i + 1] == src[..i] + [src[i]];
      j := j + 2;
    }
    assert src[..|src|] == src;
  }
}
