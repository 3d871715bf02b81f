/**
 * The Base8 transform's decode conversion as written: a group of at most three
 * characters is read as an octal number (`to_i(8)`), written in hex (`to_s(16)`)
 * and packed with `pack("H*")`. Beside it, the conversion pair the transform
 * evidently intends: three zero-padded octal digits per byte, and back.
 */
module Base8Codec {
  import opened Bytes
  import opened Base16Codec
  import opened Arith

  /** `0`-`7` */
  predicate IsOctDigit(c: Byte)
  {
    48 <= c <= 55
  }

  function Pow8(k: nat): (p: nat)
    ensures p > 0
  {
    if k == 0 then 1 else 8 * Pow8(k - 1)
  }

  /** The longest prefix of `t` made of octal digits: what `to_i(8)` reads. */
  function OctalPrefix(t: Chunk): (p: Chunk)
    ensures p <= t
    ensures forall i :: 0 <= i < |p| ==> IsOctDigit(p[i])
    ensures |p| < |t| ==> !IsOctDigit(t[|p|])
  {
    if t == [] || !IsOctDigit(t[0]) then [] else [t[0]] + OctalPrefix(t[1..])
  }

  /** The number written by octal digits, most significant first. */
  function OctValue(d: Chunk): (v: nat)
    requires forall i :: 0 <= i < |d| ==> IsOctDigit(d[i])
    ensures v < Pow8(|d|)
  {
    if d == [] then 0
    else
      assert IsOctDigit(d[|d| - 1]);
      var front := OctValue(d[..|d| - 1]);
      assert 8 * front <= 8 * (Pow8(|d| - 1) - 1);
      8 * front + (d[|d| - 1] as int - 48)
  }

  /** `t.to_i(8)` */
  function ToI8(t: Chunk): nat
  {
    OctValue(OctalPrefix(t))
  }

  /** `v.to_s(16)`: lower-case hex digits, no leading zero. */
  function ToHex(v: nat): (r: Chunk)
    ensures |r| >= 1
    ensures forall i :: 0 <= i < |r| ==> IsHexDigit(r[i])
    ensures |r| > 1 ==> r[0] != 48
    decreases v
  {
    if v < 16 then [HexDigit(v)] else ToHex(v / 16) + [HexDigit(v % 16)]
  }

  /** The value the decode proc returns for the group of at most three characters it read. */
  function DecodeStep(t: Chunk): Chunk
  {
    PackHex(ToHex(ToI8(t)))
  }

  /** At most three characters read at most 511. */
  lemma ToI8Bound(t: Chunk)
    requires |t| <= 3
    ensures ToI8(t) < 512
  {
    assert Pow8(|OctalPrefix(t)|) <= Pow8(3);
  }

  /**
   * A decode step yields the byte the digits denote only from 16 to 255: a smaller
   * value is one hex digit, which `pack("H*")` puts in the high nibble, and a larger
   * one is three hex digits, which pack into two bytes.
   */
  lemma DecodeStepValue(t: Chunk)
    requires |t| <= 3
    ensures ToI8(t) < 512
    ensures var v := ToI8(t);
      DecodeStep(t) == if v < 16 then [v * 16] else if v < 256 then [v] else [v / 16, (v % 16) * 16]
  {
    ToI8Bound(t);
    var v := ToI8(t);
    DigitInverse(v % 16, 0);
    DigitInverse((v / 16) % 16, 0);
    if v < 16 {
      assert ToHex(v) == [HexDigit(v)];
    } else if v < 256 {
      assert ToHex(v) == [HexDigit(v / 16), HexDigit(v % 16)];
      assert PackHex(ToHex(v)) == [Nibble(HexDigit(v / 16)) * 16 + Nibble(HexDigit(v % 16))] + PackHex([]);
    } else {
      DigitInverse(1, 0);
      assert v / 16 / 16 == 1;
      assert ToHex(v / 16) == [HexDigit(1), HexDigit((v / 16) % 16)];
      var h := ToHex(v);
      assert h == [HexDigit(1), HexDigit((v / 16) % 16), HexDigit(v % 16)];
      assert h[2..] == [HexDigit(v % 16)];
      assert PackHex(h) == [Nibble(h[0]) * 16 + Nibble(h[1])] + PackHex(h[2..]);
    }
  }

  // ---------------------------------------------------------------------------
  // The evidently intended conversion pair.

  /** One byte as three octal digits, zero-padded. */
  function OctalDigits(b: Byte): (r: Chunk)
    ensures |r| == 3
    ensures forall i :: 0 <= i < 3 ==> IsOctDigit(r[i])
  {
    [48 + b / 64, 48 + (b / 8) % 8, 48 + b % 8]
  }

  /** Three octal digits read as a byte, wrapping as `pack("C")` does. */
  function OctalByte(t: Chunk): Chunk
  {
    [ToI8(t) % 256]
  }

  lemma OctalPrefixOfDigits(t: Chunk)
    requires forall i :: 0 <= i < |t| ==> IsOctDigit(t[i])
    ensures OctalPrefix(t) == t
  {
  }

  /** Three octal digits read as `64 * d0 + 8 * d1 + d2`. */
  lemma ThreeDigits(t: Chunk)
    requires |t| == 3 && forall i :: 0 <= i < 3 ==> IsOctDigit(t[i])
    ensures ToI8(t) == 64 * (t[0] as int - 48) + 8 * (t[1] as int - 48) + (t[2] as int - 48)
  {
    OctalPrefixOfDigits(t);
    var one, two := t[..1], t[..2];
    assert two[..1] == one && one[..0] == [];
    assert OctValue(one) == t[0] as int - 48;
    assert OctValue(two) == 8 * (t[0] as int - 48) + (t[1] as int - 48);
    assert t[..2] == two;
  }

  /** Reading the three digits of a byte gives back the byte. */
  lemma OctalRoundTrip(b: Byte)
    ensures ToI8(OctalDigits(b)) == b
    ensures OctalByte(OctalDigits(b)) == [b]
  {
    ThreeDigits(OctalDigits(b));
    var q := b / 8;
    DivUnique(b, 64, q / 8, 8 * (q % 8) + b % 8);
  }

  /** And writing the byte that three octal digits up to `377` read gives back the digits. */
  lemma DigitsRoundTrip(t: Chunk)
    requires |t| == 3 && forall i :: 0 <= i < 3 ==> IsOctDigit(t[i])
    requires ToI8(t) < 256
    ensures OctalDigits(ToI8(t) as Byte) == t
  {
    ThreeDigits(t);
    var v := ToI8(t);
    var d0, d1, d2 := t[0] as int - 48, t[1] as int - 48, t[2] as int - 48;
    DivUnique(v, 64, d0, 8 * d1 + d2);
    DivUnique(v, 8, 8 * d0 + d1, d2);
    DivUnique(8 * d0 + d1, 8, d0, d1);
  }

  /** The decode step as written gets back the bytes from 16 to 255 from their three digits... */
  lemma DecodeDigitsFromSixteen(b: Byte)
    requires b >= 16
    ensures DecodeStep(OctalDigits(b)) == [b]
  {
    OctalRoundTrip(b);
    DecodeStepValue(OctalDigits(b));
  }

  /** ...but moves a byte below 16 into the high nibble: the digits `017` of 15 decode to `0xf0`. */
  lemma DecodeDigitsBelowSixteen(b: Byte)
    requires b < 16
    ensures DecodeStep(OctalDigits(b)) == [b * 16]
  {
    OctalRoundTrip(b);
    DecodeStepValue(OctalDigits(b));
  }
}
