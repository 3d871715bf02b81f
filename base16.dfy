/**
 * The Base16 transform's per-group conversions: `unpack("H*")`, which writes each
 * byte as two lower-case hex digits, high nibble first, and `pack("H*")`, which
 * reads two characters into one byte (section 8 of RFC 4648, in lower case).
 */
module Base16Codec {
  import opened Bytes

  /** The lower-case hex digit for a nibble. */
  function HexDigit(v: int): (c: Byte)
    requires 0 <= v < 16
    ensures IsHexDigit(c)
  {
    if v < 10 then 48 + v else 87 + v
  }

  /** `0`-`9` and `a`-`f`, the digits `unpack("H*")` writes. */
  predicate IsHexDigit(c: Byte)
  {
    48 <= c <= 57 || 97 <= c <= 102
  }

  /** An ASCII letter, for which `pack("H*")` reads the nibble as a hex letter. */
  predicate IsAlpha(c: Byte)
  {
    65 <= c <= 90 || 97 <= c <= 122
  }

  /** The nibble `pack("H*")` takes from any character: its low four bits, plus nine for a letter. */
  function Nibble(c: Byte): (v: int)
    ensures 0 <= v < 16
    ensures 48 <= c <= 57 ==> v == c - 48
    ensures 97 <= c <= 102 ==> v == c - 87
    ensures 65 <= c <= 70 ==> v == c - 55
  {
    if IsAlpha(c) then (c % 16 + 9) % 16 else c % 16
  }

  /** Digit and nibble are inverse on the lower-case digits. */
  lemma DigitInverse(v: int, c: Byte)
    ensures 0 <= v < 16 ==> Nibble(HexDigit(v)) == v
    ensures IsHexDigit(c) ==> HexDigit(Nibble(c)) == c
  {
  }

  /** `unpack("H*")[0]` */
  function UnpackHex(x: Chunk): (r: Chunk)
    ensures |r| == 2 * |x|
    ensures forall i :: 0 <= i < |r| ==> IsHexDigit(r[i])
  {
    if x == [] then [] else [HexDigit(x[0] / 16), HexDigit(x[0] % 16)] + UnpackHex(x[1..])
  }

  /** `[t].pack("H*")`: two characters to a byte; an odd last character is the high nibble of a last byte. */
  function PackHex(t: Chunk): (r: Chunk)
    ensures |r| == (|t| + 1) / 2
  {
    if t == [] then []
    else if |t| == 1 then [Nibble(t[0]) * 16]
    else [Nibble(t[0]) * 16 + Nibble(t[1])] + PackHex(t[2..])
  }

  /** Byte `i` of `pack("H*")` is made of characters `2i` and `2i + 1`; an odd last character fills the high nibble. */
  lemma {:induction false} PackHexBytes(t: Chunk)
    ensures forall i :: 0 <= i < |t| / 2 ==> PackHex(t)[i] == Nibble(t[2 * i]) * 16 + Nibble(t[2 * i + 1])
    ensures |t| % 2 == 1 ==> PackHex(t)[|t| / 2] == Nibble(t[|t| - 1]) * 16
    decreases |t|
  {
    if |t| >= 2 {
      var u := t[2..];
      PackHexBytes(u);
      assert PackHex(t) == [Nibble(t[0]) * 16 + Nibble(t[1])] + PackHex(u);
      forall i | 1 <= i < |t| / 2
        ensures PackHex(t)[i] == Nibble(t[2 * i]) * 16 + Nibble(t[2 * i + 1])
      {
        assert PackHex(t)[i] == PackHex(u)[i - 1];
        assert u[2 * (i - 1)] == t[2 * i] && u[2 * (i - 1) + 1] == t[2 * i + 1];
      }
      if |t| % 2 == 1 {
        assert PackHex(t)[|t| / 2] == PackHex(u)[|u| / 2];
        assert u[|u| - 1] == t[|t| - 1];
      }
    }
  }

  /** Encoding one byte gives two digits, high nibble first. */
  lemma UnpackByte(b: Byte)
    ensures UnpackHex([b]) == [HexDigit(b / 16), HexDigit(b % 16)]
    ensures Nibble(UnpackHex([b])[0]) == b / 16 && Nibble(UnpackHex([b])[1]) == b % 16
  {
    assert [b][1..] == [];
    DigitInverse(b / 16, 0);
    DigitInverse(b % 16, 0);
  }

  /** `pack("H*")` inverts `unpack("H*")` on every byte string. */
  lemma {:induction false} PackUnpack(x: Chunk)
    ensures PackHex(UnpackHex(x)) == x
    decreases |x|
  {
    if x != [] {
      var t := UnpackHex(x);
      DigitInverse(x[0] / 16, 0);
      DigitInverse(x[0] % 16, 0);
      assert t[2..] == UnpackHex(x[1..]);
      PackUnpack(x[1..]);
    }
  }

  /** And `unpack("H*")` inverts `pack("H*")` on an even number of lower-case digits. */
  lemma {:induction false} UnpackPack(t: Chunk)
    requires |t| % 2 == 0
    requires forall i :: 0 <= i < |t| ==> IsHexDigit(t[i])
    ensures UnpackHex(PackHex(t)) == t
    decreases |t|
  {
    if t != [] {
      var p := PackHex(t);
      var b := Nibble(t[0]) * 16 + Nibble(t[1]);
      assert p == [b] + PackHex(t[2..]);
      assert p[1..] == PackHex(t[2..]);
      DigitInverse(0, t[0]);
      DigitInverse(0, t[1]);
      assert b / 16 == Nibble(t[0]) && b % 16 == Nibble(t[1]);
      UnpackPack(t[2..]);
      assert t == [t[0], t[1]] + t[2..];
    }
  }
}
