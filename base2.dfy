/**
 * The Base2 transform's per-group conversions: `unpack("B*")`, which writes each
 * byte as eight `0`/`1` characters, most significant bit first, and `pack("B*")`,
 * which reads eight characters into one byte.
 */
module Base2Codec {
  import opened Bytes
  import opened Arith

  /** `0` or `1` */
  predicate IsBit(c: Byte)
  {
    c == 48 || c == 49
  }

  /** The low `k` bits of `v` as characters, most significant first. */
  function BitString(v: nat, k: nat): (r: Chunk)
    ensures |r| == k
    ensures forall i :: 0 <= i < k ==> IsBit(r[i])
  {
    if k == 0 then [] else BitString(v / 2, k - 1) + [48 + v % 2]
  }

  /** The number `pack("B*")` accumulates: the low bit of each character, the first one most significant. */
  function BitsValue(t: Chunk): (v: nat)
    ensures v < Pow2(|t|)
  {
    if t == [] then 0 else 2 * BitsValue(t[..|t| - 1]) + t[|t| - 1] % 2
  }

  /** `unpack("B*")[0]` */
  function UnpackBits(x: Chunk): (r: Chunk)
    ensures |r| == 8 * |x|
    ensures forall i :: 0 <= i < |r| ==> IsBit(r[i])
  {
    if x == [] then [] else BitString(x[0], 8) + UnpackBits(x[1..])
  }

  /** `[t].pack("B*")`: eight characters to a byte; a short last group is left-aligned in a last byte. */
  function PackBits(t: Chunk): (r: Chunk)
    ensures |r| == (|t| + 7) / 8
    decreases |t|
  {
    if t == [] then []
    else if |t| < 8 then [PackOctet(t + seq(8 - |t|, _ => 48))]
    else [PackOctet(t[..8])] + PackBits(t[8..])
  }

  function PackOctet(t: Chunk): Byte
    requires |t| == 8
  {
    assert Pow2(8) == 256;
    BitsValue(t)
  }

  lemma DivTwice(v: nat, m: nat)
    requires m > 0
    ensures (v / 2) / m == v / (2 * m)
  {
    var a, b := (v / 2) / m, (v / 2) % m;
    assert v / 2 == m * a + b;
    assert v == (2 * m) * a + (2 * b + v % 2);
    DivUnique(v, 2 * m, a, 2 * b + v % 2);
  }

  /** Character `i` of `BitString(v, k)` is bit `k - 1 - i` of `v`: most significant first. */
  lemma {:induction false} BitAt(v: nat, k: nat, i: nat)
    requires i < k
    ensures BitString(v, k)[i] == 48 + (v / Pow2(k - 1 - i)) % 2
    decreases k
  {
    if i < k - 1 {
      BitAt(v / 2, k - 1, i);
      DivTwice(v, Pow2(k - 2 - i));
    }
  }

  /** The characters of a number shorter than `k` bits are read back as that number. */
  lemma {:induction false} ValueOfBitString(v: nat, k: nat)
    requires v < Pow2(k)
    ensures BitsValue(BitString(v, k)) == v
    decreases k
  {
    if k > 0 {
      var t := BitString(v, k);
      assert t[..k - 1] == BitString(v / 2, k - 1);
      ValueOfBitString(v / 2, k - 1);
    }
  }

  /** The characters of a `0`/`1` string are written back from their value. */
  lemma {:induction false} BitStringOfValue(t: Chunk)
    requires forall i :: 0 <= i < |t| ==> IsBit(t[i])
    ensures BitString(BitsValue(t), |t|) == t
    decreases |t|
  {
    if t != [] {
      var front := t[..|t| - 1];
      BitStringOfValue(front);
      var v := BitsValue(t);
      assert v / 2 == BitsValue(front) && v % 2 == t[|t| - 1] % 2;
      assert t == front + [t[|t| - 1]];
    }
  }

  /** Encoding one byte gives eight `0`/`1` characters, most significant bit first. */
  lemma UnpackByte(b: Byte)
    ensures |UnpackBits([b])| == 8
    ensures forall i :: 0 <= i < 8 ==> UnpackBits([b])[i] == 48 + (b / Pow2(7 - i)) % 2
  {
    assert [b][1..] == [];
    assert UnpackBits([b]) == BitString(b, 8);
    forall i | 0 <= i < 8
      ensures UnpackBits([b])[i] == 48 + (b / Pow2(7 - i)) % 2
    {
      BitAt(b, 8, i);
    }
  }

  /** `pack("B*")` inverts `unpack("B*")` on every byte string. */
  lemma {:induction false} PackUnpack(x: Chunk)
    ensures PackBits(UnpackBits(x)) == x
    decreases |x|
  {
    if x != [] {
      var t := UnpackBits(x);
      assert t[..8] == BitString(x[0], 8);
      assert t[8..] == UnpackBits(x[1..]);
      assert Pow2(8) == 256;
      ValueOfBitString(x[0], 8);
      PackUnpack(x[1..]);
    }
  }

  /** And `unpack("B*")` inverts `pack("B*")` on whole octets of `0`/`1` characters. */
  lemma {:induction false} UnpackPack(t: Chunk)
    requires |t| % 8 == 0
    requires forall i :: 0 <= i < |t| ==> IsBit(t[i])
    ensures UnpackBits(PackBits(t)) == t
    decreases |t|
  {
    if t != [] {
      assert |t| >= 8 && |t[8..]| % 8 == 0;
      var p := PackBits(t);
      assert p == [PackOctet(t[..8])] + PackBits(t[8..]);
      assert p[1..] == PackBits(t[8..]);
      BitStringOfValue(t[..8]);
      UnpackPack(t[8..]);
      assert t == t[..8] + t[8..];
    }
  }
}
