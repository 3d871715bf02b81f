/**
 * The procs of `Cat` and of the four codecs in either direction: each call reads
 * the next group of a fixed size from the input and returns its conversion, or
 * `nil` once the input is exhausted (`chunk && convert(chunk)`).
 */
module Pulls {
  import opened Wrappers
  import opened Bytes
  import opened Streams
  import Base64Codec
  import Base16Codec
  import Base8Codec
  import Base2Codec

  /**
   * What a proc does with each group. `B8Encode` is the Base8 forward proc as written;
   * `OctalEncode` and `OctalDecode` are the Base8 pair it evidently intends.
   */
  datatype Conversion =
    | CatPass
    | B64Encode | B64Decode
    | B16Encode | B16Decode
    | B8Encode | B8Decode
    | B2Encode | B2Decode
    | OctalEncode | OctalDecode

  /** The size of the `read` each call makes. */
  function GroupSize(c: Conversion): (n: nat)
    ensures n > 0
  {
    match c
    case CatPass => 256
    case B64Encode => 3
    case B64Decode => 4
    case B16Encode => 1
    case B16Decode => 2
    case B8Encode => 1
    case B8Decode => 3
    case B2Encode => 1
    case B2Decode => 8
    case OctalEncode => 1
    case OctalDecode => 3
  }

  /** The value a call returns for the group it read. */
  function Convert(c: Conversion, g: Chunk): Chunk
    requires 0 < |g| <= GroupSize(c)
  {
    match c
    case CatPass => g
    case B64Encode => Base64Codec.EncodeStep(g)
    case B64Decode => Base64Codec.DecodeStep(g)
    case B16Encode => Base16Codec.UnpackHex(g)
    case B16Decode => Base16Codec.PackHex(g)
    case B8Encode => g
    case B8Decode => Base8Codec.DecodeStep(g)
    case B2Encode => Base2Codec.UnpackBits(g)
    case B2Decode => Base2Codec.PackBits(g)
    case OctalEncode => Base8Codec.OctalDigits(g[0])
    case OctalDecode => Base8Codec.OctalByte(g)
  }

  /** What one call returns while `x` is still to be read: `nil` exactly when nothing is left. */
  function Pull(c: Conversion, x: Chunk): (r: Option<Chunk>)
    ensures r.None? <==> x == []
  {
    match Head(x, GroupSize(c))
    case None => None
    case Some(g) => Some(Convert(c, g))
  }

  /** Everything the proc returns, joined, until its first `nil`. */
  function Output(c: Conversion, x: Chunk): Chunk
    decreases |x|
  {
    if x == [] then [] else Pull(c, x).value + Output(c, Rest(x, GroupSize(c)))
  }

  /** The conversion of the first group, followed by the output of the rest. */
  lemma OutputCons(c: Conversion, x: Chunk)
    requires x != []
    ensures Output(c, x) == Convert(c, Head(x, GroupSize(c)).value) + Output(c, Rest(x, GroupSize(c)))
  {
  }

  /** The joined output so far, followed by what is still to come after one more call. */
  lemma OutputStep(c: Conversion, x: Chunk, out: Chunk, before: Chunk)
    requires out + Output(c, before) == Output(c, x)
    ensures before == [] ==> out == Output(c, x)
    ensures before != [] ==> (out + Pull(c, before).value) + Output(c, Rest(before, GroupSize(c))) == Output(c, x)
  {
    if before == [] {
      assert out + [] == out;
    }
  }

  /** `proc { chunk = input.read(n); chunk && convert(chunk) }` */
  class ChunkProc {
    const conversion: Conversion
    const input: Readable

    constructor (c: Conversion, inp: Readable)
      ensures conversion == c && input == inp
    {
      conversion := c;
      input := inp;
    }

    method Call() returns (r: Option<Chunk>)
      modifies input
      ensures r == Pull(conversion, old(input.data))
      ensures input.data == Rest(old(input.data), GroupSize(conversion))
    {
      var chunk := input.Read(GroupSize(conversion));
      match chunk {
        case None => r := None;
        case Some(g) => r := Some(Convert(conversion, g));
      }
    }
  }

  /** Calls a proc over the bytes `x` until it returns `nil`, joining what it returned. */
  method Drain(c: Conversion, x: Chunk) returns (out: Chunk)
    ensures out == Output(c, x)
  {
    var input := new Readable(x);
    var proc := new ChunkProc(c, input);
    out := [];
    while true
      invariant proc.input == input && proc.conversion == c
      invariant out + Output(c, input.data) == Output(c, x)
      decreases |input.data|
    {
      ghost var before := input.data;
      var r := proc.Call();
      OutputStep(c, x, out, before);
      if r.None? {
        break;
      }
      out := out + r.value;
    }
  }

  // ---------------------------------------------------------------------------
  // Whole streams.

  /** Cat returns its input unchanged, 256 bytes at a time. */
  lemma {:induction false} CatIdentity(x: Chunk)
    ensures Output(CatPass, x) == x
    decreases |x|
  {
    if x != [] {
      OutputCons(CatPass, x);
      CatIdentity(Rest(x, 256));
    }
  }

  /** The Base8 forward proc as written returns its input unchanged, a byte at a time. */
  lemma {:induction false} Base8ForwardIdentity(x: Chunk)
    ensures Output(B8Encode, x) == x
    decreases |x|
  {
    if x != [] {
      OutputCons(B8Encode, x);
      Base8ForwardIdentity(Rest(x, 1));
    }
  }

  /**
   * A conversion `d` undoes a conversion `e` on whole streams when every group of `e`
   * becomes exactly one group of `d` that `d` converts back.
   */
  lemma {:induction false} RoundTrip(e: Conversion, d: Conversion, x: Chunk)
    requires forall g :: 0 < |g| <= GroupSize(e) ==> |Convert(e, g)| == GroupSize(d)
    requires forall g :: 0 < |g| <= GroupSize(e) && |Convert(e, g)| == GroupSize(d) ==> Convert(d, Convert(e, g)) == g
    ensures Output(d, Output(e, x)) == x
    decreases |x|
  {
    if x != [] {
      var g := Head(x, GroupSize(e)).value;
      var rest := Rest(x, GroupSize(e));
      var y, z := Convert(e, g), Output(e, rest);
      OutputCons(e, x);
      HeadOfConcat(y, z);
      OutputCons(d, y + z);
      RoundTrip(e, d, rest);
    }
  }

  /** Base64 decoding undoes Base64 encoding. */
  lemma Base64RoundTrip(x: Chunk)
    ensures Output(B64Decode, Output(B64Encode, x)) == x
  {
    forall g | 0 < |g| <= 3
      ensures |Convert(B64Encode, g)| == 4 && Convert(B64Decode, Convert(B64Encode, g)) == g
    {
      Base64Codec.StepRoundTrip(g);
    }
    RoundTrip(B64Encode, B64Decode, x);
  }

  /** Base64 encoding writes four characters for every three bytes, or fewer at the end. */
  lemma {:induction false} Base64Length(x: Chunk)
    ensures |Output(B64Encode, x)| == 4 * ((|x| + 2) / 3)
    decreases |x|
  {
    if x != [] {
      var g, rest := Head(x, 3).value, Rest(x, 3);
      Base64Codec.EncodeStepShape(g);
      Base64Length(rest);
      OutputCons(B64Encode, x);
      assert |rest| == |x| - |g|;
      if |x| <= 3 {
        assert rest == [] && (|x| + 2) / 3 == 1;
      } else {
        assert (|rest| + 2) / 3 == (|x| + 2) / 3 - 1;
      }
    }
  }

  /** The Base16 encode proc, called to the end, is `unpack("H*")` of the whole stream. */
  lemma {:induction false} Base16EncodeStream(x: Chunk)
    ensures Output(B16Encode, x) == Base16Codec.UnpackHex(x)
    decreases |x|
  {
    if x != [] {
      OutputCons(B16Encode, x);
      Base16EncodeStream(x[1..]);
      assert Head(x, 1).value == [x[0]] && Rest(x, 1) == x[1..];
      assert [x[0]][1..] == [];
      assert Convert(B16Encode, [x[0]]) == [Base16Codec.HexDigit(x[0] / 16), Base16Codec.HexDigit(x[0] % 16)];
    }
  }

  /** The Base16 decode proc, called to the end, is `pack("H*")` of the whole stream. */
  lemma {:induction false} Base16DecodeStream(x: Chunk)
    ensures Output(B16Decode, x) == Base16Codec.PackHex(x)
    decreases |x|
  {
    if x != [] {
      OutputCons(B16Decode, x);
      if |x| == 1 {
        assert Head(x, 2).value == x && Rest(x, 2) == [];
      } else {
        Base16DecodeStream(x[2..]);
        var g := x[..2];
        assert Head(x, 2).value == g && Rest(x, 2) == x[2..];
        assert g[2..] == [] && g[0] == x[0] && g[1] == x[1];
        assert Base16Codec.PackHex(g) == [Base16Codec.Nibble(x[0]) * 16 + Base16Codec.Nibble(x[1])];
      }
    }
  }

  /** Base16 decoding undoes Base16 encoding; each byte becomes 2 characters. */
  lemma Base16RoundTrip(x: Chunk)
    ensures Output(B16Decode, Output(B16Encode, x)) == x
    ensures |Output(B16Encode, x)| == 2 * |x|
  {
    Base16EncodeStream(x);
    Base16DecodeStream(Base16Codec.UnpackHex(x));
    Base16Codec.PackUnpack(x);
  }

  /** And Base16 encoding undoes Base16 decoding of an even number of lower-case digits. */
  lemma Base16Inverse(t: Chunk)
    requires |t| % 2 == 0 && forall i :: 0 <= i < |t| ==> Base16Codec.IsHexDigit(t[i])
    ensures Output(B16Encode, Output(B16Decode, t)) == t
  {
    Base16DecodeStream(t);
    Base16EncodeStream(Base16Codec.PackHex(t));
    Base16Codec.UnpackPack(t);
  }

  /** The Base2 encode proc, called to the end, is `unpack("B*")` of the whole stream. */
  lemma {:induction false} Base2EncodeStream(x: Chunk)
    ensures Output(B2Encode, x) == Base2Codec.UnpackBits(x)
    decreases |x|
  {
    if x != [] {
      OutputCons(B2Encode, x);
      Base2EncodeStream(x[1..]);
      assert Head(x, 1).value == [x[0]] && Rest(x, 1) == x[1..];
      assert [x[0]][1..] == [];
      assert Convert(B2Encode, [x[0]]) == Base2Codec.BitString(x[0], 8);
    }
  }

  /** The Base2 decode proc, called to the end, is `pack("B*")` of the whole stream. */
  lemma {:induction false} Base2DecodeStream(x: Chunk)
    ensures Output(B2Decode, x) == Base2Codec.PackBits(x)
    decreases |x|
  {
    if x != [] {
      OutputCons(B2Decode, x);
      if |x| < 8 {
        assert Head(x, 8).value == x && Rest(x, 8) == [];
      } else {
        Base2DecodeStream(x[8..]);
        var g := x[..8];
        assert Head(x, 8).value == g && Rest(x, 8) == x[8..];
        assert g[..8] == g && g[8..] == [];
        assert Base2Codec.PackBits(g) == [Base2Codec.PackOctet(g)];
      }
    }
  }

  /** Base2 decoding undoes Base2 encoding; each byte becomes 8 characters. */
  lemma Base2RoundTrip(x: Chunk)
    ensures Output(B2Decode, Output(B2Encode, x)) == x
    ensures |Output(B2Encode, x)| == 8 * |x|
  {
    Base2EncodeStream(x);
    Base2DecodeStream(Base2Codec.UnpackBits(x));
    Base2Codec.PackUnpack(x);
  }

  /** And Base2 encoding undoes Base2 decoding of whole octets of `0`/`1`. */
  lemma Base2Inverse(t: Chunk)
    requires |t| % 8 == 0 && forall i :: 0 <= i < |t| ==> Base2Codec.IsBit(t[i])
    ensures Output(B2Encode, Output(B2Decode, t)) == t
  {
    Base2DecodeStream(t);
    Base2EncodeStream(Base2Codec.PackBits(t));
    Base2Codec.UnpackPack(t);
  }

  /** As written, Base8 decoding does not undo Base8 encoding: `A` comes back as a zero byte. */
  lemma Base8NotInverse()
    ensures Output(B8Encode, [65]) == [65]
    ensures Output(B8Decode, Output(B8Encode, [65])) == [0]
  {
    Base8ForwardIdentity([65]);
    assert Base8Codec.OctalPrefix([65]) == [];
    assert Base8Codec.ToHex(0) == [48];
    assert Head([65], 3).value == [65] && Rest([65], 3) == [];
  }

  /** The intended Base8 pair: three octal digits per byte, read back to the byte. */
  lemma OctalRoundTrip(x: Chunk)
    ensures Output(OctalDecode, Output(OctalEncode, x)) == x
  {
    forall g | 0 < |g| <= 1
      ensures |Convert(OctalEncode, g)| == 3 && Convert(OctalDecode, Convert(OctalEncode, g)) == g
    {
      Base8Codec.OctalRoundTrip(g[0]);
      assert g == [g[0]];
    }
    RoundTrip(OctalEncode, OctalDecode, x);
  }
}
