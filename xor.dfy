/**
 * `XOR#apply`: the whole key is read first; each call of the proc then reads as
 * many input bytes as the key is long and XORs them with the key. Which of the
 * two strings drives the output is decided by `sort` with a one-parameter block,
 * which is not a comparison; the model leaves that choice to a parameter `swap`.
 */
module Xor {
  import opened Wrappers
  import opened Bytes
  import opened Streams
  import opened Arith

  /** The low `k` bits of `c ^ d`, built from the least significant bit up. */
  function XorBits(c: nat, d: nat, k: nat): (r: nat)
    ensures r < Pow2(k)
  {
    if k == 0 then 0 else 2 * XorBits(c / 2, d / 2, k - 1) + (c % 2 + d % 2) % 2
  }

  /** `c ^ d` on two bytes. */
  function XorByte(c: Byte, d: Byte): Byte
  {
    assert Pow2(8) == 256;
    XorBits(c, d, 8)
  }

  lemma {:induction false} XorBitsComm(c: nat, d: nat, k: nat)
    ensures XorBits(c, d, k) == XorBits(d, c, k)
  {
    if k > 0 {
      XorBitsComm(c / 2, d / 2, k - 1);
    }
  }

  lemma XorBitsSplit(c: nat, d: nat, k: nat)
    requires k > 0
    ensures XorBits(c, d, k) / 2 == XorBits(c / 2, d / 2, k - 1)
    ensures XorBits(c, d, k) % 2 == (c % 2 + d % 2) % 2
  {
  }

  lemma HalfBound(c: nat, k: nat)
    requires k > 0 && c < Pow2(k)
    ensures c / 2 < Pow2(k - 1)
  {
  }

  lemma BitTwice(c: nat, d: nat)
    ensures ((c % 2 + d % 2) % 2 + d % 2) % 2 == c % 2
  {
  }

  lemma Halves(c: nat)
    ensures 2 * (c / 2) + c % 2 == c
  {
  }

  /** XORing twice with the same `k`-bit mask restores a `k`-bit value. */
  lemma {:induction false} XorBitsInverse(c: nat, d: nat, k: nat)
    requires c < Pow2(k)
    ensures XorBits(XorBits(c, d, k), d, k) == c
  {
    if k > 0 {
      var r := XorBits(c, d, k);
      XorBitsSplit(c, d, k);
      HalfBound(c, k);
      XorBitsInverse(c / 2, d / 2, k - 1);
      XorBitsSplit(r, d, k);
      BitTwice(c, d);
      Halves(c);
      Halves(XorBits(r, d, k));
    }
  }

  /** XOR on bytes is commutative and undoes itself. */
  lemma XorByteLaws(c: Byte, d: Byte)
    ensures XorByte(c, d) == XorByte(d, c)
    ensures XorByte(XorByte(c, d), d) == c
  {
    assert Pow2(8) == 256;
    XorBitsComm(c, d, 8);
    XorBitsInverse(c, d, 8);
  }

  /** The bytewise XOR of two strings of the same length. */
  function Plain(c: Chunk, k: Chunk): (r: Chunk)
    requires |c| == |k|
    ensures |r| == |c|
    ensures forall i :: 0 <= i < |c| ==> r[i] == XorByte(c[i], k[i])
  {
    seq(|c|, i requires 0 <= i < |c| => XorByte(c[i], k[i]))
  }

  /**
   * One call's output: the two strings are ordered by `sort` (the key first when
   * `swap` holds), and each byte of the first is XORed with the byte of the second
   * at the same position taken modulo the second's length.
   */
  function Combine(inchunk: Chunk, key: Chunk, swap: (Chunk, Chunk) -> bool): (r: Chunk)
    requires |inchunk| > 0 && |key| > 0
    ensures |r| == if swap(inchunk, key) then |key| else |inchunk|
  {
    var a := if swap(inchunk, key) then key else inchunk;
    var b := if swap(inchunk, key) then inchunk else key;
    seq(|a|, i requires 0 <= i < |a| => XorByte(a[i], b[i % |b|]))
  }

  /** With a chunk as long as the key, the order does not matter: the output is their bytewise XOR. */
  lemma CombineAt(c: Chunk, k: Chunk, swap: (Chunk, Chunk) -> bool, i: nat)
    requires |c| == |k| > 0 && i < |c|
    ensures Combine(c, k, swap)[i] == if swap(c, k) then XorByte(k[i], c[i]) else XorByte(c[i], k[i])
  {
    assert i % |k| == i;
  }

  lemma EqualLengthCombine(c: Chunk, k: Chunk, swap: (Chunk, Chunk) -> bool)
    requires |c| == |k| > 0
    ensures Combine(c, k, swap) == Plain(c, k)
  {
    var r, p := Combine(c, k, swap), Plain(c, k);
    forall i | 0 <= i < |c|
      ensures r[i] == p[i]
    {
      CombineAt(c, k, swap, i);
      XorByteLaws(c[i], k[i]);
    }
  }

  /** XORing a chunk as long as the key twice with that key restores it, whatever order either sort chose. */
  lemma CombineTwice(c: Chunk, k: Chunk, swap: (Chunk, Chunk) -> bool, swap2: (Chunk, Chunk) -> bool)
    requires |c| == |k| > 0
    ensures |Combine(c, k, swap)| == |k|
    ensures Combine(Combine(c, k, swap), k, swap2) == c
  {
    EqualLengthCombine(c, k, swap);
    var once := Combine(c, k, swap);
    EqualLengthCombine(once, k, swap2);
    forall i | 0 <= i < |c|
      ensures Plain(once, k)[i] == c[i]
    {
      XorByteLaws(c[i], k[i]);
    }
  }

  /** What one call returns when `key.read` gave `key` and `x` is still to be read. */
  function XorStep(key: Option<Chunk>, swap: (Chunk, Chunk) -> bool, x: Chunk): Result<Option<Chunk>, Error>
    requires key.Some? ==> |key.value| > 0
  {
    match key
    case None => Failure(NoMethodError)
    case Some(k) =>
      match Head(x, |k|)
      case None => Success(None)
      case Some(c) => Success(Some(Combine(c, k, swap)))
  }

  /** Everything the proc returns over the input `x`, joined, with the key `k`. */
  function XorOutput(k: Chunk, swap: (Chunk, Chunk) -> bool, x: Chunk): Chunk
    requires |k| > 0
    decreases |x|
  {
    if x == [] then [] else Combine(Head(x, |k|).value, k, swap) + XorOutput(k, swap, Rest(x, |k|))
  }

  class XorProc {
    const input: Readable
    /** What `keyinput.read` returned. */
    const key: Option<Chunk>
    const swap: (Chunk, Chunk) -> bool

    /** A key that `read` returned is never empty. */
    predicate Valid()
    {
      key.Some? ==> |key.value| > 0
    }

    constructor (inp: Readable, k: Option<Chunk>, s: (Chunk, Chunk) -> bool)
      requires k.Some? ==> |k.value| > 0
      ensures input == inp && key == k && swap == s && Valid()
    {
      input := inp;
      key := k;
      swap := s;
    }

    /** `key.size` on a `nil` key raises before anything is read. */
    method Call() returns (r: Result<Option<Chunk>, Error>)
      requires Valid()
      modifies input
      ensures r == XorStep(key, swap, old(input.data))
      ensures input.data == if key.None? then old(input.data) else Rest(old(input.data), |key.value|)
    {
      if key.None? {
        return Failure(NoMethodError);
      }
      var inchunk := input.Read(|key.value|);
      match inchunk {
        case None => r := Success(None);
        case Some(c) => r := Success(Some(Combine(c, key.value, swap)));
      }
    }
  }

  /** `XOR#apply`: reads the whole key; nothing of the input. */
  method XorApply(input: Readable, keyinput: Readable, swap: (Chunk, Chunk) -> bool) returns (p: XorProc)
    modifies keyinput
    ensures fresh(p) && p.Valid() && p.input == input && p.swap == swap
    ensures p.key == if old(keyinput.data) == [] then None else Some(old(keyinput.data))
    ensures keyinput.data == []
  {
    var key := keyinput.ReadAll();
    p := new XorProc(input, key, swap);
  }

  /** The joined output so far, followed by what is still to come after one more call. */
  lemma XorOutputStep(k: Chunk, swap: (Chunk, Chunk) -> bool, x: Chunk, out: Chunk, before: Chunk)
    requires |k| > 0 && out + XorOutput(k, swap, before) == XorOutput(k, swap, x)
    ensures before == [] ==> out == XorOutput(k, swap, x)
    ensures before != [] ==>
      (out + Combine(Head(before, |k|).value, k, swap)) + XorOutput(k, swap, Rest(before, |k|)) == XorOutput(k, swap, x)
  {
    if before == [] {
      assert out + [] == out;
    }
  }

  /**
   * Applies `XOR` to separate input and key streams holding `x` and `k` and calls
   * its proc until it returns `nil` or raises.
   */
  method XorRun(x: Chunk, k: Chunk, swap: (Chunk, Chunk) -> bool) returns (r: Result<Chunk, Error>)
    ensures k == [] ==> r == Failure(NoMethodError)
    ensures k != [] ==> r == Success(XorOutput(k, swap, x))
  {
    var input := new Readable(x);
    var keyinput := new Readable(k);
    var p := XorApply(input, keyinput, swap);
    if k == [] {
      var first := p.Call();
      return Failure(first.error);
    }
    var out := [];
    while true
      invariant p.input == input && p.key == Some(k) && p.swap == swap && p.Valid()
      invariant out + XorOutput(k, swap, input.data) == XorOutput(k, swap, x)
      decreases |input.data|
    {
      ghost var before := input.data;
      XorOutputStep(k, swap, x, out, before);
      var c := p.Call();
      if c == Success(None) {
        break;
      }
      out := out + c.value.value;
    }
    r := Success(out);
  }

  /** On an input whose length is a multiple of the key's, XORing twice with the key gives the input back. */
  lemma {:induction false} XorStreamTwice(k: Chunk, swap: (Chunk, Chunk) -> bool, swap2: (Chunk, Chunk) -> bool, x: Chunk)
    requires |k| > 0 && |x| % |k| == 0
    ensures XorOutput(k, swap2, XorOutput(k, swap, x)) == x
    decreases |x|
  {
    if x != [] {
      var c := Head(x, |k|).value;
      var rest := Rest(x, |k|);
      assert |c| == |k|;
      assert |rest| == |x| - |k|;
      ModMinus(|x|, |k|);
      CombineTwice(c, k, swap, swap2);
      var once := Combine(c, k, swap);
      var tail := XorOutput(k, swap, rest);
      assert XorOutput(k, swap, x) == once + tail;
      HeadOfConcat(once, tail);
      XorStreamTwice(k, swap, swap2, rest);
      assert once + tail != [];
      assert XorOutput(k, swap2, once + tail) == Combine(once, k, swap2) + XorOutput(k, swap2, tail);
    }
  }
}
