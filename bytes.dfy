/** Byte strings and the fixed-size groups a transform reads them in. */
module Bytes {

  type Byte = b: int | 0 <= b < 256

  /** A chunk of a stream; Ruby's binary strings. */
  type Chunk = seq<Byte>

  function Min(a: nat, b: nat): nat
  {
    if a <= b then a else b
  }

  /** The successive groups obtained by taking `n` bytes at a time until nothing is left. */
  function Split(x: Chunk, n: nat): seq<Chunk>
    requires n > 0
    decreases |x|
  {
    if x == [] then [] else [x[..Min(n, |x|)]] + Split(x[Min(n, |x|)..], n)
  }

  function Concat(groups: seq<Chunk>): Chunk
  {
    if groups == [] then [] else groups[0] + Concat(groups[1..])
  }

  /** Joining the groups gives back the bytes they were split from. */
  lemma {:induction false} SplitConcat(x: Chunk, n: nat)
    requires n > 0
    ensures Concat(Split(x, n)) == x
    decreases |x|
  {
    if x != [] {
      var m := Min(n, |x|);
      SplitConcat(x[m..], n);
      assert x == x[..m] + x[m..];
    }
  }

  /** Every group is non-empty and at most `n` long, and all but the last are exactly `n` long. */
  lemma {:induction false} SplitShape(x: Chunk, n: nat)
    requires n > 0
    ensures forall i :: 0 <= i < |Split(x, n)| ==> 0 < |Split(x, n)[i]| <= n
    ensures forall i :: 0 <= i < |Split(x, n)| - 1 ==> |Split(x, n)[i]| == n
    ensures x == [] <==> Split(x, n) == []
    decreases |x|
  {
    if x != [] {
      var m := Min(n, |x|);
      SplitShape(x[m..], n);
      if m < n {
        assert x[m..] == [];
      }
    }
  }

  lemma {:induction false} ConcatAppend(a: seq<Chunk>, b: seq<Chunk>)
    ensures Concat(a + b) == Concat(a) + Concat(b)
    decreases |a|
  {
    if a == [] {
      assert a + b == b;
    } else {
      assert (a + b)[0] == a[0];
      assert (a + b)[1..] == a[1..] + b;
      ConcatAppend(a[1..], b);
    }
  }

  /** Groups that all have length `n` are recovered by splitting their concatenation. */
  lemma {:induction false} SplitOfConcat(groups: seq<Chunk>, n: nat)
    requires n > 0
    requires forall i :: 0 <= i < |groups| ==> |groups[i]| == n
    ensures Split(Concat(groups), n) == groups
    decreases |groups|
  {
    if groups != [] {
      var x := Concat(groups);
      assert x == groups[0] + Concat(groups[1..]);
      assert x[..n] == groups[0];
      assert x[n..] == Concat(groups[1..]);
      SplitOfConcat(groups[1..], n);
    }
  }
}
