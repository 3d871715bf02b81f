/**
 * The upstream side of every transform: a readable whose `read(n)` hands out the
 * next `n` bytes, or the shorter remainder, and `nil` once nothing is left.
 */
module Streams {
  import opened Wrappers
  import opened Bytes

  /** What `read(n)` returns when `x` is still to be delivered. */
  function Head(x: Chunk, n: nat): (c: Option<Chunk>)
    requires n > 0
    ensures c.None? <==> x == []
    ensures c.Some? ==> 0 < |c.value| <= n && c.value <= x
    ensures c.Some? && n <= |x| ==> |c.value| == n
    ensures c.Some? && |x| < n ==> c.value == x
  {
    if x == [] then None else Some(x[..Min(n, |x|)])
  }

  /** What is left to deliver after `read(n)`. */
  function Rest(x: Chunk, n: nat): (r: Chunk)
    requires n > 0
    ensures x == [] ==> r == []
    ensures x != [] ==> x == Head(x, n).value + r
  {
    x[Min(n, |x|)..]
  }

  /** Reading `n` bytes at a time delivers exactly the groups of `Split`. */
  lemma HeadRestSplit(x: Chunk, n: nat)
    requires n > 0 && x != []
    ensures Split(x, n) == [Head(x, n).value] + Split(Rest(x, n), n)
  {
  }

  /** Reading `|a|` bytes from `a + b` delivers `a` and leaves `b`. */
  lemma HeadOfConcat(a: Chunk, b: Chunk)
    requires |a| > 0
    ensures Head(a + b, |a|) == Some(a)
    ensures Rest(a + b, |a|) == b
  {
    assert (a + b)[..|a|] == a;
    assert (a + b)[|a|..] == b;
  }

  class Readable {
    /** The bytes not yet delivered. */
    var data: Chunk

    constructor (d: Chunk)
      ensures data == d
    {
      data := d;
    }

    /** `read(n)`: the next group, `nil` for end of stream (and forever after). */
    method Read(n: nat) returns (c: Option<Chunk>)
      requires n > 0
      modifies this
      ensures c == Head(old(data), n)
      ensures data == Rest(old(data), n)
    {
      c := Head(data, n);
      data := Rest(data, n);
    }

    /** `read` with no size: everything that is left, `nil` when nothing is. */
    method ReadAll() returns (c: Option<Chunk>)
      modifies this
      ensures c == if old(data) == [] then None else Some(old(data))
      ensures data == []
    {
      c := if data == [] then None else Some(data);
      data := [];
    }
  }
}
