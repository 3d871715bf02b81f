/**
 * A proc that hands out one stored value and then `nil`: the procs of `Digest`
 * and `HMAC`, which clear their captured digest, and `StringReader::StringProc`,
 * which clears `@str` in an `ensure`.
 */
module Once {
  import opened Wrappers
  import opened Bytes

  class OnceProc {
    /** The value still to hand out; `None` once it has been. */
    var value: Option<Chunk>

    constructor (v: Option<Chunk>)
      ensures value == v
    {
      value := v;
    }

    /** `d = digest; digest = nil; d`, and `begin @str ensure @str = nil end`. */
    method Call() returns (r: Option<Chunk>)
      modifies this
      ensures r == old(value)
      ensures value == None
    {
      r := value;
      value := None;
    }
  }

  /** `StringReader#apply`: a proc over `options[:string]`, `None` when the option is absent. */
  method StringReaderApply(str: Option<Chunk>) returns (p: OnceProc)
    ensures fresh(p) && p.value == str
  {
    p := new OnceProc(str);
  }

  /** What the first `n` calls of a proc holding `v` return: `v` first, `nil` after. */
  function OnceAnswers(v: Option<Chunk>, n: nat): (rs: seq<Option<Chunk>>)
    ensures |rs| == n
    ensures n > 0 ==> rs[0] == v
    ensures forall i :: 1 <= i < n ==> rs[i] == None
  {
    if n == 0 then [] else [v] + seq(n - 1, _ => None)
  }

  /** Calls a proc `n` times, collecting what each call returns. */
  method CallRepeatedly(p: OnceProc, n: nat) returns (rs: seq<Option<Chunk>>)
    modifies p
    ensures rs == OnceAnswers(old(p.value), n)
    ensures p.value == if n == 0 then old(p.value) else None
  {
    rs := [];
    while |rs| < n
      invariant |rs| <= n
      invariant rs == OnceAnswers(old(p.value), n)[..|rs|]
      invariant p.value == if rs == [] then old(p.value) else None
    {
      var r := p.Call();
      rs := rs + [r];
    }
    assert rs == OnceAnswers(old(p.value), n);
  }

  /** Calls a fresh string proc `n` times: the string comes out once, then only `nil`. */
  method CallStringProc(str: Option<Chunk>, n: nat) returns (rs: seq<Option<Chunk>>)
    ensures rs == OnceAnswers(str, n)
  {
    var p := StringReaderApply(str);
    rs := CallRepeatedly(p, n);
  }
}
