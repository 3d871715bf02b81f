/**
 * `Digest#apply` and `HMAC#apply`: the whole input is digested eagerly, in reads
 * of 256 bytes, before the proc exists; the proc then hands the digest out once.
 * `HMAC` first reads its whole key.
 */
module Digests {
  import opened Wrappers
  import opened Bytes
  import opened Streams
  import opened Crypto
  import opened Once

  /** What `Digest#apply` leads to for the input bytes `x`: the digest, or the exception. */
  function DigestOf(suite: Suite, options: map<string, string>, x: Chunk): Result<Chunk, Error>
  {
    match Algorithm(options, suite.digestKnown)
    case Failure(e) => Failure(e)
    case Success(n) => Success(suite.digest(n, Split(x, 256)))
  }

  /**
   * What `HMAC#apply` leads to when `key.read` returned `k`, for the input bytes `x`:
   * a `nil` key is a `TypeError`, raised before the digest name is looked at.
   */
  function HmacOf(suite: Suite, options: map<string, string>, k: Option<Chunk>, x: Chunk): Result<Chunk, Error>
  {
    match k
    case None => Failure(TypeError)
    case Some(key) =>
      match Algorithm(options, suite.digestKnown)
      case Failure(e) => Failure(e)
      case Success(n) => Success(suite.hmac(n, key, Split(x, 256)))
  }

  /** The digest loop: reads of 256 bytes until `nil`; returns the chunks fed to `update`, in order. */
  method Drain256(input: Readable) returns (fed: seq<Chunk>)
    modifies input
    ensures fed == Split(old(input.data), 256)
    ensures input.data == []
  {
    fed := [];
    while true
      invariant fed + Split(input.data, 256) == Split(old(input.data), 256)
      decreases |input.data|
    {
      ghost var before := input.data;
      var chunk := input.Read(256);
      if chunk.None? {
        break;
      }
      HeadRestSplit(before, 256);
      fed := fed + [chunk.value];
    }
  }

  /** `Digest#apply`: an unknown or missing digest name raises before anything is read. */
  method DigestApply(suite: Suite, options: map<string, string>, input: Readable) returns (r: Result<OnceProc, Error>)
    modifies input
    ensures DigestOf(suite, options, old(input.data)).Failure? ==>
      r == Failure(DigestOf(suite, options, old(input.data)).error) && input.data == old(input.data)
    ensures DigestOf(suite, options, old(input.data)).Success? ==>
      r.Success? && fresh(r.value) && r.value.value == Some(DigestOf(suite, options, old(input.data)).value)
      && input.data == []
  {
    var alg := Algorithm(options, suite.digestKnown);
    if alg.Failure? {
      return Failure(alg.error);
    }
    var fed := Drain256(input);
    var p := new OnceProc(Some(suite.digest(alg.value, fed)));
    r := Success(p);
  }

  /**
   * `HMAC#apply`: `key.read` comes first, so the key is consumed even when the
   * digest name is refused; when input and key are the same stream, the key read
   * leaves nothing for the input.
   */
  method HmacApply(suite: Suite, options: map<string, string>, input: Readable, key: Readable)
    returns (r: Result<OnceProc, Error>)
    modifies input, key
    ensures var k := if old(key.data) == [] then None else Some(old(key.data));
      var x := if input == key then [] else old(input.data);
      var h := HmacOf(suite, options, k, x);
      && (h.Failure? ==> r == Failure(h.error) && input.data == x)
      && (h.Success? ==> r.Success? && fresh(r.value) && r.value.value == Some(h.value) && input.data == [])
      && key.data == []
  {
    var k := key.ReadAll();
    if k.None? {
      return Failure(TypeError);
    }
    var alg := Algorithm(options, suite.digestKnown);
    if alg.Failure? {
      return Failure(alg.error);
    }
    var fed := Drain256(input);
    var p := new OnceProc(Some(suite.hmac(alg.value, k.value, fed)));
    r := Success(p);
  }

  /**
   * Applies `Digest` to the bytes `x` and calls its proc `n` times: on success the
   * digest comes out once, then only `nil`.
   */
  method DigestCalls(suite: Suite, options: map<string, string>, x: Chunk, n: nat)
    returns (r: Result<seq<Option<Chunk>>, Error>)
    ensures DigestOf(suite, options, x).Failure? ==> r == Failure(DigestOf(suite, options, x).error)
    ensures DigestOf(suite, options, x).Success? ==> r == Success(OnceAnswers(Some(DigestOf(suite, options, x).value), n))
  {
    var input := new Readable(x);
    var applied := DigestApply(suite, options, input);
    if applied.Failure? {
      return Failure(applied.error);
    }
    var rs := CallRepeatedly(applied.value, n);
    r := Success(rs);
  }

  /** Applies `HMAC` to separate input and key streams holding `x` and `k`, and calls its proc `n` times. */
  method HmacCalls(suite: Suite, options: map<string, string>, x: Chunk, k: Chunk, n: nat)
    returns (r: Result<seq<Option<Chunk>>, Error>)
    ensures var h := HmacOf(suite, options, if k == [] then None else Some(k), x);
      && (h.Failure? ==> r == Failure(h.error))
      && (h.Success? ==> r == Success(OnceAnswers(Some(h.value), n)))
  {
    var input := new Readable(x);
    var key := new Readable(k);
    var applied := HmacApply(suite, options, input, key);
    if applied.Failure? {
      return Failure(applied.error);
    }
    var rs := CallRepeatedly(applied.value, n);
    r := Success(rs);
  }
}
