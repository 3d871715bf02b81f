/**
 * The OpenSSL primitives the transforms call, as uninterpreted functions: which
 * algorithm names are known, the digest and HMAC of the chunks fed in order, and
 * a cipher context's `update` and `final`. They are fields of a `Suite` value,
 * so every property proved below holds for every OpenSSL the code could be linked to.
 */
module Crypto {
  import opened Wrappers
  import opened Bytes

  /** An algorithm name, as OpenSSL spells it. */
  type Name = string

  /** A cipher context after `Cipher.new(name)`, `encrypt`/`decrypt` and `key=`. */
  datatype CipherSetup = CipherSetup(name: Name, decrypt: bool, key: Chunk)

  datatype Suite = Suite(
    /** `OpenSSL::Digest.new(name)` and `OpenSSL::HMAC.new(key, name)` do not raise. */
    digestKnown: Name -> bool,
    /** `digest` after `update` with each chunk in order. */
    digest: (Name, seq<Chunk>) -> Chunk,
    /** `digest` of an HMAC with the given key after `update` with each chunk in order. */
    hmac: (Name, Chunk, seq<Chunk>) -> Chunk,
    /** `OpenSSL::Cipher.new(name)` does not raise. */
    cipherKnown: Name -> bool,
    /** `key=` accepts the key for the named cipher. */
    keyFits: (Name, Chunk) -> bool,
    /** What `update(chunk)` returns after the earlier chunks were fed. */
    update: (CipherSetup, seq<Chunk>, Chunk) -> Chunk,
    /** What `final` returns after the chunks were fed; `None` when it raises. */
    final: (CipherSetup, seq<Chunk>) -> Option<Chunk>
  )

  /** `@options[:variant]`: `None` when the option is absent. */
  function Variant(options: map<string, string>): Option<Name>
  {
    if "variant" in options then Some(options["variant"]) else None
  }

  /**
   * Creating an OpenSSL object for `@options[:variant]`: a missing name is a
   * `TypeError`, a name OpenSSL does not know an `AlgorithmError`.
   */
  function Algorithm(options: map<string, string>, known: Name -> bool): (r: Result<Name, Error>)
    ensures r.Success? <==> "variant" in options && known(options["variant"])
    ensures r.Success? ==> r.value == options["variant"]
    ensures r.Failure? ==> r.error == if "variant" in options then AlgorithmError else TypeError
  {
    match Variant(options)
    case None => Failure(TypeError)
    case Some(n) => if known(n) then Success(n) else Failure(AlgorithmError)
  }
}
