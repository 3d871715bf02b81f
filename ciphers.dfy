/**
 * `Cipher#apply` and its proc. Every call reads the next 256 bytes of the input;
 * while the context exists a chunk goes through `update`, and the first `nil`
 * calls `final` and clears the context, in an `ensure`, so that even a `final`
 * that raises leaves it cleared. From then on every call returns `nil`.
 */
module Ciphers {
  import opened Wrappers
  import opened Bytes
  import opened Streams
  import opened Crypto

  /** An OpenSSL cipher context: how it was set up and the chunks fed to `update` so far. */
  datatype Context = Context(setup: CipherSetup, fed: seq<Chunk>)

  /** What `final` gives the proc: its value, or the exception it raises. */
  function FinalResult(f: Option<Chunk>): Result<Option<Chunk>, Error>
  {
    match f
    case Some(v) => Success(Some(v))
    case None => Failure(CipherError)
  }

  /** One call of the proc, given its captured context and the chunk `input.read(256)` returned. */
  function Step(suite: Suite, cipher: Option<Context>, chunk: Option<Chunk>): (Result<Option<Chunk>, Error>, Option<Context>)
  {
    match cipher
    case None => (Success(None), None)
    case Some(ctx) =>
      match chunk
      case Some(c) => (Success(Some(suite.update(ctx.setup, ctx.fed, c))), Some(Context(ctx.setup, ctx.fed + [c])))
      case None => (FinalResult(suite.final(ctx.setup, ctx.fed)), None)
  }

  class CipherProc {
    const suite: Suite
    const input: Readable
    /** The captured `cipher`; `None` once it has been cleared. */
    var cipher: Option<Context>

    constructor (s: Suite, inp: Readable, setup: CipherSetup)
      ensures suite == s && input == inp && cipher == Some(Context(setup, []))
    {
      suite := s;
      input := inp;
      cipher := Some(Context(setup, []));
    }

    method Call() returns (r: Result<Option<Chunk>, Error>)
      modifies this, input
      ensures input.data == Rest(old(input.data), 256)
      ensures r == Step(suite, old(cipher), Head(old(input.data), 256)).0
      ensures cipher == Step(suite, old(cipher), Head(old(input.data), 256)).1
    {
      var chunk := input.Read(256);
      match cipher {
        case None =>
          r := Success(None);
        case Some(ctx) =>
          match chunk {
            case Some(c) =>
              r := Success(Some(suite.update(ctx.setup, ctx.fed, c)));
              cipher := Some(Context(ctx.setup, ctx.fed + [c]));
            case None =>
              r := FinalResult(suite.final(ctx.setup, ctx.fed));
              cipher := None;
          }
      }
    }
  }

  /**
   * The outcome of `Cipher#apply` when `key.read` returns `k`: the cipher name is
   * checked first, then the key must be a string the cipher accepts.
   */
  function SetupOf(suite: Suite, options: map<string, string>, decrypt: bool, k: Option<Chunk>): Result<CipherSetup, Error>
  {
    match Algorithm(options, suite.cipherKnown)
    case Failure(e) => Failure(e)
    case Success(n) =>
      match k
      case None => Failure(TypeError)
      case Some(key) => if suite.keyFits(n, key) then Success(CipherSetup(n, decrypt, key)) else Failure(KeyError)
  }

  /** `Cipher#apply`; `decrypt` is the transform's `invert` flag. */
  method CipherApply(suite: Suite, options: map<string, string>, decrypt: bool, input: Readable, key: Readable)
    returns (r: Result<CipherProc, Error>)
    modifies key
    ensures Algorithm(options, suite.cipherKnown).Failure? ==> key.data == old(key.data)
    ensures Algorithm(options, suite.cipherKnown).Success? ==> key.data == []
    ensures var s := SetupOf(suite, options, decrypt, if old(key.data) == [] then None else Some(old(key.data)));
      && (s.Failure? ==> r == Failure(s.error))
      && (s.Success? ==> r.Success? && fresh(r.value) && r.value.suite == suite && r.value.input == input
                         && r.value.cipher == Some(Context(s.value, [])))
  {
    var alg := Algorithm(options, suite.cipherKnown);
    if alg.Failure? {
      return Failure(alg.error);
    }
    var k := key.ReadAll();
    if k.None? {
      return Failure(TypeError);
    }
    if !suite.keyFits(alg.value, k.value) {
      return Failure(KeyError);
    }
    var p := new CipherProc(suite, input, CipherSetup(alg.value, decrypt, k.value));
    r := Success(p);
  }

  /** What `n` calls return, from the captured context `cipher` with `x` still to be read. */
  function Run(suite: Suite, cipher: Option<Context>, x: Chunk, n: nat): (rs: seq<Result<Option<Chunk>, Error>>)
    ensures |rs| == n
    decreases n
  {
    if n == 0 then []
    else
      var step := Step(suite, cipher, Head(x, 256));
      [step.0] + Run(suite, step.1, Rest(x, 256), n - 1)
  }

  /** The first of `n` calls, followed by the others. */
  lemma RunStep(suite: Suite, cipher: Option<Context>, x: Chunk, n: nat)
    requires n > 0
    ensures Run(suite, cipher, x, n)
         == [Step(suite, cipher, Head(x, 256)).0] + Run(suite, Step(suite, cipher, Head(x, 256)).1, Rest(x, 256), n - 1)
  {
  }

  /** Once the context is cleared, every call returns `nil`. */
  lemma {:induction false} RunCleared(suite: Suite, x: Chunk, n: nat)
    ensures forall i :: 0 <= i < n ==> Run(suite, None, x, n)[i] == Success(None)
    decreases n
  {
    if n > 0 {
      var tail := Run(suite, None, Rest(x, 256), n - 1);
      RunStep(suite, None, x, n);
      assert Step(suite, None, Head(x, 256)) == (Success(None), None);
      RunCleared(suite, Rest(x, 256), n - 1);
      forall i | 1 <= i < n
        ensures Run(suite, None, x, n)[i] == Success(None)
      {
        assert Run(suite, None, x, n)[i] == tail[i - 1];
      }
    }
  }

  /** At the end of the input a live context makes the next call return `final`, and clears itself. */
  lemma RunAtEnd(suite: Suite, ctx: Context, n: nat)
    requires n > 0
    ensures Run(suite, Some(ctx), [], n)[0] == FinalResult(suite.final(ctx.setup, ctx.fed))
    ensures forall i :: 1 <= i < n ==> Run(suite, Some(ctx), [], n)[i] == Success(None)
  {
    RunStep(suite, Some(ctx), [], n);
    RunCleared(suite, [], n - 1);
  }

  /** Before the end of the input a live context makes the next call return `update` of the next group. */
  lemma RunUpdate(suite: Suite, ctx: Context, x: Chunk, n: nat)
    requires n > 0 && x != []
    ensures Run(suite, Some(ctx), x, n)
         == [Success(Some(suite.update(ctx.setup, ctx.fed, Head(x, 256).value)))]
            + Run(suite, Some(Context(ctx.setup, ctx.fed + [Head(x, 256).value])), Rest(x, 256), n - 1)
  {
    RunStep(suite, Some(ctx), x, n);
  }

  /** Call `i` of `rs` is `update` of group `i`, after all earlier groups, for every group of `gs`. */
  ghost predicate Updates(suite: Suite, setup: CipherSetup, fed: seq<Chunk>, gs: seq<Chunk>, rs: seq<Result<Option<Chunk>, Error>>)
    requires |gs| <= |rs|
  {
    forall i :: 0 <= i < |gs| ==> rs[i] == Success(Some(suite.update(setup, fed + gs[..i], gs[i])))
  }

  lemma UpdatesCons(suite: Suite, setup: CipherSetup, fed: seq<Chunk>, g: Chunk, hs: seq<Chunk>, tail: seq<Result<Option<Chunk>, Error>>)
    requires |hs| <= |tail| && Updates(suite, setup, fed + [g], hs, tail)
    ensures Updates(suite, setup, fed, [g] + hs, [Success(Some(suite.update(setup, fed, g)))] + tail)
  {
    var gs, rs := [g] + hs, [Success(Some(suite.update(setup, fed, g)))] + tail;
    forall i | 0 <= i < |gs|
      ensures rs[i] == Success(Some(suite.update(setup, fed + gs[..i], gs[i])))
    {
      if i == 0 {
        assert fed + gs[..0] == fed;
      } else {
        assert gs[..i] == [g] + hs[..i - 1];
        assert fed + gs[..i] == (fed + [g]) + hs[..i - 1];
      }
    }
  }

  /**
   * The calls `rs` made from a context that has been fed `fed`, with `x` still to be
   * read: one `update` per 256-byte group, continuing from all earlier chunks; then
   * `final` of everything, once; then `nil` on every later call, even when `final` raised.
   */
  ghost predicate Shaped(suite: Suite, setup: CipherSetup, fed: seq<Chunk>, x: Chunk, rs: seq<Result<Option<Chunk>, Error>>)
    requires |rs| > |Split(x, 256)|
  {
    var gs := Split(x, 256);
    && Updates(suite, setup, fed, gs, rs)
    && rs[|gs|] == FinalResult(suite.final(setup, fed + gs))
    && (forall i :: |gs| < i < |rs| ==> rs[i] == Success(None))
  }

  /** One `update` in front of calls of that shape gives calls of that shape. */
  lemma ShapedCons(suite: Suite, setup: CipherSetup, fed: seq<Chunk>, x: Chunk, n: nat)
    requires x != [] && n > |Split(x, 256)|
    requires |Split(Rest(x, 256), 256)| == |Split(x, 256)| - 1
    requires Shaped(suite, setup, fed + [Head(x, 256).value], Rest(x, 256),
                    Run(suite, Some(Context(setup, fed + [Head(x, 256).value])), Rest(x, 256), n - 1))
    ensures Shaped(suite, setup, fed, x, Run(suite, Some(Context(setup, fed)), x, n))
  {
    var gs := Split(x, 256);
    var rs := Run(suite, Some(Context(setup, fed)), x, n);
    var g := Head(x, 256).value;
    var rest := Rest(x, 256);
    var hs := Split(rest, 256);
    HeadRestSplit(x, 256);
    RunUpdate(suite, Context(setup, fed), x, n);
    var tail := Run(suite, Some(Context(setup, fed + [g])), rest, n - 1);
    UpdatesCons(suite, setup, fed, g, hs, tail);
    assert fed + gs == (fed + [g]) + hs;
    assert rs[|gs|] == tail[|hs|];
    forall i | |gs| < i < n
      ensures rs[i] == Success(None)
    {
      assert rs[i] == tail[i - 1];
    }
  }

  /** The calls of a live cipher proc, from a context that has been fed `fed`, with `x` still to be read. */
  lemma {:induction false} RunShape(suite: Suite, setup: CipherSetup, fed: seq<Chunk>, x: Chunk, n: nat)
    requires n > |Split(x, 256)|
    ensures Shaped(suite, setup, fed, x, Run(suite, Some(Context(setup, fed)), x, n))
    decreases |x|
  {
    if x == [] {
      assert Split(x, 256) == [] && fed + [] == fed;
      RunAtEnd(suite, Context(setup, fed), n);
    } else {
      HeadRestSplit(x, 256);
      RunShape(suite, setup, fed + [Head(x, 256).value], Rest(x, 256), n - 1);
      ShapedCons(suite, setup, fed, x, n);
    }
  }

  /** The calls made so far, followed by the rest, after one more call. */
  lemma CallsStep(suite: Suite, rs: seq<Result<Option<Chunk>, Error>>, cipher: Option<Context>, x: Chunk, m: nat, all: seq<Result<Option<Chunk>, Error>>)
    requires m > 0 && rs + Run(suite, cipher, x, m) == all
    ensures var st := Step(suite, cipher, Head(x, 256));
      (rs + [st.0]) + Run(suite, st.1, Rest(x, 256), m - 1) == all
  {
    RunStep(suite, cipher, x, m);
    var st := Step(suite, cipher, Head(x, 256));
    assert (rs + [st.0]) + Run(suite, st.1, Rest(x, 256), m - 1) == rs + ([st.0] + Run(suite, st.1, Rest(x, 256), m - 1));
  }

  /** Applies the proc of a cipher set up as `setup` to the bytes `x` and calls it `n` times. */
  method CipherCalls(suite: Suite, setup: CipherSetup, x: Chunk, n: nat) returns (rs: seq<Result<Option<Chunk>, Error>>)
    ensures rs == Run(suite, Some(Context(setup, [])), x, n)
  {
    var input := new Readable(x);
    var p := new CipherProc(suite, input, setup);
    rs := [];
    while |rs| < n
      invariant |rs| <= n
      invariant p.suite == suite && p.input == input
      invariant rs + Run(suite, p.cipher, input.data, n - |rs|) == Run(suite, Some(Context(setup, [])), x, n)
    {
      ghost var before, ctx := input.data, p.cipher;
      CallsStep(suite, rs, ctx, before, n - |rs|, Run(suite, Some(Context(setup, [])), x, n));
      var r := p.Call();
      rs := rs + [r];
    }
  }
}
