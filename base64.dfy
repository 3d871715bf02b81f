/**
 * The Base64 transform's per-group conversions: `Base64.encode64` of at most three
 * bytes with its whitespace removed, and `Base64.decode64` of a group of at most four
 * characters re-padded with `=`. The alphabet and padding are those of section 4 of
 * RFC 4648; decoding follows Ruby's lenient `unpack("m")`.
 */
module Base64Codec {
  import opened Bytes

  /** `=` */
  const Pad: Byte := 61

  /** The character for a sextet of the RFC 4648 alphabet. */
  function Symbol(v: int): (c: Byte)
    requires 0 <= v < 64
    ensures c != Pad && !IsSpace(c)
  {
    if v < 26 then 65 + v
    else if v < 52 then 97 + (v - 26)
    else if v < 62 then 48 + (v - 52)
    else if v == 62 then 43
    else 47
  }

  /** The sextet a character stands for, or -1 for a character outside the alphabet (`=` included). */
  function Value(c: Byte): (v: int)
    ensures -1 <= v < 64
    ensures c == Pad ==> v == -1
  {
    if 65 <= c <= 90 then c - 65
    else if 97 <= c <= 122 then c - 71
    else if 48 <= c <= 57 then c + 4
    else if c == 43 then 62
    else if c == 47 then 63
    else -1
  }

  /** The alphabet is a bijection between the sextets and the 64 characters with a value. */
  lemma AlphabetInverse(v: int, c: Byte)
    ensures 0 <= v < 64 ==> Value(Symbol(v)) == v
    ensures Value(c) >= 0 ==> Symbol(Value(c)) == c
  {
  }

  /** What `\s` matches: space, tab, newline, vertical tab, form feed, carriage return. */
  predicate IsSpace(c: Byte)
  {
    c == 32 || 9 <= c <= 13
  }

  /** `gsub(/\s/, '')` */
  function StripSpace(s: Chunk): (r: Chunk)
    ensures forall i :: 0 <= i < |r| ==> !IsSpace(r[i])
    ensures |r| <= |s|
    ensures (forall i :: 0 <= i < |s| ==> !IsSpace(s[i])) ==> r == s
  {
    if s == [] then []
    else if IsSpace(s[0]) then StripSpace(s[1..])
    else [s[0]] + StripSpace(s[1..])
  }

  lemma {:induction false} StripSpaceAppend(a: Chunk, b: Chunk)
    ensures StripSpace(a + b) == StripSpace(a) + StripSpace(b)
    decreases |a|
  {
    if a == [] {
      assert a + b == b;
    } else {
      assert (a + b)[0] == a[0];
      assert (a + b)[1..] == a[1..] + b;
      StripSpaceAppend(a[1..], b);
    }
  }

  /** One quantum of section 4 of RFC 4648: one to three bytes as four characters, `=`-padded. */
  function EncodeGroup(g: Chunk): (r: Chunk)
    requires 1 <= |g| <= 3
    ensures |r| == 4
    ensures forall i :: 0 <= i < 4 ==> !IsSpace(r[i])
    ensures forall i :: 0 <= i < 4 ==> (r[i] == Pad <==> i > |g|)
  {
    var b0 := g[0];
    var b1 := if |g| > 1 then g[1] else 0;
    var b2 := if |g| > 2 then g[2] else 0;
    [ Symbol(b0 / 4),
      Symbol((b0 % 4) * 16 + b1 / 16),
      if |g| > 1 then Symbol((b1 % 16) * 4 + b2 / 64) else Pad,
      if |g| > 2 then Symbol(b2 % 64) else Pad ]
  }

  /** `Base64.encode64` of at most three bytes: one line, ended by a newline. */
  function Encode64(g: Chunk): Chunk
    requires 1 <= |g| <= 3
  {
    EncodeGroup(g) + [10]
  }

  /** The value the encode proc returns for the group it read. */
  function EncodeStep(g: Chunk): Chunk
    requires 1 <= |g| <= 3
  {
    StripSpace(Encode64(g))
  }

  /** An encode step emits exactly four characters, none of them whitespace, `=`-padding a short group. */
  lemma EncodeStepShape(g: Chunk)
    requires 1 <= |g| <= 3
    ensures EncodeStep(g) == EncodeGroup(g)
    ensures |EncodeStep(g)| == 4
    ensures forall i :: 0 <= i < 4 ==> !IsSpace(EncodeStep(g)[i])
    ensures forall i :: 0 <= i < 4 ==> (EncodeStep(g)[i] == Pad <==> i > |g|)
  {
    StripSpaceAppend(EncodeGroup(g), [10]);
    assert StripSpace([10]) == [];
  }

  // ---------------------------------------------------------------------------
  // Decoding.

  /** `s + "=" * (4 - s.size)` */
  function Padded(s: Chunk): (r: Chunk)
    requires |s| <= 4
    ensures |r| == 4 && r[..|s|] == s
    ensures forall i :: |s| <= i < 4 ==> r[i] == Pad
  {
    s + seq(4 - |s|, _ => Pad)
  }

  predicate Sextets(q: seq<int>)
  {
    forall i :: 0 <= i < |q| ==> 0 <= q[i] < 64
  }

  /** Four sextets as three bytes. */
  function Triple(a: int, b: int, c: int, d: int): Chunk
    requires 0 <= a < 64 && 0 <= b < 64 && 0 <= c < 64 && 0 <= d < 64
  {
    [a * 4 + b / 16, (b % 16) * 16 + c / 4, (c % 4) * 64 + d]
  }

  /** The bytes the sextets of an unfinished quantum still give when the data ends. */
  function Leftover(q: seq<int>): Chunk
    requires |q| < 4 && Sextets(q)
  {
    if |q| == 2 then [q[0] * 4 + q[1] / 16]
    else if |q| == 3 then [q[0] * 4 + q[1] / 16, (q[1] % 16) * 16 + q[2] / 4]
    else []
  }

  /**
   * Lenient decoding of `t`, with the sextets `q` of the current quantum already
   * collected: characters outside the alphabet are skipped, and `=` ends the data
   * once the quantum holds at least two sextets.
   */
  function Unpack(t: Chunk, q: seq<int>): Chunk
    requires |q| < 4 && Sextets(q)
    decreases |t|
  {
    if t == [] then Leftover(q)
    else
      var v := Value(t[0]);
      if v >= 0 then
        if |q| == 3 then Triple(q[0], q[1], q[2], v) + Unpack(t[1..], [])
        else Unpack(t[1..], q + [v])
      else if t[0] == Pad && |q| >= 2 then Leftover(q)
      else Unpack(t[1..], q)
  }

  /** `Base64.decode64` */
  function Decode64(t: Chunk): Chunk
  {
    Unpack(t, [])
  }

  /** The value the decode proc returns for the group of at most four characters it read. */
  function DecodeStep(t: Chunk): Chunk
    requires |t| <= 4
  {
    Decode64(Padded(t))
  }

  /** Two sextets collected, then the rest of a quantum. */
  lemma UnpackTwo(a: int, b: int, rest: Chunk)
    requires 0 <= a < 64 && 0 <= b < 64
    ensures Unpack([Symbol(a), Symbol(b)] + rest, []) == Unpack(rest, [a, b])
  {
    AlphabetInverse(a, 0);
    AlphabetInverse(b, 0);
    var t := [Symbol(a), Symbol(b)] + rest;
    assert t[1..] == [Symbol(b)] + rest && t[1..][1..] == rest;
    assert [] + [a] == [a] && [a] + [b] == [a, b];
  }

  /** The four characters of a full quantum. */
  lemma UnpackFull(a: int, b: int, c: int, d: int)
    requires 0 <= a < 64 && 0 <= b < 64 && 0 <= c < 64 && 0 <= d < 64
    ensures Unpack([Symbol(a), Symbol(b), Symbol(c), Symbol(d)], []) == Triple(a, b, c, d)
  {
    UnpackTwo(a, b, [Symbol(c), Symbol(d)]);
    AlphabetInverse(c, 0);
    AlphabetInverse(d, 0);
    assert [a, b] + [c] == [a, b, c];
    assert Unpack([Symbol(c), Symbol(d)], [a, b]) == Unpack([Symbol(d)], [a, b, c]);
  }

  /** A quantum of two bytes: three characters and one `=`. */
  lemma UnpackOnePad(a: int, b: int, c: int)
    requires 0 <= a < 64 && 0 <= b < 64 && 0 <= c < 64
    ensures Unpack([Symbol(a), Symbol(b), Symbol(c), Pad], []) == Leftover([a, b, c])
  {
    UnpackTwo(a, b, [Symbol(c), Pad]);
    AlphabetInverse(c, 0);
    assert [a, b] + [c] == [a, b, c];
    assert Unpack([Symbol(c), Pad], [a, b]) == Unpack([Pad], [a, b, c]);
  }

  /** A quantum of one byte: two characters and two `=`. */
  lemma UnpackTwoPads(a: int, b: int)
    requires 0 <= a < 64 && 0 <= b < 64
    ensures Unpack([Symbol(a), Symbol(b), Pad, Pad], []) == Leftover([a, b])
  {
    UnpackTwo(a, b, [Pad, Pad]);
  }

  /** Regrouping three bytes into four sextets and back loses nothing. */
  lemma Regroup(b0: Byte, b1: Byte, b2: Byte)
    ensures var s1 := (b0 % 4) * 16 + b1 / 16;
      var s2 := (b1 % 16) * 4 + b2 / 64;
      && (b0 / 4) * 4 + s1 / 16 == b0
      && (s1 % 16) * 16 + s2 / 4 == b1
      && (s2 % 4) * 64 + b2 % 64 == b2
  {
  }

  /** The sextets of the quantum of `g`, with missing bytes taken as zero. */
  lemma GroupSymbols(g: Chunk)
    requires 1 <= |g| <= 3
    ensures var b0 := g[0];
      var b1 := if |g| > 1 then g[1] else 0;
      var b2 := if |g| > 2 then g[2] else 0;
      var e := EncodeGroup(g);
      && e[0] == Symbol(b0 / 4)
      && e[1] == Symbol((b0 % 4) * 16 + b1 / 16)
      && (|g| > 1 ==> e[2] == Symbol((b1 % 16) * 4 + b2 / 64))
      && (|g| > 2 ==> e[3] == Symbol(b2 % 64))
  {
  }

  /** Decoding the four characters of a quantum gives back its bytes. */
  lemma DecodeGroup(g: Chunk)
    requires 1 <= |g| <= 3
    ensures Decode64(EncodeGroup(g)) == g
  {
    var b0 := g[0];
    var b1 := if |g| > 1 then g[1] else 0;
    var b2 := if |g| > 2 then g[2] else 0;
    var s0, s1 := b0 / 4, (b0 % 4) * 16 + b1 / 16;
    var s2, s3 := (b1 % 16) * 4 + b2 / 64, b2 % 64;
    Regroup(b0, b1, b2);
    GroupSymbols(g);
    var e := EncodeGroup(g);
    if |g| == 1 {
      assert e == [Symbol(s0), Symbol(s1), Pad, Pad];
      UnpackTwoPads(s0, s1);
    } else if |g| == 2 {
      assert e == [Symbol(s0), Symbol(s1), Symbol(s2), Pad];
      UnpackOnePad(s0, s1, s2);
    } else {
      assert e == [Symbol(s0), Symbol(s1), Symbol(s2), Symbol(s3)];
      UnpackFull(s0, s1, s2, s3);
    }
  }

  /** A decode step inverts an encode step. */
  lemma StepRoundTrip(g: Chunk)
    requires 1 <= |g| <= 3
    ensures |EncodeStep(g)| == 4
    ensures DecodeStep(EncodeStep(g)) == g
  {
    EncodeStepShape(g);
    DecodeGroup(g);
    assert Padded(EncodeGroup(g)) == EncodeGroup(g);
  }

  /** Because the decode step re-pads, a quantum whose `=` padding was dropped still decodes to its bytes. */
  lemma UnpaddedGroup(g: Chunk)
    requires 1 <= |g| <= 3
    ensures DecodeStep(EncodeGroup(g)[..|g| + 1]) == g
  {
    var e := EncodeGroup(g);
    assert Padded(e[..|g| + 1]) == e;
    DecodeGroup(g);
  }
}
