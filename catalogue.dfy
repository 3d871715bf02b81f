/**
 * The classes `functions.rb` defines, in the order the `inherited` hook registers
 * them, with the variant lists they declare, and what the resulting table holds.
 */
module Catalogue {
  import opened Wrappers
  import opened Values
  import opened Registry
  import CipherNames

  /** `OPENSSL_DIGESTS` */
  const OpenSslDigests: seq<string> := ["md2", "md4", "md5", "sha", "sha1", "sha224", "sha256", "sha384", "sha512"]

  /** The empty options Hash `{}`. */
  const NoOptions: Obj := Hash(map[])

  /** `Cat.variants`, as declared: the outer list is missing, so it holds two variants. */
  const CatVariants: seq<Obj> := [Arr([Str("cat"), Str("noop")]), NoOptions]

  /** Digest's variants: each digest name, with itself as the `:variant` option. */
  function DigestVariants(ds: seq<string>): seq<Obj>
  {
    if ds == [] then [] else [Arr([Str(ds[0]), Hash(map["variant" := ds[0]])])] + DigestVariants(ds[1..])
  }

  /** HMAC's variants: each digest name prefixed with `hmac`, with the digest name as the `:variant` option. */
  function HmacVariants(ds: seq<string>): seq<Obj>
  {
    if ds == [] then [] else [Arr([Str("hmac" + ds[0]), Hash(map["variant" := ds[0]])])] + HmacVariants(ds[1..])
  }

  function Aliases(names: seq<string>): Obj
  {
    Arr(seq(|names|, i requires 0 <= i < |names| => Str(names[i])))
  }

  const Base64Names: seq<string> := ["b64", "base64"]
  const Base16Names: seq<string> := ["hex", "hexidecimal", "b16", "base16"]
  const Base8Names: seq<string> := ["oct", "octal", "b8", "base8"]
  /** `Base2` lists `b2` twice. */
  const Base2Names: seq<string> := ["bin", "binary", "b2", "b2"]

  const Base64Variants: seq<Obj> := [Arr([Aliases(Base64Names), NoOptions])]
  const Base16Variants: seq<Obj> := [Arr([Aliases(Base16Names), NoOptions])]
  const Base8Variants: seq<Obj> := [Arr([Aliases(Base8Names), NoOptions])]
  const Base2Variants: seq<Obj> := [Arr([Aliases(Base2Names), NoOptions])]
  const XorVariants: seq<Obj> := [Arr([Str("xor"), NoOptions])]

  /** The classes before `Cipher`, in definition order; `Function` itself is not a subclass and is not registered. */
  function KindsBeforeCipher(): seq<Kind>
  {
    FunctionKinds(OpenSslDigests) + BaseKinds()
  }

  /** `InvertibleFunction`, `Cat`, `Digest` and `HMAC`, for the digest names `ds`. */
  function FunctionKinds(ds: seq<string>): seq<Kind>
  {
    [ Kind(InvertibleFunction, []), Kind(Cat, CatVariants),
      Kind(Digest, DigestVariants(ds)), Kind(HMAC, HmacVariants(ds)) ]
  }

  function BaseKinds(): seq<Kind>
  {
    [ Kind(Base, []), Kind(Base64, Base64Variants), Kind(Base16, Base16Variants),
      Kind(Base8, Base8Variants), Kind(Base2, Base2Variants) ]
  }

  /** The classes after `Cipher`. */
  function KindsAfterCipher(): seq<Kind>
  {
    [Kind(XOR, XorVariants), Kind(StringReader, []), Kind(FileReader, []), Kind(StdInReader, [])]
  }

  /** Every registered class, given the cipher names the linked OpenSSL reports. */
  function DeclaredKinds(openSslCiphers: seq<string>): seq<Kind>
  {
    KindsBeforeCipher() + [Kind(Cipher, CipherNames.Variants(openSslCiphers))] + KindsAfterCipher()
  }

  /** The aliases the cipher names give. */
  function CipherAliases(openSslCiphers: seq<string>): seq<string>
  {
    var u := CipherNames.Uniq(CipherNames.DowncaseAll(openSslCiphers));
    seq(|u|, i requires 0 <= i < |u| => CipherNames.StripDash(u[i]))
  }

  // ---------------------------------------------------------------------------

  lemma {:induction false} LastMentionAppend(a: seq<Kind>, b: seq<Kind>, name: Obj)
    requires NoNilVariant(a) && NoNilVariant(b)
    ensures NoNilVariant(a + b)
    ensures LastMention(a + b, name) == match LastMention(b, name) case Some(e) => Some(e) case None => LastMention(a, name)
    decreases |a|
  {
    assert forall k :: 0 <= k < |a + b| ==> (a + b)[k] == if k < |a| then a[k] else b[k - |a|];
    if a == [] {
      assert a + b == b;
    } else {
      assert (a + b)[1..] == a[1..] + b;
      assert forall k :: 0 <= k < |a[1..]| ==> a[1..][k] == a[k + 1];
      LastMentionAppend(a[1..], b, name);
    }
  }

  /** No cipher variant is `nil`. */
  lemma CipherKindNoNil(openSslCiphers: seq<string>)
    ensures NoNilVariant([Kind(Cipher, CipherNames.Variants(openSslCiphers))])
  {
    var ck := Kind(Cipher, CipherNames.Variants(openSslCiphers));
    CipherNames.VariantsOfNotNil(CipherNames.Uniq(CipherNames.DowncaseAll(openSslCiphers)));
    assert forall k, i :: 0 <= k < |[ck]| && 0 <= i < |[ck][k].variants| ==> [ck][k].variants[i] == ck.variants[i];
  }

  lemma {:induction false} DigestsNotNil(ds: seq<string>)
    ensures forall i :: 0 <= i < |DigestVariants(ds)| ==> !DigestVariants(ds)[i].Nil?
    ensures forall i :: 0 <= i < |HmacVariants(ds)| ==> !HmacVariants(ds)[i].Nil?
  {
    if ds != [] {
      DigestsNotNil(ds[1..]);
    }
  }

  // ---------------------------------------------------------------------------
  // The table, class by class.

  function DigestEntry(d: string): Entry
  {
    Entry(Digest, Hash(map["variant" := d]))
  }

  /** `n` is `"hmac#{d}"` for a digest name `d` of `ds`. */
  predicate IsHmacName(n: Obj, ds: seq<string>)
  {
    n.Str? && |n.s| >= 4 && n.s[..4] == "hmac" && n.s[4..] in ds
  }

  /** What the classes up to `Base2` give a name, written out: a later class wins. */
  function TableBeforeCipher(n: Obj): Option<Entry>
  {
    match BaseTable(n)
    case Some(e) => Some(e)
    case None => FunctionTable(n, OpenSslDigests)
  }

  /** The names of the four codecs, the last class first. */
  function BaseTable(n: Obj): Option<Entry>
  {
    if n.Str? && n.s in Base2Names then Some(Entry(Base2, NoOptions))
    else if n.Str? && n.s in Base8Names then Some(Entry(Base8, NoOptions))
    else if n.Str? && n.s in Base16Names then Some(Entry(Base16, NoOptions))
    else if n.Str? && n.s in Base64Names then Some(Entry(Base64, NoOptions))
    else None
  }

  /** The names of `Cat`, `Digest` and `HMAC`, the last class first. */
  function FunctionTable(n: Obj, ds: seq<string>): Option<Entry>
  {
    if IsHmacName(n, ds) then Some(Entry(HMAC, Hash(map["variant" := n.s[4..]])))
    else if n.Str? && n.s in ds then Some(DigestEntry(n.s))
    else if n == Str("cat") then Some(Entry(Cat, Str("noop")))
    else if n == Nil then Some(Entry(Cat, Nil))
    else None
  }

  lemma {:induction false} FlattenAllFlat(es: seq<Obj>)
    requires forall i :: 0 <= i < |es| ==> !es[i].Arr?
    ensures FlattenAll(es) == es
    decreases |es|
  {
    if es != [] {
      FlattenAllFlat(es[1..]);
      assert es == [es[0]] + es[1..];
    }
  }

  /** A class with one variant listing the aliases `names` and no options. */
  lemma AliasVariantLookup(id: KindId, names: seq<string>, n: Obj)
    ensures LastIn(id, [Arr([Aliases(names), NoOptions])], n)
         == if n.Str? && n.s in names then Some(Entry(id, NoOptions)) else None
  {
    var es := Aliases(names).elems;
    FlattenAllFlat(es);
    assert Names(Arr([Aliases(names), NoOptions])) == es;
    if n.Str? && n.s in names {
      var i :| 0 <= i < |names| && names[i] == n.s;
      assert es[i] == n;
    }
    if n in es {
      var i :| 0 <= i < |es| && es[i] == n;
      assert n.s == names[i];
    }
  }

  lemma {:induction false} DigestLookup(ds: seq<string>, n: Obj)
    ensures forall i :: 0 <= i < |DigestVariants(ds)| ==> !DigestVariants(ds)[i].Nil?
    ensures LastIn(Digest, DigestVariants(ds), n) == if n.Str? && n.s in ds then Some(DigestEntry(n.s)) else None
    decreases |ds|
  {
    DigestsNotNil(ds);
    if ds != [] {
      var vs := DigestVariants(ds);
      assert vs[1..] == DigestVariants(ds[1..]);
      DigestLookup(ds[1..], n);
      assert Names(vs[0]) == [Str(ds[0])];
      assert n.Str? && n.s in ds <==> n == Str(ds[0]) || (n.Str? && n.s in ds[1..]);
    }
  }

  lemma {:induction false} HmacLookup(ds: seq<string>, n: Obj)
    ensures forall i :: 0 <= i < |HmacVariants(ds)| ==> !HmacVariants(ds)[i].Nil?
    ensures LastIn(HMAC, HmacVariants(ds), n)
         == if IsHmacName(n, ds) then Some(Entry(HMAC, Hash(map["variant" := n.s[4..]]))) else None
    decreases |ds|
  {
    DigestsNotNil(ds);
    if ds != [] {
      var vs := HmacVariants(ds);
      assert vs[1..] == HmacVariants(ds[1..]);
      HmacLookup(ds[1..], n);
      var h := "hmac" + ds[0];
      assert Names(vs[0]) == [Str(h)];
      assert h[..4] == "hmac" && h[4..] == ds[0];
      if n.Str? && |n.s| >= 4 && n.s[..4] == "hmac" && n.s[4..] == ds[0] {
        assert n.s == n.s[..4] + n.s[4..];
      }
    }
  }

  lemma CatLookup(n: Obj)
    ensures LastIn(Cat, CatVariants, n)
         == if n == Str("cat") then Some(Entry(Cat, Str("noop"))) else if n == Nil then Some(Entry(Cat, Nil)) else None
  {
    assert Names(CatVariants[0]) == [Str("cat")];
    assert Names(NoOptions) == [Nil];
    assert CatVariants[1..] == [NoOptions];
    assert LastIn(Cat, [NoOptions], n) == if n == Nil then Some(Entry(Cat, Nil)) else None by {
      assert [NoOptions][1..] == [];
    }
  }

  lemma {:induction false} LastMentionCons(k: Kind, ks: seq<Kind>, n: Obj)
    requires forall i :: 0 <= i < |k.variants| ==> !k.variants[i].Nil?
    requires NoNilVariant(ks)
    ensures NoNilVariant([k] + ks)
    ensures LastMention([k] + ks, n) == match LastMention(ks, n) case Some(e) => Some(e) case None => LastIn(k.id, k.variants, n)
  {
    var all := [k] + ks;
    assert all[1..] == ks;
    assert forall j, i :: 0 <= j < |all| && 0 <= i < |all[j].variants| ==>
      all[j].variants[i] == if j == 0 then k.variants[i] else ks[j - 1].variants[i];
  }

  /** `Base8` and `Base2`, the last two codecs. */
  lemma LastCodecsLookup(n: Obj)
    ensures NoNilVariant([Kind(Base8, Base8Variants), Kind(Base2, Base2Variants)])
    ensures LastMention([Kind(Base8, Base8Variants), Kind(Base2, Base2Variants)], n)
         == if n.Str? && n.s in Base2Names then Some(Entry(Base2, NoOptions))
            else if n.Str? && n.s in Base8Names then Some(Entry(Base8, NoOptions))
            else None
  {
    var k3, k4 := Kind(Base8, Base8Variants), Kind(Base2, Base2Variants);
    AliasVariantLookup(Base2, Base2Names, n);
    AliasVariantLookup(Base8, Base8Names, n);
    LastMentionCons(k4, [], n);
    LastMentionCons(k3, [k4], n);
    assert [k3, k4] == [k3] + [k4];
  }

  lemma BaseKindsLookup(n: Obj)
    ensures NoNilVariant(BaseKinds())
    ensures LastMention(BaseKinds(), n) == BaseTable(n)
  {
    var k0, k1, k2 := Kind(Base, []), Kind(Base64, Base64Variants), Kind(Base16, Base16Variants);
    var k3, k4 := Kind(Base8, Base8Variants), Kind(Base2, Base2Variants);
    LastCodecsLookup(n);
    AliasVariantLookup(Base16, Base16Names, n);
    AliasVariantLookup(Base64, Base64Names, n);
    LastMentionCons(k2, [k3, k4], n);
    LastMentionCons(k1, [k2, k3, k4], n);
    LastMentionCons(k0, [k1, k2, k3, k4], n);
    assert BaseKinds() == [k0] + [k1, k2, k3, k4];
  }

  lemma FunctionKindsLookup(ds: seq<string>, n: Obj)
    ensures NoNilVariant(FunctionKinds(ds))
    ensures LastMention(FunctionKinds(ds), n) == FunctionTable(n, ds)
  {
    var k0, k1 := Kind(InvertibleFunction, []), Kind(Cat, CatVariants);
    var k2, k3 := Kind(Digest, DigestVariants(ds)), Kind(HMAC, HmacVariants(ds));
    DigestsNotNil(ds);
    HmacLookup(ds, n);
    DigestLookup(ds, n);
    CatLookup(n);
    LastMentionCons(k3, [], n);
    LastMentionCons(k2, [k3], n);
    LastMentionCons(k1, [k2, k3], n);
    LastMentionCons(k0, [k1, k2, k3], n);
    assert FunctionKinds(ds) == [k0] + [k1, k2, k3];
  }

  /** The classes up to `Base2` give every name what `TableBeforeCipher` says. */
  lemma BeforeCipherLookup(n: Obj)
    ensures NoNilVariant(KindsBeforeCipher())
    ensures LastMention(KindsBeforeCipher(), n) == TableBeforeCipher(n)
  {
    BaseKindsLookup(n);
    FunctionKindsLookup(OpenSslDigests, n);
    LastMentionAppend(FunctionKinds(OpenSslDigests), BaseKinds(), n);
  }

  /** What the cipher variants give a name, if anything. */
  function CipherTable(openSslCiphers: seq<string>, n: Obj): Option<Entry>
  {
    CipherNames.VariantsOfNotNil(CipherNames.Uniq(CipherNames.DowncaseAll(openSslCiphers)));
    LastIn(Cipher, CipherNames.Variants(openSslCiphers), n)
  }

  /** The classes after `Cipher` mention only `xor`. */
  lemma AfterCipherLookup(n: Obj)
    ensures NoNilVariant(KindsAfterCipher())
    ensures LastMention(KindsAfterCipher(), n) == if n == Str("xor") then Some(Entry(XOR, NoOptions)) else None
  {
    var k0, k1, k2, k3 := Kind(XOR, XorVariants), Kind(StringReader, []), Kind(FileReader, []), Kind(StdInReader, []);
    assert Names(XorVariants[0]) == [Str("xor")];
    assert XorVariants[1..] == [];
    LastMentionCons(k3, [], n);
    LastMentionCons(k2, [k3], n);
    LastMentionCons(k1, [k2, k3], n);
    LastMentionCons(k0, [k1, k2, k3], n);
    assert KindsAfterCipher() == [k0] + [k1, k2, k3];
  }

  /** Registration in three runs: a name takes its entry from the last run that mentions it. */
  lemma ThreeRunsLookup(a: seq<Kind>, k: Kind, c: seq<Kind>, n: Obj)
    requires NoNilVariant(a) && NoNilVariant([k]) && NoNilVariant(c)
    ensures NoNilVariant(a + [k] + c)
    ensures LastMention(a + [k] + c, n)
         == match LastMention(c, n)
            case Some(e) => Some(e)
            case None =>
              match LastMention([k], n)
              case Some(e) => Some(e)
              case None => LastMention(a, n)
  {
    LastMentionAppend(a, [k], n);
    LastMentionAppend(a + [k], c, n);
  }

  /**
   * The registry built from the declared classes: `xor` is XOR's, a cipher alias
   * is the cipher's, and every other name is what the classes before `Cipher` give it.
   */
  lemma DeclaredLookup(openSslCiphers: seq<string>, n: Obj)
    ensures Build(DeclaredKinds(openSslCiphers)).Success?
    ensures Get(Build(DeclaredKinds(openSslCiphers)).value, n)
         == if n == Str("xor") then Some(Entry(XOR, NoOptions))
            else match CipherTable(openSslCiphers, n)
                 case Some(e) => Some(e)
                 case None => TableBeforeCipher(n)
  {
    var ck := Kind(Cipher, CipherNames.Variants(openSslCiphers));
    CipherKindNoNil(openSslCiphers);
    BeforeCipherLookup(n);
    AfterCipherLookup(n);
    ThreeRunsLookup(KindsBeforeCipher(), ck, KindsAfterCipher(), n);
    LookupIsLastMention(DeclaredKinds(openSslCiphers), n);
    assert [ck][1..] == [];
    assert LastMention([ck], n) == CipherTable(openSslCiphers, n);
  }

  /** Only the classes after `Cipher` can overwrite a name: `xor` always looks up to XOR. */
  lemma DeclaredXor(openSslCiphers: seq<string>)
    ensures Build(DeclaredKinds(openSslCiphers)).Success?
    ensures Get(Build(DeclaredKinds(openSslCiphers)).value, Str("xor")) == Some(Entry(XOR, NoOptions))
  {
    DeclaredLookup(openSslCiphers, Str("xor"));
  }

  /** Every cipher alias other than `xor` looks up to the cipher of the last lower-cased name with that alias. */
  lemma DeclaredCipherAlias(openSslCiphers: seq<string>, alias: string, i: nat)
    requires alias != "xor"
    requires var u := CipherNames.Uniq(CipherNames.DowncaseAll(openSslCiphers));
      && i < |u| && CipherNames.StripDash(u[i]) == alias
      && forall j :: i < j < |u| ==> CipherNames.StripDash(u[j]) != alias
    ensures Build(DeclaredKinds(openSslCiphers)).Success?
    ensures var u := CipherNames.Uniq(CipherNames.DowncaseAll(openSslCiphers));
      Get(Build(DeclaredKinds(openSslCiphers)).value, Str(alias)) == Some(Entry(Cipher, Hash(map["variant" := u[i]])))
  {
    var u := CipherNames.Uniq(CipherNames.DowncaseAll(openSslCiphers));
    DeclaredLookup(openSslCiphers, Str(alias));
    CipherNames.CipherAliasLast(u, alias, i);
  }

  /** A declared name that is no cipher alias looks up as the classes before `Cipher` give it. */
  lemma DeclaredNonCipherName(openSslCiphers: seq<string>, n: Obj)
    requires n != Str("xor")
    requires forall a :: a in CipherAliases(openSslCiphers) ==> Str(a) != n
    ensures Build(DeclaredKinds(openSslCiphers)).Success?
    ensures Get(Build(DeclaredKinds(openSslCiphers)).value, n) == TableBeforeCipher(n)
  {
    var u := CipherNames.Uniq(CipherNames.DowncaseAll(openSslCiphers));
    assert forall i :: 0 <= i < |u| ==> CipherAliases(openSslCiphers)[i] == CipherNames.StripDash(u[i]);
    DeclaredLookup(openSslCiphers, n);
    CipherNames.CipherAliasAbsent(u, n);
    assert CipherTable(openSslCiphers, n) == None;
  }

  /** `nil` is a key of the table, from Cat's bare `{}` variant, whatever ciphers OpenSSL lists. */
  lemma DeclaredNilKey(openSslCiphers: seq<string>)
    ensures Build(DeclaredKinds(openSslCiphers)).Success?
    ensures Get(Build(DeclaredKinds(openSslCiphers)).value, Nil) == Some(Entry(Cat, Nil))
  {
    DeclaredNonCipherName(openSslCiphers, Nil);
  }

  /** No digest name, with or without `hmac` before it, is also a codec name. */
  lemma DigestNamesBeforeCipher(d: string)
    requires d in OpenSslDigests
    ensures TableBeforeCipher(Str(d)) == Some(DigestEntry(d))
    ensures TableBeforeCipher(Str("hmac" + d)) == Some(Entry(HMAC, Hash(map["variant" := d])))
  {
    var h := "hmac" + d;
    assert h[..4] == "hmac" && h[4..] == d;
    assert BaseTable(Str(h)) == None;
    assert !IsHmacName(Str(d), OpenSslDigests);
    assert BaseTable(Str(d)) == None;
  }

  /** Each digest name looks up to Digest with that `:variant`, and `hmac` before it to HMAC. */
  lemma DeclaredDigest(openSslCiphers: seq<string>, d: string)
    requires d in OpenSslDigests
    requires d !in CipherAliases(openSslCiphers) && "hmac" + d !in CipherAliases(openSslCiphers)
    ensures Build(DeclaredKinds(openSslCiphers)).Success?
    ensures Get(Build(DeclaredKinds(openSslCiphers)).value, Str(d)) == Some(Entry(Digest, Hash(map["variant" := d])))
    ensures Get(Build(DeclaredKinds(openSslCiphers)).value, Str("hmac" + d)) == Some(Entry(HMAC, Hash(map["variant" := d])))
  {
    DigestNamesBeforeCipher(d);
    var h := "hmac" + d;
    DeclaredNonCipherName(openSslCiphers, Str(d));
    DeclaredNonCipherName(openSslCiphers, Str(h));
  }

  /** `b2`, listed twice by Base2, looks up to Base2 like its other aliases. */
  lemma DeclaredBase2(openSslCiphers: seq<string>, name: string)
    requires name in Base2Names && name !in CipherAliases(openSslCiphers)
    ensures Build(DeclaredKinds(openSslCiphers)).Success?
    ensures Get(Build(DeclaredKinds(openSslCiphers)).value, Str(name)) == Some(Entry(Base2, NoOptions))
  {
    Base2BeforeCipher(name);
    DeclaredNonCipherName(openSslCiphers, Str(name));
  }

  lemma Base2BeforeCipher(name: string)
    requires name in Base2Names
    ensures TableBeforeCipher(Str(name)) == Some(Entry(Base2, NoOptions))
  {
  }

  // ---------------------------------------------------------------------------
  // Cat's variant list.

  /**
   * As declared, `cat` is registered with the string `'noop'` as its option
   * fragment, `nil` is registered for Cat, and `noop` is not registered at all.
   */
  lemma CatAsDeclared(openSslCiphers: seq<string>)
    requires "cat" !in CipherAliases(openSslCiphers) && "noop" !in CipherAliases(openSslCiphers)
    ensures Build(DeclaredKinds(openSslCiphers)).Success?
    ensures Get(Build(DeclaredKinds(openSslCiphers)).value, Str("cat")) == Some(Entry(Cat, Str("noop")))
    ensures Get(Build(DeclaredKinds(openSslCiphers)).value, Str("noop")) == None
    ensures Get(Build(DeclaredKinds(openSslCiphers)).value, Nil) == Some(Entry(Cat, Nil))
  {
    CatBeforeCipher();
    DeclaredNonCipherName(openSslCiphers, Str("cat"));
    DeclaredNonCipherName(openSslCiphers, Str("noop"));
    DeclaredNilKey(openSslCiphers);
  }

  lemma CatBeforeCipher()
    ensures TableBeforeCipher(Str("cat")) == Some(Entry(Cat, Str("noop")))
    ensures TableBeforeCipher(Str("noop")) == None
  {
    assert !IsHmacName(Str("cat"), OpenSslDigests);
    assert !IsHmacName(Str("noop"), OpenSslDigests);
  }

  /** Cat's variant list with the outer list the other classes use: `[[['cat','noop'], {}]]`. */
  const IntendedCatVariants: seq<Obj> := [Arr([Aliases(["cat", "noop"]), NoOptions])]

  /** With the outer list, both aliases look up to Cat with no options, and `nil` is not registered. */
  lemma IntendedCatLookup(n: Obj)
    ensures LastIn(Cat, IntendedCatVariants, n)
         == if n == Str("cat") || n == Str("noop") then Some(Entry(Cat, NoOptions)) else None
  {
    AliasVariantLookup(Cat, ["cat", "noop"], n);
  }
}
