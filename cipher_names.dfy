/**
 * `Cipher.variants`: the names OpenSSL lists are lower-cased, duplicates are
 * dropped keeping the first occurrence, and each remaining name `c` becomes the
 * variant `[alias, {variant: c}]` whose alias is `c` with every `-` removed.
 */
module CipherNames {
  import opened Wrappers
  import opened Values
  import opened Registry

  /** `downcase` on one character; OpenSSL cipher names are ASCII. */
  function LowerChar(c: char): char
  {
    if 'A' <= c <= 'Z' then (c as int + 32) as char else c
  }

  /** `c.downcase` */
  function Downcase(s: string): string
  {
    if s == [] then [] else [LowerChar(s[0])] + Downcase(s[1..])
  }

  /** Every name lower-cased, in order. */
  function DowncaseAll(names: seq<string>): seq<string>
  {
    if names == [] then [] else [Downcase(names[0])] + DowncaseAll(names[1..])
  }

  /** `uniq`: the first occurrence of every element, in order. */
  function Uniq<T(==)>(s: seq<T>): seq<T>
    decreases |s|
  {
    if s == [] then []
    else
      var u := Uniq(s[..|s| - 1]);
      if s[|s| - 1] in u then u else u + [s[|s| - 1]]
  }

  /** `c.gsub(/-/, "")` */
  function StripDash(s: string): string
  {
    if s == [] then [] else (if s[0] == '-' then [] else [s[0]]) + StripDash(s[1..])
  }

  /** One cipher variant: `[c.gsub(/-/, ""), {:variant => c}]`. */
  function CipherVariant(c: string): Obj
  {
    Arr([Str(StripDash(c)), Hash(map["variant" := c])])
  }

  function VariantsOf(u: seq<string>): seq<Obj>
  {
    if u == [] then [] else [CipherVariant(u[0])] + VariantsOf(u[1..])
  }

  /** `Cipher.variants` for the list of names OpenSSL reports. */
  function Variants(openSslNames: seq<string>): seq<Obj>
  {
    VariantsOf(Uniq(DowncaseAll(openSslNames)))
  }

  /** The index of the first occurrence of `x` in `s`. */
  function FirstIndex<T(==)>(s: seq<T>, x: T): (i: nat)
    requires x in s
    ensures i < |s| && s[i] == x
  {
    if s[0] == x then 0 else 1 + FirstIndex(s[1..], x)
  }

  // ---------------------------------------------------------------------------

  /** A lower-cased name has the same length, no upper-case letter, and every other character unchanged. */
  lemma {:induction false} DowncaseSpec(s: string)
    ensures |Downcase(s)| == |s|
    ensures forall i :: 0 <= i < |s| ==> !('A' <= Downcase(s)[i] <= 'Z')
    ensures forall i :: 0 <= i < |s| && !('A' <= s[i] <= 'Z') ==> Downcase(s)[i] == s[i]
    ensures forall i :: 0 <= i < |s| && 'A' <= s[i] <= 'Z' ==> Downcase(s)[i] as int == s[i] as int + 32
  {
    if s != [] {
      DowncaseSpec(s[1..]);
      assert forall i :: 1 <= i < |s| ==> Downcase(s)[i] == Downcase(s[1..])[i - 1];
    }
  }

  /** `map{|c| c.downcase}` keeps the number of names and lower-cases each one in place. */
  lemma {:induction false} DowncaseAllSpec(names: seq<string>)
    ensures |DowncaseAll(names)| == |names|
    ensures forall i :: 0 <= i < |names| ==> DowncaseAll(names)[i] == Downcase(names[i])
    decreases |names|
  {
    if names != [] {
      DowncaseAllSpec(names[1..]);
      assert forall i :: 1 <= i < |names| ==> DowncaseAll(names)[i] == DowncaseAll(names[1..])[i - 1];
    }
  }

  /** Lower-casing twice is lower-casing once. */
  lemma {:induction false} DowncaseIdempotent(s: string)
    ensures Downcase(Downcase(s)) == Downcase(s)
  {
    if s != [] {
      DowncaseIdempotent(s[1..]);
      assert Downcase(s)[1..] == Downcase(s[1..]);
    }
  }

  /** `uniq` keeps exactly the elements of its input. */
  lemma {:induction false} UniqElements<T>(s: seq<T>)
    ensures forall x :: x in Uniq(s) <==> x in s
    decreases |s|
  {
    if s != [] {
      var init := s[..|s| - 1];
      UniqElements(init);
      assert s == init + [s[|s| - 1]];
    }
  }

  /** `uniq` returns no element twice. */
  lemma {:induction false} UniqDistinct<T>(s: seq<T>)
    ensures forall i, j :: 0 <= i < j < |Uniq(s)| ==> Uniq(s)[i] != Uniq(s)[j]
    decreases |s|
  {
    if s != [] {
      UniqDistinct(s[..|s| - 1]);
    }
  }

  /** The elements of `u` occur in `s`, and in `u` in the order of their first occurrences in `s`. */
  predicate InFirstOrder<T(==)>(s: seq<T>, u: seq<T>)
  {
    && (forall x :: x in u ==> x in s)
    && forall i, j :: 0 <= i < j < |u| ==> FirstIndex(s, u[i]) < FirstIndex(s, u[j])
  }

  /** `uniq` lists the elements in the order of their first occurrences. */
  lemma {:induction false} UniqFirstOrder<T>(s: seq<T>)
    ensures InFirstOrder(s, Uniq(s))
    decreases |s|
  {
    if s != [] {
      var init := s[..|s| - 1];
      var last := s[|s| - 1];
      assert s == init + [last];
      UniqFirstOrder(init);
      UniqElements(init);
      InFirstOrderAppend(init, last, Uniq(init));
    }
  }

  lemma InFirstOrderAppend<T>(init: seq<T>, x: T, u: seq<T>)
    requires InFirstOrder(init, u)
    requires x in u <==> x in init
    ensures InFirstOrder(init + [x], u)
    ensures x !in u ==> InFirstOrder(init + [x], u + [x])
  {
    var s := init + [x];
    forall i | 0 <= i < |u| ensures FirstIndex(s, u[i]) == FirstIndex(init, u[i]) && FirstIndex(init, u[i]) < |init| {
      FirstIndexAppend(init, x, u[i]);
    }
    if x !in u {
      FirstIndexAppendNew(init, x);
      var v := u + [x];
      forall i, j | 0 <= i < j < |v| ensures FirstIndex(s, v[i]) < FirstIndex(s, v[j]) {
        assert v[i] == u[i];
        if j < |u| {
          assert v[j] == u[j];
        }
      }
    }
  }

  /** Appending an element does not move the first occurrence of an element already present. */
  lemma {:induction false} FirstIndexAppend<T>(init: seq<T>, x: T, y: T)
    requires y in init
    ensures FirstIndex(init + [x], y) == FirstIndex(init, y)
    decreases |init|
  {
    if init[0] != y {
      assert (init + [x])[1..] == init[1..] + [x];
      FirstIndexAppend(init[1..], x, y);
    }
  }

  lemma {:induction false} FirstIndexAppendNew<T>(init: seq<T>, x: T)
    requires x !in init
    ensures FirstIndex(init + [x], x) == |init|
    decreases |init|
  {
    if init != [] {
      assert (init + [x])[1..] == init[1..] + [x];
      FirstIndexAppendNew(init[1..], x);
    }
  }

  /** An alias has no `-`, and every other character of the name survives with its count. */
  lemma {:induction false} StripDashSpec(s: string)
    ensures '-' !in StripDash(s)
    ensures forall c :: c != '-' ==> multiset(StripDash(s))[c] == multiset(s)[c]
    ensures |StripDash(s)| == |s| - multiset(s)['-']
    ensures '-' !in s ==> StripDash(s) == s
  {
    if s != [] {
      StripDashSpec(s[1..]);
      assert s == [s[0]] + s[1..];
      assert multiset(s) == multiset([s[0]]) + multiset(s[1..]);
    }
  }

  /** Removing `-` from joined strings removes it from each part, so the kept characters keep their order. */
  lemma {:induction false} StripDashAppend(a: string, b: string)
    ensures StripDash(a + b) == StripDash(a) + StripDash(b)
    decreases |a|
  {
    if a == [] {
      assert a + b == b;
    } else {
      assert (a + b)[0] == a[0];
      assert (a + b)[1..] == a[1..] + b;
      StripDashAppend(a[1..], b);
    }
  }

  /** A single character is dropped exactly when it is `-`. */
  lemma StripDashChar(c: char)
    ensures StripDash([c]) == if c == '-' then [] else [c]
  {
  }

  lemma {:induction false} VariantsOfNotNil(u: seq<string>)
    ensures |VariantsOf(u)| == |u|
    ensures forall i :: 0 <= i < |u| ==> VariantsOf(u)[i] == CipherVariant(u[i])
    decreases |u|
  {
    if u != [] {
      VariantsOfNotNil(u[1..]);
    }
  }

  /** The first cipher variant names the first alias, and the rest are the variants of the other names. */
  lemma VariantsOfCons(u: seq<string>)
    requires u != []
    ensures !VariantsOf(u)[0].Nil?
    ensures VariantsOf(u)[1..] == VariantsOf(u[1..])
    ensures Names(VariantsOf(u)[0]) == [Str(StripDash(u[0]))]
    ensures Index(VariantsOf(u)[0], 1) == Hash(map["variant" := u[0]])
  {
  }

  /** A value that is the alias of no name of `u` is not among the cipher variants of `u`. */
  lemma {:induction false} CipherAliasAbsent(u: seq<string>, n: Obj)
    requires forall i :: 0 <= i < |u| ==> Str(StripDash(u[i])) != n
    ensures forall i :: 0 <= i < |VariantsOf(u)| ==> !VariantsOf(u)[i].Nil?
    ensures LastIn(Cipher, VariantsOf(u), n) == None
    decreases |u|
  {
    VariantsOfNotNil(u);
    if u != [] {
      VariantsOfCons(u);
      assert forall i :: 0 <= i < |u[1..]| ==> u[1..][i] == u[i + 1];
      CipherAliasAbsent(u[1..], n);
    }
  }

  /** When the first name is the only one with the alias, the alias looks up to it. */
  lemma CipherAliasFirst(u: seq<string>, alias: string)
    requires u != [] && StripDash(u[0]) == alias
    requires forall j :: 0 < j < |u| ==> StripDash(u[j]) != alias
    ensures forall k :: 0 <= k < |VariantsOf(u)| ==> !VariantsOf(u)[k].Nil?
    ensures LastIn(Cipher, VariantsOf(u), Str(alias)) == Some(Entry(Cipher, Hash(map["variant" := u[0]])))
  {
    VariantsOfNotNil(u);
    VariantsOfCons(u);
    assert forall j :: 0 <= j < |u[1..]| ==> u[1..][j] == u[j + 1];
    CipherAliasAbsent(u[1..], Str(alias));
  }

  /**
   * A string looks up, among the cipher variants of `u`, to `{variant: c}` for
   * the last name `c` of `u` whose alias it is.
   */
  lemma {:induction false} CipherAliasLast(u: seq<string>, alias: string, i: nat)
    requires i < |u| && StripDash(u[i]) == alias
    requires forall j :: i < j < |u| ==> StripDash(u[j]) != alias
    ensures forall k :: 0 <= k < |VariantsOf(u)| ==> !VariantsOf(u)[k].Nil?
    ensures LastIn(Cipher, VariantsOf(u), Str(alias)) == Some(Entry(Cipher, Hash(map["variant" := u[i]])))
    decreases |u|
  {
    if i > 0 {
      VariantsOfNotNil(u);
      VariantsOfCons(u);
      assert forall j :: i - 1 < j < |u[1..]| ==> u[1..][j] == u[j + 1];
      CipherAliasLast(u[1..], alias, i - 1);
    } else {
      CipherAliasFirst(u, alias);
    }
  }
}
