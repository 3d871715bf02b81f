/**
 * The registry of transform classes: `register` appends a class, `setup`
 * flattens every class's variant list into one table from name to
 * `[class, option fragment]`, and `Functions[name]` looks a name up.
 */
module Registry {
  import opened Wrappers
  import opened Values

  /** The subclasses of `Function`, which the `inherited` hook registers. */
  datatype KindId =
    | InvertibleFunction | Cat | Digest | HMAC | Base | Base64 | Base16 | Base8 | Base2
    | Cipher | XOR | StringReader | FileReader | StdInReader

  /** A registered class together with the list its `variants` returns. */
  datatype Kind = Kind(id: KindId, variants: seq<Obj>)

  /** What a name looks up to: the class and the variant's second element, `[c, v[1]]`. */
  datatype Entry = Entry(kind: KindId, fragment: Obj)

  /** Each variant of one class, paired with the class. */
  function Tag(id: KindId, vs: seq<Obj>): seq<(KindId, Obj)>
  {
    seq(|vs|, i requires 0 <= i < |vs| => (id, vs[i]))
  }

  /** Every variant of every registered class, in registration order, paired with its class. */
  function ClassVariants(kinds: seq<Kind>): seq<(KindId, Obj)>
  {
    if kinds == [] then [] else Tag(kinds[0].id, kinds[0].variants) + ClassVariants(kinds[1..])
  }

  /** No variant is `nil`, so `v[0]` and `v[1]` can be evaluated on every one. */
  predicate Indexable(cvs: seq<(KindId, Obj)>)
  {
    forall i :: 0 <= i < |cvs| ==> !cvs[i].1.Nil?
  }

  /** The same condition stated on the classes. */
  predicate NoNilVariant(kinds: seq<Kind>)
  {
    forall k, i :: 0 <= k < |kinds| && 0 <= i < |kinds[k].variants| ==> !kinds[k].variants[i].Nil?
  }

  /** The names a variant declares: `[v[0]].flatten`. */
  function Names(v: Obj): seq<Obj>
    requires !v.Nil?
  {
    Flatten(Index(v, 0))
  }

  /** Each name a variant declares, paired with the variant's class and second element. */
  function NamePairs(cv: (KindId, Obj)): seq<(Obj, Entry)>
    requires !cv.1.Nil?
  {
    Label(Names(cv.1), Entry(cv.0, Index(cv.1, 1)))
  }

  /** Each name paired with the entry `e`. */
  function Label(names: seq<Obj>, e: Entry): seq<(Obj, Entry)>
  {
    if names == [] then [] else [(names[0], e)] + Label(names[1..], e)
  }

  /** The name-entry pairs of all tagged variants, in order. */
  function Pairs(cvs: seq<(KindId, Obj)>): seq<(Obj, Entry)>
    requires Indexable(cvs)
  {
    if cvs == [] then [] else NamePairs(cvs[0]) + Pairs(cvs[1..])
  }

  /** `Hash[pairs]`: pairs are inserted in order, so a later pair overwrites an earlier one. */
  function HashOf(ps: seq<(Obj, Entry)>): map<Obj, Entry>
  {
    if ps == [] then map[] else HashOf(ps[..|ps| - 1])[ps[|ps| - 1].0 := ps[|ps| - 1].1]
  }

  /** The table `setup` assigns; `v[0]` on a `nil` variant raises NoMethodError instead. */
  function Build(kinds: seq<Kind>): Result<map<Obj, Entry>, Error>
  {
    var cvs := ClassVariants(kinds);
    if Indexable(cvs) then Success(HashOf(Pairs(cvs))) else Failure(NoMethodError)
  }

  function Get(m: map<Obj, Entry>, name: Obj): Option<Entry>
  {
    if name in m then Some(m[name]) else None
  }

  // ---------------------------------------------------------------------------
  // Reference definition: the last variant that mentions a name.

  /** The entry from the last of the variants `vs` of class `id` whose names include `name`. */
  function LastIn(id: KindId, vs: seq<Obj>, name: Obj): Option<Entry>
    requires forall i :: 0 <= i < |vs| ==> !vs[i].Nil?
  {
    if vs == [] then None
    else
      match LastIn(id, vs[1..], name)
      case Some(e) => Some(e)
      case None => if name in Names(vs[0]) then Some(Entry(id, Index(vs[0], 1))) else None
  }

  /** The entry from the last variant, over all classes in registration order, that mentions `name`. */
  function LastMention(kinds: seq<Kind>, name: Obj): Option<Entry>
    requires NoNilVariant(kinds)
  {
    if kinds == [] then None
    else
      match LastMention(kinds[1..], name)
      case Some(e) => Some(e)
      case None => LastIn(kinds[0].id, kinds[0].variants, name)
  }

  // ---------------------------------------------------------------------------
  // Properties of the table.

  /** `Hash[a + b]` is `Hash[a]` overwritten by `Hash[b]`. */
  lemma {:induction false} HashOfAppend(a: seq<(Obj, Entry)>, b: seq<(Obj, Entry)>)
    ensures HashOf(a + b) == HashOf(a) + HashOf(b)
    decreases |b|
  {
    if b == [] {
      assert a + b == a;
    } else {
      var b' := b[..|b| - 1];
      assert (a + b)[..|a + b| - 1] == a + b';
      assert (a + b)[|a + b| - 1] == b[|b| - 1];
      HashOfAppend(a, b');
    }
  }

  /** `Hash[pairs]` holds a key exactly when some pair has it, and then the value of the last such pair. */
  lemma {:induction false} HashOfLastWins(ps: seq<(Obj, Entry)>, name: Obj)
    ensures name !in HashOf(ps) <==> forall i :: 0 <= i < |ps| ==> ps[i].0 != name
    ensures forall i :: 0 <= i < |ps| && ps[i].0 == name && (forall j :: i < j < |ps| ==> ps[j].0 != name)
                ==> name in HashOf(ps) && HashOf(ps)[name] == ps[i].1
    decreases |ps|
  {
    if ps != [] {
      var ps' := ps[..|ps| - 1];
      HashOfLastWins(ps', name);
      assert forall i :: 0 <= i < |ps'| ==> ps'[i] == ps[i];
    }
  }

  lemma {:induction false} ClassVariantsIndexable(kinds: seq<Kind>)
    ensures Indexable(ClassVariants(kinds)) <==> NoNilVariant(kinds)
    decreases |kinds|
  {
    if kinds != [] {
      var rest := kinds[1..];
      ClassVariantsIndexable(rest);
      var vs := kinds[0].variants;
      var t := Tag(kinds[0].id, vs);
      var cvs := t + ClassVariants(rest);
      assert Indexable(cvs) <==> (forall i :: 0 <= i < |vs| ==> !vs[i].Nil?) && Indexable(ClassVariants(rest)) by {
        assert |t| == |vs|;
        assert forall i :: 0 <= i < |t| ==> cvs[i] == t[i] && t[i].1 == vs[i];
        assert forall i :: |t| <= i < |cvs| ==> cvs[i] == ClassVariants(rest)[i - |t|];
        if Indexable(cvs) {
          forall i | 0 <= i < |ClassVariants(rest)| ensures !ClassVariants(rest)[i].1.Nil? {
            assert ClassVariants(rest)[i] == cvs[i + |t|];
          }
          forall i | 0 <= i < |vs| ensures !vs[i].Nil? {
            assert cvs[i].1 == vs[i];
          }
        }
      }
      assert NoNilVariant(kinds) <==> (forall i :: 0 <= i < |vs| ==> !vs[i].Nil?) && NoNilVariant(rest) by {
        assert forall k, i :: 0 <= k < |rest| && 0 <= i < |rest[k].variants| ==>
          rest[k].variants[i] == kinds[k + 1].variants[i];
        if !NoNilVariant(kinds) {
          var k, i :| 0 <= k < |kinds| && 0 <= i < |kinds[k].variants| && kinds[k].variants[i].Nil?;
          if k > 0 {
            assert rest[k - 1].variants[i].Nil?;
          }
        }
      }
    }
  }

  lemma {:induction false} PairsAppend(a: seq<(KindId, Obj)>, b: seq<(KindId, Obj)>)
    requires Indexable(a) && Indexable(b)
    ensures Indexable(a + b)
    ensures Pairs(a + b) == Pairs(a) + Pairs(b)
    decreases |a|
  {
    assert forall i :: 0 <= i < |a + b| ==> (a + b)[i] == if i < |a| then a[i] else b[i - |a|];
    if a == [] {
      assert a + b == b;
    } else {
      assert (a + b)[1..] == a[1..] + b;
      PairsAppend(a[1..], b);
    }
  }

  lemma {:induction false} LabelLookup(names: seq<Obj>, e: Entry, name: Obj)
    ensures Get(HashOf(Label(names, e)), name) == if name in names then Some(e) else None
    decreases |names|
  {
    if names != [] {
      LabelLookup(names[1..], e, name);
      HashOfAppend([(names[0], e)], Label(names[1..], e));
      assert HashOf([(names[0], e)]) == map[names[0] := e];
      assert name in names <==> name == names[0] || name in names[1..];
    }
  }

  lemma {:induction false} TagLookup(id: KindId, vs: seq<Obj>, name: Obj)
    requires forall i :: 0 <= i < |vs| ==> !vs[i].Nil?
    ensures Indexable(Tag(id, vs))
    ensures Get(HashOf(Pairs(Tag(id, vs))), name) == LastIn(id, vs, name)
    decreases |vs|
  {
    if vs != [] {
      var t := Tag(id, vs);
      assert t == [(id, vs[0])] + Tag(id, vs[1..]);
      TagLookup(id, vs[1..], name);
      PairsAppend([(id, vs[0])], Tag(id, vs[1..]));
      assert Pairs([(id, vs[0])]) == NamePairs((id, vs[0]));
      HashOfAppend(NamePairs((id, vs[0])), Pairs(Tag(id, vs[1..])));
      LabelLookup(Names(vs[0]), Entry(id, Index(vs[0], 1)), name);
    }
  }

  /**
   * After `setup`, a name looks up to the entry of the last variant that mentions it,
   * and to `nil` when no variant does; `setup` raises exactly when some variant is `nil`.
   */
  lemma {:induction false} LookupIsLastMention(kinds: seq<Kind>, name: Obj)
    ensures Build(kinds).Success? <==> NoNilVariant(kinds)
    ensures Build(kinds).Success? ==> Get(Build(kinds).value, name) == LastMention(kinds, name)
    decreases |kinds|
  {
    ClassVariantsIndexable(kinds);
    if kinds != [] && NoNilVariant(kinds) {
      var rest := kinds[1..];
      assert NoNilVariant(rest) by {
        assert forall k, i :: 0 <= k < |rest| && 0 <= i < |rest[k].variants| ==>
          rest[k].variants[i] == kinds[k + 1].variants[i];
      }
      assert forall i :: 0 <= i < |kinds[0].variants| ==> !kinds[0].variants[i].Nil? by {
        assert forall i :: 0 <= i < |kinds[0].variants| ==> kinds[0].variants[i] == kinds[0].variants[i];
      }
      LookupIsLastMention(rest, name);
      ClassVariantsIndexable(rest);
      TagLookup(kinds[0].id, kinds[0].variants, name);
      var t := Tag(kinds[0].id, kinds[0].variants);
      PairsAppend(t, ClassVariants(rest));
      HashOfAppend(Pairs(t), Pairs(ClassVariants(rest)));
    }
  }

  /** A name that no variant mentions is absent from the table. */
  lemma {:induction false} UnmentionedIsAbsent(kinds: seq<Kind>, name: Obj)
    requires NoNilVariant(kinds)
    ensures LastMention(kinds, name) == None <==>
      forall k, i :: 0 <= k < |kinds| && 0 <= i < |kinds[k].variants| ==> name !in Names(kinds[k].variants[i])
    decreases |kinds|
  {
    if kinds != [] {
      var rest := kinds[1..];
      assert forall k, i :: 0 <= k < |rest| && 0 <= i < |rest[k].variants| ==>
        rest[k].variants[i] == kinds[k + 1].variants[i];
      UnmentionedIsAbsent(rest, name);
      LastInNone(kinds[0].id, kinds[0].variants, name);
      if LastMention(kinds, name) == None {
        forall k, i | 0 <= k < |kinds| && 0 <= i < |kinds[k].variants|
          ensures name !in Names(kinds[k].variants[i])
        {
          if k > 0 {
            assert kinds[k].variants[i] == rest[k - 1].variants[i];
          }
        }
      }
    }
  }

  lemma {:induction false} LastInNone(id: KindId, vs: seq<Obj>, name: Obj)
    requires forall i :: 0 <= i < |vs| ==> !vs[i].Nil?
    ensures LastIn(id, vs, name) == None <==> forall i :: 0 <= i < |vs| ==> name !in Names(vs[i])
    decreases |vs|
  {
    if vs != [] {
      LastInNone(id, vs[1..], name);
      assert forall i :: 1 <= i < |vs| ==> vs[i] == vs[1..][i - 1];
    }
  }

  // ---------------------------------------------------------------------------
  // The module-level state of `Ciphr::Functions`.

  class Functions {
    /** `@function_classes`, in registration order. */
    var functionClasses: seq<Kind>
    /** `@function_variants` */
    var functionVariants: map<Obj, Entry>

    constructor ()
      ensures functionClasses == [] && functionVariants == map[]
    {
      functionClasses := [];
      functionVariants := map[];
    }

    /** `Functions.register(klass)` */
    method Register(k: Kind)
      modifies this
      ensures functionClasses == old(functionClasses) + [k]
      ensures functionVariants == old(functionVariants)
    {
      functionClasses := functionClasses + [k];
    }

    /** `Functions.setup`; `err` is the exception it raises, and then the table is left as it was. */
    method Setup() returns (err: Option<Error>)
      modifies this
      ensures functionClasses == old(functionClasses)
      ensures Build(functionClasses).Success? ==> err == None && functionVariants == Build(functionClasses).value
      ensures Build(functionClasses).Failure? ==>
                err == Some(Build(functionClasses).error) && functionVariants == old(functionVariants)
    {
      var b := Build(functionClasses);
      if b.Success? {
        functionVariants := b.value;
        err := None;
      } else {
        err := Some(b.error);
      }
    }

    /** `Functions[name]` */
    function Lookup(name: Obj): Option<Entry>
      reads this
    {
      Get(functionVariants, name)
    }
  }

  /**
   * The registry's lifecycle: every class is registered in definition order, then
   * `setup` runs, then a name is looked up. The result is the entry of the last
   * variant that mentions the name, or the exception `setup` raises.
   */
  method RegisterAndLookup(kinds: seq<Kind>, name: Obj) returns (r: Result<Option<Entry>, Error>)
    ensures NoNilVariant(kinds) ==> r == Success(LastMention(kinds, name))
    ensures !NoNilVariant(kinds) ==> r == Failure(NoMethodError)
  {
    var functions := new Functions();
    var i := 0;
    while i < |kinds|
      invariant 0 <= i <= |kinds|
      invariant functions.functionClasses == kinds[..i]
    {
      functions.Register(kinds[i]);
      i := i + 1;
    }
    assert kinds[..i] == kinds;
    LookupIsLastMention(kinds, name);
    var err := functions.Setup();
    if err.Some? {
      r := Failure(err.value);
    } else {
      r := Success(functions.Lookup(name));
    }
  }
}
