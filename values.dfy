/** The Ruby values that appear in variant declarations, and the two operations `setup` applies to them. */
module Values {

  /** `nil`, a String, an Array, or an options Hash whose symbol keys are written as strings. */
  datatype Obj = Nil | Str(s: string) | Arr(elems: seq<Obj>) | Hash(opts: map<string, string>)

  /**
   * `v[i]` for a receiver other than `nil` (on `nil` it raises NoMethodError):
   * an Array gives its element or `nil`, a String its one-character substring or
   * `nil`, and an options Hash has no integer keys, so it gives `nil`.
   */
  function Index(v: Obj, i: nat): Obj
    requires !v.Nil?
  {
    match v
    case Str(s) => if i < |s| then Str([s[i]]) else Nil
    case Arr(es) => if i < |es| then es[i] else Nil
    case Hash(_) => Nil
  }

  /** `[v].flatten`: the non-Array values inside `v`, left to right. */
  function Flatten(v: Obj): seq<Obj>
    decreases v
  {
    match v
    case Arr(es) => FlattenAll(es)
    case _ => [v]
  }

  /** `es.flatten` */
  function FlattenAll(es: seq<Obj>): seq<Obj>
    decreases es
  {
    if es == [] then [] else Flatten(es[0]) + FlattenAll(es[1..])
  }

  /** Flattening leaves no Array behind, and a value that is not an Array flattens to itself. */
  lemma {:induction false} FlattenLeaves(v: Obj)
    ensures forall x :: x in Flatten(v) ==> !x.Arr?
    ensures !v.Arr? ==> Flatten(v) == [v]
    decreases v, 1
  {
    if v.Arr? {
      FlattenAllLeaves(v.elems);
    }
  }

  lemma {:induction false} FlattenAllLeaves(es: seq<Obj>)
    ensures forall x :: x in FlattenAll(es) ==> !x.Arr?
    decreases es, 0
  {
    if es != [] {
      FlattenLeaves(es[0]);
      FlattenAllLeaves(es[1..]);
    }
  }
}
