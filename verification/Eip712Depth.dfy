/**
 * How deep the recursion of the EIP-712 walk goes for a lookup of any kind, and when it has an end: gjson also knows
 * expressions that give back the object itself.
 */
module Eip712Depth {
  import opened Common
  import opened Json
  import opened JsonPath

  type AnyLook = (Json, string) -> Option<Json>

  /** What the walk goes into: the first element of an array, or the value itself. */
  function Element(v: Json): (e: Json) {
    if v.Arr? && v.items != [] then v.items[0] else v
  }

  /** The walk over a value makes at most `depth` nested calls. */
  ghost predicate EndsWithin(look: AnyLook, v: Json, depth: nat)
    decreases depth, 0
  {
    v.Obj? ==> depth > 0 && forall k :: k in Names(v.fields) ==> KeyEndsWithin(look, v, k, depth - 1)
  }

  ghost predicate KeyEndsWithin(look: AnyLook, o: Json, k: string, depth: nat)
    decreases depth, 1
  {
    look(o, k).Some? ==> EndsWithin(look, Element(look(o, k).value), depth)
  }

  /** A key that finds the object itself, or a list that starts with it: no depth is enough. */
  lemma {:induction false} SelfNeverEnds(look: AnyLook, o: Json, k: string, depth: nat)
    requires o.Obj? && k in Names(o.fields) && look(o, k).Some? && Element(look(o, k).value) == o
    ensures !EndsWithin(look, o, depth)
  {
    if EndsWithin(look, o, depth) {
      assert KeyEndsWithin(look, o, k, depth - 1);
      SelfNeverEnds(look, o, k, depth - 1);
    }
  }

  /** At every key the walk visits, the lookup finds a proper part. */
  ghost predicate FindsParts(look: AnyLook, v: Json)
    decreases v
  {
    v.Obj? ==> forall k :: k in Names(v.fields) && look(v, k).Some? ==>
                 look(v, k).value < v && Element(look(v, k).value) < v && FindsParts(look, Element(look(v, k).value))
  }

  lemma {:induction false} DeeperIsEnough(look: AnyLook, v: Json, depth: nat, more: nat)
    requires EndsWithin(look, v, depth) && depth <= more
    ensures EndsWithin(look, v, more)
    decreases depth
  {
    if v.Obj? {
      forall k | k in Names(v.fields) ensures KeyEndsWithin(look, v, k, more - 1) {
        assert KeyEndsWithin(look, v, k, depth - 1);
        if look(v, k).Some? { DeeperIsEnough(look, Element(look(v, k).value), depth - 1, more - 1); }
      }
    }
  }

  /** Then the walk ends. */
  lemma {:induction false} PartsEnd(look: AnyLook, v: Json) returns (depth: nat)
    requires FindsParts(look, v)
    ensures EndsWithin(look, v, depth)
    decreases v, 1, 0
  {
    depth := 0;
    if v.Obj? {
      depth := KeysEnd(look, v, SortedKeys(v.fields));
      depth := depth + 1;
    }
  }

  lemma {:induction false} KeysEnd(look: AnyLook, o: Json, keys: seq<string>) returns (depth: nat)
    requires o.Obj? && FindsParts(look, o) && forall k :: k in keys ==> k in Names(o.fields)
    ensures forall k :: k in keys ==> KeyEndsWithin(look, o, k, depth)
    decreases o, 0, |keys|
  {
    depth := 0;
    if keys != [] {
      var k := keys[0];
      assert k in keys;
      depth := KeysEnd(look, o, keys[1..]);
      if look(o, k).Some? {
        var own := PartsEnd(look, Element(look(o, k).value));
        var all := if own < depth then depth else own;
        DeeperIsEnough(look, Element(look(o, k).value), own, all);
        forall x | x in keys ensures KeyEndsWithin(look, o, x, all) {
          if x != k && look(o, x).Some? {
            assert KeyEndsWithin(look, o, x, depth);
            DeeperIsEnough(look, Element(look(o, x).value), depth, all);
          }
        }
        depth := all;
      }
    }
  }

  /** Every lookup that only finds proper parts, such as a path lookup, makes every walk end. */
  lemma {:induction false} LookupsOfPartsEnd(look: Look, v: Json)
    ensures FindsParts(look, v)
    decreases v
  {
    if v.Obj? {
      forall k | k in Names(v.fields) && look(v, k).Some?
        ensures look(v, k).value < v && Element(look(v, k).value) < v && FindsParts(look, Element(look(v, k).value))
      {
        LookupsOfPartsEnd(look, Element(look(v, k).value));
      }
    }
  }
}
