/**
 * What a created schema says about a message, in terms of JSON alone: which fields a definition lists and under which
 * type name, at every depth, with no mention of how the types are worked out.
 */
module Eip712Fields {
  import opened Common
  import opened Json
  import opened JsonPath
  import opened Eip712Schema
  import opened Eip712Laws
  import opened Eip712Cases

  /** Neither a path nor a query. */
  ghost predicate IsPlain(k: string) {
    '.' !in k && !IsQuery(k)
  }

  predicate IsBasic(v: Json) {
    v.Bool? || v.Num? || v.Str?
  }

  /** Null has no type, nor has an array that starts with null or with another array. */
  predicate HasType(v: Json) {
    IsBasic(v) || v.Obj? || (v.Arr? && (v.items == [] || IsBasic(v.items[0]) || v.items[0].Obj?))
  }

  /** The type name a value ought to have: a basic one, a described definition, or one of these with brackets behind it. */
  ghost predicate Fits(types: Types, t: string, v: Json)
    decreases v, 3
  {
    match v
    case Bool(_) => t == "bool"
    case Num(_) => t == "int64"
    case Str(_) => t == "string"
    case Obj(_) => Describes(types, t, v)
    case Arr(items) =>
      if items == [] then t == "string[]"
      else |t| >= 2 && t[|t| - 2..] == "[]" && !items[0].Arr? && Fits(types, t[..|t| - 2], items[0])
    case Null => false
  }

  /** The definition named `t` lists the plain fields of the object that have a type, each with its type. */
  ghost predicate Describes(types: Types, t: string, o: Json)
    requires o.Obj?
    decreases o, 2
  {
    && t in types
    && (forall d :: d in types[t] ==> d.name in Names(o.fields))
    && forall k :: k in Names(o.fields) && IsPlain(k) ==> ListsField(types, types[t], o, k)
  }

  ghost predicate ListsField(types: Types, defs: seq<TypeDef>, o: Json, k: string)
    requires Get(o, k).Some?
    decreases o, 1
  {
    && ((exists d :: d in defs && d.name == k) <==> HasType(Get(o, k).value))
    && forall d :: d in defs && d.name == k ==> Fits(types, d.typ, Get(o, k).value)
  }

  lemma {:induction false} TypableIff(v: Json)
    ensures Typable(v) <==> HasType(v)
  {
  }

  lemma {:induction false} ListName(types: Types, t: string, e: Shape)
    requires Means(types, t, List(e))
    ensures |t| >= 2 && t[|t| - 2..] == "[]" && Means(types, t[..|t| - 2], e)
  {
  }

  lemma {:induction false} BasicFits(types: Types, look: Look, t: string, v: Json)
    requires IsBasic(v) && Means(types, t, ElementShape(look, v))
    ensures Fits(types, t, v)
  {
  }

  /** A name that means what a path lookup sees in a value is the name the value ought to have. */
  lemma {:induction false} MeaningFits(types: Types, look: Look, t: string, v: Json)
    requires IsPath(look) && Typable(v) && Means(types, t, ShapeOf(look, v))
    ensures Fits(types, t, v)
    decreases v, 3
  {
    hide Means, IsPath, Members;
    if v == Arr([]) {
      ListName(types, t, Atom("string"));
      assert Means(types, t[..|t| - 2], Atom("string"));
      assert t[..|t| - 2] == "string" by { NamesItself(types, t[..|t| - 2], "string"); }
      assert t == "string" + "[]" == "string[]";
    } else if v.Arr? {
      var e := v.items[0];
      ListName(types, t, ElementShape(look, e));
      if e.Obj? { MeaningDescribes(types, look, t[..|t| - 2], e); } else { BasicFits(types, look, t[..|t| - 2], e); }
    } else if v.Obj? {
      MeaningDescribes(types, look, t, v);
    } else {
      BasicFits(types, look, t, v);
    }
  }

  lemma {:induction false} NamesItself(types: Types, t: string, a: string)
    requires Means(types, t, Atom(a))
    ensures t == a
  {
  }

  lemma {:induction false} MeaningDescribes(types: Types, look: Look, t: string, o: Json)
    requires IsPath(look) && o.Obj? && Means(types, t, ElementShape(look, o))
    ensures Describes(types, t, o)
    decreases o, 2
  {
    hide IsPath, Members, ShapeOf, Fits, HasType, Typable, IsPlain;
    var ms := Members(look, o, SortedKeys(o.fields));
    assert ElementShape(look, o) == Struct(ms) && AreMembers(types, types[t], ms);
    hide Means;
    forall d | d in types[t] ensures d.name in Names(o.fields) {
      var m := MemberAt(types, types[t], ms, d);
      MembersHaveTheirShape(look, o, SortedKeys(o.fields), m);
      assert HasMember(ms, m.name);
      MembersIff(look, o, SortedKeys(o.fields), m.name);
    }
    forall k | k in Names(o.fields) && IsPlain(k) ensures ListsField(types, types[t], o, k) {
      PlainFieldFits(types, look, types[t], o, k);
    }
  }

  lemma {:induction false} MemberAt(types: Types, defs: seq<TypeDef>, ms: seq<Member>, d: TypeDef) returns (m: Member)
    requires AreMembers(types, defs, ms) && d in defs
    ensures m in ms && m.name == d.name && Means(types, d.typ, m.shape)
  {
    var i :| 0 <= i < |defs| && defs[i] == d;
    assert IsMember(types, defs[i], ms[i]);
    m := ms[i];
  }

  lemma {:induction false} PlainFieldFits(types: Types, look: Look, defs: seq<TypeDef>, o: Json, k: string)
    requires IsPath(look) && o.Obj? && k in Names(o.fields) && IsPlain(k)
    requires AreMembers(types, defs, Members(look, o, SortedKeys(o.fields)))
    ensures ListsField(types, defs, o, k)
    decreases o, 1
  {
    hide IsPath, Members, ShapeOf, Means, Fits, Typable, HasType;
    var keys := SortedKeys(o.fields);
    var ms, v := Members(look, o, keys), Get(o, k).value;
    PlainKeyFindsItsField(look, o, k);
    TypableIff(v);
    MembersIff(look, o, keys, k);
    if HasMember(ms, k) {
      var m :| m in ms && m.name == k;
      var i :| 0 <= i < |ms| && ms[i] == m;
      assert IsMember(types, defs[i], ms[i]);
      assert defs[i] in defs && defs[i].name == k;
    }
    forall d | d in defs && d.name == k ensures Fits(types, d.typ, v) && HasType(v) {
      var m := MemberAt(types, defs, ms, d);
      MembersHaveTheirShape(look, o, keys, m);
      MeaningFits(types, look, d.typ, v);
    }
  }

  // ---------------------------------------------------------------- the messages of a payload

  /** `t` is what stands behind the last `c` of `s`, or all of `s` if there is none. */
  ghost predicate IsLastPart(s: string, c: char, t: string) {
    c !in t && (s == t || exists before: string :: s == before + [c] + t)
  }

  /** The last part of a string behind what stands before it. */
  lemma {:induction false} LastOfSplit(before: string, c: char, t: string)
    requires c !in t
    ensures var parts := Split(before + [c] + t, c); |parts| >= 2 && parts[|parts| - 1] == t
  {
    var s := before + [c] + t;
    if before == [] {
      assert s[1..] == t;
      SplitFree(t, c);
    } else {
      assert s[1..] == before[1..] + [c] + t;
      LastOfSplit(before[1..], c, t);
    }
  }

  lemma {:induction false} SplitEnds(s: string, c: char) returns (before: string)
    ensures var parts := Split(s, c);
            var t := parts[|parts| - 1];
            c !in t && if |parts| == 1 then s == t else s == before + [c] + t
  {
    before := [];
    if s != [] {
      var b := SplitEnds(s[1..], c);
      var parts, rest := Split(s, c), Split(s[1..], c);
      var t := rest[|rest| - 1];
      if |rest| > 1 {
        before := [s[0]] + b;
        assert s == [s[0]] + s[1..];
        assert [s[0]] + (b + [c] + t) == before + [c] + t;
      } else if s[0] == c {
        assert parts[|parts| - 1] == t && s == [] + [c] + t;
      } else {
        assert parts == [[s[0]] + t] && s == [s[0]] + t;
      }
    }
  }

  lemma {:induction false} SplitEndsIff(s: string, c: char, t: string)
    ensures IsLastPart(s, c, t) <==> Split(s, c)[|Split(s, c)| - 1] == t
  {
    hide Split;
    var before := SplitEnds(s, c);
    if IsLastPart(s, c, t) {
      if s == t {
        SplitFree(s, c);
      } else {
        var b: string :| s == b + [c] + t;
        LastOfSplit(b, c, t);
      }
    }
  }

  /** The root type of a message is `Type` and the last part of its type string; without one there is none. */
  lemma {:induction false} RootTypeIsLastPart(msg: Json, name: string)
    ensures MsgRootType(msg) == Some("Type" + name) <==>
            Get(msg, "type").Some? && Get(msg, "type").value.Str? && Get(msg, "type").value.s != ""
            && IsLastPart(Get(msg, "type").value.s, '/', name)
  {
    hide Split, Get, IsLastPart;
    var t := Get(msg, "type");
    if t.Some? && t.value.Str? {
      SplitEndsIff(t.value.s, '/', name);
      var parts := Split(t.value.s, '/');
      var last := parts[|parts| - 1];
      assert ("Type" + last)[4..] == last && ("Type" + name)[4..] == name;
    }
  }

  /** Entry `i` behind the fixed ones names message `i` and a definition that is named after its type and describes it. */
  ghost predicate DescribesMessage(types: Types, payload: Json, i: nat, d: TypeDef) {
    && d.name == "msg" + Decimal(i)
    && Get(payload, d.name).Some? && Get(payload, d.name).value.Obj?
    && Describes(types, d.typ, Get(payload, d.name).value)
    && IsNamedFor(Get(payload, d.name).value, d.typ)
  }

  ghost predicate IsNamedFor(msg: Json, t: string) {
    && Get(msg, "type").Some? && Get(msg, "type").value.Str?
    && exists name, j: nat :: IsLastPart(Get(msg, "type").value.s, '/', name) && t == "Type" + name + Decimal(j)
  }

  ghost predicate DescribesMessages(types: Types, payload: Json, n: nat) {
    && TX in types && BASE_TX <= types[TX] && |types[TX]| == |BASE_TX| + n
    && AllDescribed(types, payload, types[TX][|BASE_TX|..])
  }

  ghost predicate AllDescribed(types: Types, payload: Json, entries: seq<TypeDef>) {
    forall i :: 0 <= i < |entries| ==> DescribesMessage(types, payload, i, entries[i])
  }

  lemma {:induction false} NameOfMessageType(msg: Json, t: string)
    requires NamedAfter(msg, t)
    ensures IsNamedFor(msg, t)
  {
    var root := MsgRootType(msg).value;
    var j: nat :| t == root + Decimal(j);
    var name := root[4..];
    assert root == "Type" + name;
    RootTypeIsLastPart(msg, name);
    assert t == "Type" + name + Decimal(j);
  }

  lemma {:induction false} EntryDescribes(look: Look, types: Types, payload: Json, i: nat, d: TypeDef)
    requires IsPath(look) && TxEntry(look, types, payload, i, d)
    ensures DescribesMessage(types, payload, i, d)
  {
    hide IsPath, Means, ShapeOf, Describes, NamedAfter, IsNamedFor, Get;
    var msg := Get(payload, MsgField(i)).value;
    assert ShapeOf(look, msg) == ElementShape(look, msg) by { ObjectShape(look, msg); }
    MeaningDescribes(types, look, d.typ, msg);
    NameOfMessageType(msg, d.typ);
  }

  lemma {:induction false} ObjectShape(look: Look, o: Json)
    requires o.Obj?
    ensures ShapeOf(look, o) == ElementShape(look, o)
  {
  }

  /** Every message of a payload is described, at every depth, by the definition that the `Tx` type names for it. */
  lemma {:induction false} SchemaDescribesFields(lib: Lib, payload: Json, n: nat)
    requires IsPath(lib.look) && Stable(lib.caser)
    ensures Create(lib, payload, n).Ok? ==> DescribesMessages(Create(lib, payload, n).value, payload, n)
  {
    hide Create, IsPath, Stable, DescribesMessage, TxEntry, Closed, ExtendsButTx;
    if Create(lib, payload, n).Ok? {
      SchemaIsCorrect(lib, payload, n);
      var types: Types := Create(lib, payload, n).value;
      var entries := types[TX][|BASE_TX|..];
      forall i | 0 <= i < |entries| ensures DescribesMessage(types, payload, i, entries[i]) {
        EntryDescribes(lib.look, types, payload, i, entries[i]);
      }
    }
  }

  /** The listing of a plain field of message `i`, type by type. */
  lemma {:induction false} FieldIsListedAs(lib: Lib, payload: Json, n: nat, i: nat, k: string)
    requires IsPath(lib.look) && Stable(lib.caser) && i < n && IsPlain(k)
    requires Get(payload, MsgField(i)).Some? && Get(Get(payload, MsgField(i)).value, k).Some?
    ensures Create(lib, payload, n).Ok? ==>
            var types: Types := Create(lib, payload, n).value;
            && TX in types && |types[TX]| == |BASE_TX| + n
            && types[TX][|BASE_TX| + i].typ in types
            && var defs, v := types[types[TX][|BASE_TX| + i].typ], Get(Get(payload, MsgField(i)).value, k).value;
               && (v.Str? ==> TypeDef(k, "string") in defs)
               && (v.Bool? ==> TypeDef(k, "bool") in defs)
               && (v.Num? ==> TypeDef(k, "int64") in defs)
               && (v == Arr([]) ==> TypeDef(k, "string[]") in defs)
               && (v.Arr? && v.items != [] && v.items[0].Str? ==> TypeDef(k, "string[]") in defs)
               && (v.Arr? && v.items != [] && v.items[0].Bool? ==> TypeDef(k, "bool[]") in defs)
               && (v.Arr? && v.items != [] && v.items[0].Num? ==> TypeDef(k, "int64[]") in defs)
               && (v.Null? ==> forall d :: d in defs ==> d.name != k)
  {
    hide Create, IsPath, Stable, IsPlain;
    SchemaDescribesFields(lib, payload, n);
    if Create(lib, payload, n).Ok? {
      var types: Types := Create(lib, payload, n).value;
      assert DescribesMessage(types, payload, i, types[TX][|BASE_TX|..][i]);
      var defs, o := types[types[TX][|BASE_TX| + i].typ], Get(payload, MsgField(i)).value;
      assert ListsField(types, defs, o, k);
      if HasType(Get(o, k).value) {
        var d :| d in defs && d.name == k;
        assert d == TypeDef(k, d.typ);
        FittingName(types, d.typ, Get(o, k).value);
      }
    }
  }

  lemma {:induction false} FittingName(types: Types, t: string, v: Json)
    requires Fits(types, t, v)
    ensures v.Str? ==> t == "string"
    ensures v.Bool? ==> t == "bool"
    ensures v.Num? ==> t == "int64"
    ensures v == Arr([]) || (v.Arr? && v.items != [] && v.items[0].Str?) ==> t == "string[]"
    ensures v.Arr? && v.items != [] && v.items[0].Bool? ==> t == "bool[]"
    ensures v.Arr? && v.items != [] && v.items[0].Num? ==> t == "int64[]"
  {
    if v.Arr? && v.items != [] {
      assert t == t[..|t| - 2] + "[]";
      assert "string" + "[]" == "string[]" && "bool" + "[]" == "bool[]" && "int64" + "[]" == "int64[]";
    }
  }

  // ---------------------------------------------------------------- names of nested types

  lemma {:induction false} SplitFirst(a: string, c: char, t: string)
    requires c !in a
    ensures Split(a + [c] + t, c) == [a] + Split(t, c)
  {
    var s := a + [c] + t;
    if a == [] {
      assert s[1..] == t;
    } else {
      assert s[1..] == a[1..] + [c] + t;
      SplitFirst(a[1..], c, t);
      assert [a[0]] + a[1..] == a;
    }
  }

  lemma {:induction false} WordNames(caser: Caser, ws: seq<string>)
    requires |ws| == 2
    ensures TitleAll(caser, ws) == caser(ws[0]) + caser(ws[1])
    ensures TitleAll(caser, [ws[1]]) == caser(ws[1])
  {
    var last := [ws[1]];
    assert ws[1..] == last && last[1..] == [];
    assert TitleAll(caser, last) == caser(ws[1]) + [] == caser(ws[1]);
  }

  lemma {:induction false} PartNames(caser: Caser, parts: seq<string>)
    requires parts != []
    ensures SanitizeParts(caser, parts) ==
            (if parts[0] == "_" then "Type" else TitleAll(caser, Split(parts[0], '_'))) + SanitizeParts(caser, parts[1..])
  {
  }

  /** `Type`, and then the words of the path, each in title case, with dots and underscores gone. */
  lemma {:induction false} NameOfPath(caser: Caser, x: string, y: string, z: string)
    requires x != [] && forall w :: w in {x, y, z} ==> '.' !in w && '_' !in w
    ensures Sanitize(caser, "_" + ['.'] + (x + ['_'] + y + ['.'] + z)) == "Type" + caser(x) + caser(y) + caser(z)
  {
    hide Split;
    var xy := x + ['_'] + y;
    SplitFirst("_", '.', xy + ['.'] + z);
    SplitFirst(xy, '.', z);
    SplitFree(z, '.');
    SplitFirst(x, '_', y);
    SplitFree(y, '_');
    SplitFree(z, '_');
    assert |xy| > 1 && z != "_" by { assert "_"[0] in "_"; }
    PartNames(caser, [z]);
    PartNames(caser, [xy] + [z]);
    PartNames(caser, ["_"] + ([xy] + [z]));
    WordNames(caser, [x] + [y]);
    WordNames(caser, [x] + [z]);
    assert SanitizeParts(caser, [z]) == caser(z);
    assert caser(x) + caser(y) + caser(z) == caser(x) + (caser(y) + caser(z));
    assert "Type" + (caser(x) + caser(y) + caser(z)) == "Type" + caser(x) + caser(y) + caser(z);
  }
}
