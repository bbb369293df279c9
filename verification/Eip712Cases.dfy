/**
 * When a schema is created at all, and payloads whose schemas show what path lookup does to a message: keys that
 * are skipped, keys that get another field's type, and a query that sees the order of fields.
 */
module Eip712Cases {
  import opened Common
  import opened Json
  import opened JsonPath
  import opened Eip712Schema
  import opened Eip712Laws

  // ---------------------------------------------------------------- room for definitions

  lemma {:induction false} IndexedNamesDiffer(typeDef: string, i: nat, j: nat)
    requires i != j
    ensures typeDef + Decimal(i) != typeDef + Decimal(j)
  {
    var a, b := typeDef + Decimal(i), typeDef + Decimal(j);
    if a == b {
      assert a[|typeDef|..] == Decimal(i) && b[|typeDef|..] == Decimal(j);
      DecimalIsInjective(i, j);
    }
  }

  /** To use up the names from `i` on takes that many definitions. */
  lemma {:induction false} NamesNeedDefinitions(types: Types, typeDef: string, i: nat)
    requires i <= MAX_DUPLICATES && forall j :: i <= j < MAX_DUPLICATES ==> typeDef + Decimal(j) in types
    ensures |types| >= MAX_DUPLICATES - i
    decreases MAX_DUPLICATES - i
  {
    if i < MAX_DUPLICATES {
      var key := typeDef + Decimal(i);
      var rest := types - {key};
      forall j | i < j < MAX_DUPLICATES ensures typeDef + Decimal(j) in rest { IndexedNamesDiffer(typeDef, i, j); }
      NamesNeedDefinitions(rest, typeDef, i + 1);
      assert types == rest[key := types[key]];
    }
  }

  lemma {:induction false} RoomForOneMore(types: Types, typeDef: string, defs: seq<TypeDef>)
    requires |types| < MAX_DUPLICATES
    ensures AddTypes(types, typeDef, defs, 0).Ok? && |AddTypes(types, typeDef, defs, 0).value.types| <= |types| + 1
  {
    AddTypesFailsIff(types, typeDef, defs, 0);
    if AddTypes(types, typeDef, defs, 0).Err? {
      forall j | 0 <= j < MAX_DUPLICATES ensures typeDef + Decimal(j) in types { assert Taken(types, typeDef, defs, j); }
      NamesNeedDefinitions(types, typeDef, 0);
    }
    AddTypesIsSafe(types, typeDef, defs, 0);
    var w := AddTypes(types, typeDef, defs, 0).value;
    assert |w.types| == |w.types.Keys| && |types| == |types.Keys|;
  }

  /** How many objects the walk over a value visits. */
  ghost function Walks(look: Look, v: Json): (n: nat)
    decreases v, 3, 0
  {
    var elem := if v.Arr? && v.items != [] then v.items[0] else v;
    if elem.Obj? then 1 + WalksUnder(look, elem, SortedKeys(elem.fields)) else 0
  }

  ghost function WalksUnder(look: Look, o: Json, keys: seq<string>): (n: nat)
    requires o.Obj?
    decreases o, 1, |keys|
  {
    if keys == [] then 0
    else
      (if look(o, keys[0]).Some? then Walks(look, look(o, keys[0]).value) else 0) + WalksUnder(look, o, keys[1..])
  }

  /** The walk over an object succeeds as long as there is room for one definition per object it visits. */
  lemma {:induction false} WalkSucceeds(lib: Lib, types: Types, root: string, prefix: string, o: Json)
    requires o.Obj? && |types| + Walks(lib.look, o) <= MAX_DUPLICATES
    ensures Walk(lib, types, root, prefix, o).Ok?
    ensures |Walk(lib, types, root, prefix, o).value.types| <= |types| + Walks(lib.look, o)
    decreases o, 2, 0
  {
    hide AddTypes;
    FieldsSucceed(lib, types, root, prefix, o, SortedKeys(o.fields));
    var l := WalkFields(lib, types, root, prefix, o, SortedKeys(o.fields)).value;
    RoomForOneMore(l.types, TypeDefForPrefix(lib.caser, prefix, root), l.defs);
  }

  lemma {:induction false} FieldsSucceed(lib: Lib, types: Types, root: string, prefix: string, o: Json, keys: seq<string>)
    requires o.Obj? && |types| + WalksUnder(lib.look, o, keys) < MAX_DUPLICATES
    ensures WalkFields(lib, types, root, prefix, o, keys).Ok?
    ensures |WalkFields(lib, types, root, prefix, o, keys).value.types| <= |types| + WalksUnder(lib.look, o, keys)
    decreases o, 1, |keys|
  {
    if keys != [] {
      var v := lib.look(o, keys[0]);
      if v.None? {
        FieldsSucceed(lib, types, root, prefix, o, keys[1..]);
      } else {
        FieldTypeSucceeds(lib, types, root, prefix, keys[0], v.value);
        FieldsSucceed(lib, FieldType(lib, types, root, prefix, keys[0], v.value).value.types, root, prefix, o, keys[1..]);
      }
    }
  }

  lemma {:induction false} FieldTypeSucceeds(lib: Lib, types: Types, root: string, prefix: string, name: string, v: Json)
    requires |types| + Walks(lib.look, v) <= MAX_DUPLICATES
    ensures FieldType(lib, types, root, prefix, name, v).Ok?
    ensures |FieldType(lib, types, root, prefix, name, v).value.types| <= |types| + Walks(lib.look, v)
    decreases v, 3, 0
  {
    var elem := if v.Arr? && v.items != [] then v.items[0] else v;
    if elem.Obj? {
      assert Walks(lib.look, elem) == Walks(lib.look, v);
      WalkSucceeds(lib, types, root, prefix + "." + name, elem);
    }
  }

  // ---------------------------------------------------------------- payloads of one message

  function Payload(msg: Json): (p: Json) {
    Obj([Field("msg0", msg)])
  }

  lemma {:induction false} SoleMessage(msg: Json)
    ensures MsgField(0) == "msg0" && Get(Payload(msg), MsgField(0)) == Some(msg)
  {
    assert Decimal(0) == "0" && "msg" + "0" == "msg0";
  }

  /** Has a type signature, and little enough in it. */
  ghost predicate IsSmallMessage(look: Look, msg: Json) {
    msg.Obj? && MsgRootType(msg).Some? && Walks(look, msg) <= MAX_DUPLICATES - 4
  }

  lemma {:induction false} SchemaOfOneSucceeds(lib: Lib, msg: Json)
    requires IsSmallMessage(lib.look, msg)
    ensures Create(lib, Payload(msg), 1).Ok?
  {
    hide Walk, MsgRootType, Walks;
    SoleMessage(msg);
    assert BASE.Keys == {"EIP712Domain", TX, "Fee", "Coin"};
    assert |BASE| == |BASE.Keys| <= 4;
    WalkSucceeds(lib, BASE, MsgRootType(msg).value, ROOT_PREFIX, msg);
    assert Create(lib, Payload(msg), 0) == Ok(BASE);
  }

  /** The schema of a payload with this one message, and the definition of the message in it. */
  ghost function SchemaOf(lib: Lib, msg: Json): (types: Types)
    requires IsSmallMessage(lib.look, msg)
    ensures Create(lib, Payload(msg), 1) == Ok(types)
  {
    SchemaOfOneSucceeds(lib, msg);
    Create(lib, Payload(msg), 1).value
  }

  ghost function TypeOf(lib: Lib, msg: Json): (t: string)
    requires IsSmallMessage(lib.look, msg) && Stable(lib.caser)
    ensures t in SchemaOf(lib, msg) && Means(SchemaOf(lib, msg), t, ShapeOf(lib.look, msg))
    ensures TX in SchemaOf(lib, msg) && |SchemaOf(lib, msg)[TX]| == |BASE_TX| + 1 && t == SchemaOf(lib, msg)[TX][|BASE_TX|].typ
  {
    SchemaOfOneSucceeds(lib, msg);
    SoleMessage(msg);
    SchemaListsFieldIff(lib, Payload(msg), 1, 0, "");
    SchemaOf(lib, msg)[TX][|BASE_TX|].typ
  }

  /** A field whose key finds nothing that has a type: the schema is created, and leaves the field out. */
  lemma {:induction false} UnfoundFieldIsNotListed(lib: Lib, msg: Json, k: string)
    requires IsSmallMessage(lib.look, msg) && Stable(lib.caser)
    requires Get(msg, k).Some? && Typable(Get(msg, k).value) && !FindsTypable(lib.look, msg, k)
    ensures forall d :: d in SchemaOf(lib, msg)[TypeOf(lib, msg)] ==> d.name != k
    ensures !Means(SchemaOf(lib, msg), TypeOf(lib, msg), ShapeOf(ByName(), msg))
  {
    hide Create, Means, ShapeOf, Undisturbed, FindsTypable;
    SoleMessage(msg);
    SchemaListsFieldIff(lib, Payload(msg), 1, 0, k);
    SchemaDescribesMessageIff(lib, Payload(msg), 1, 0);
    assert FindsTypable(ByName(), msg, k) by { FoundByName(msg, k); }
    assert !KeySeesItself(lib.look, msg, k);
  }

  lemma {:induction false} FoundByName(o: Json, k: string)
    ensures FindsTypable(ByName(), o, k) <==> Get(o, k).Some? && Typable(Get(o, k).value)
  {
  }

  /** A field whose key finds a basic value of another type: it is listed with that type. */
  lemma {:induction false} MistakenFieldIsListed(lib: Lib, msg: Json, k: string, found: Json)
    requires IsSmallMessage(lib.look, msg) && Stable(lib.caser)
    requires Get(msg, k).Some? && lib.look(msg, k) == Some(found) && EthType(found) != ""
    requires EthType(Get(msg, k).value) !in {"", EthType(found)}
    ensures TypeDef(k, EthType(found)) in SchemaOf(lib, msg)[TypeOf(lib, msg)]
    ensures !Means(SchemaOf(lib, msg), TypeOf(lib, msg), ShapeOf(ByName(), msg))
  {
    hide Create, Means, Undisturbed, Members;
    SoleMessage(msg);
    SchemaDescribesMessageIff(lib, Payload(msg), 1, 0);
    FoundByName(msg, k);
    MemberOf(lib.look, msg, SortedKeys(msg.fields), k);
    AtomicShape(lib.look, found);
    AtomicShape(ByName(), Get(msg, k).value);
    assert !KeySeesItself(lib.look, msg, k);
    assert ShapeOf(lib.look, msg) == Struct(Members(lib.look, msg, SortedKeys(msg.fields)));
    AtomIsListed(SchemaOf(lib, msg), TypeOf(lib, msg), ShapeOf(lib.look, msg), k, EthType(found));
  }

  lemma {:induction false} AtomicShape(look: Look, v: Json)
    requires EthType(v) != ""
    ensures ShapeOf(look, v) == Atom(EthType(v))
  {
  }

  lemma AtomIsListed(types: Types, key: string, s: Shape, name: string, atom: string)
    requires s.Struct? && Means(types, key, s) && Member(name, Atom(atom)) in s.members
    ensures key in types && TypeDef(name, atom) in types[key]
  {
    var i :| 0 <= i < |s.members| && s.members[i] == Member(name, Atom(atom));
    assert IsMember(types, types[key][i], s.members[i]);
    assert Means(types, types[key][i].typ, Atom(atom));
    assert types[key][i] == TypeDef(name, atom);
  }

  lemma {:induction false} MemberOf(look: Look, o: Json, keys: seq<string>, k: string)
    requires o.Obj? && k in keys && FindsTypable(look, o, k)
    ensures Member(k, ShapeOf(look, look(o, k).value)) in Members(look, o, keys)
    decreases |keys|
  {
    if keys[0] != k { MemberOf(look, o, keys[1..], k); }
  }

  // ---------------------------------------------------------------- small messages

  lemma {:induction false} InsertIsShort(ks: seq<string>, k: string)
    ensures |InsertKey(ks, k)| <= |ks| + 1
  {
    if ks != [] { InsertIsShort(ks[1..], k); }
  }

  lemma {:induction false} SortedKeysAreFew(fields: seq<Field>)
    ensures |SortedKeys(fields)| <= |fields|
  {
    if fields != [] {
      SortedKeysAreFew(fields[1..]);
      InsertIsShort(SortedKeys(fields[1..]), fields[0].name);
    }
  }

  lemma {:induction false} FewWalks(look: Look, o: Json, keys: seq<string>)
    requires o.Obj? && forall k :: k in keys && look(o, k).Some? ==> Walks(look, look(o, k).value) <= 1
    ensures WalksUnder(look, o, keys) <= |keys|
    decreases |keys|
  {
    if keys != [] {
      assert keys[0] in keys;
      FewWalks(look, o, keys[1..]);
    }
  }

  lemma {:induction false} FlatMessageIsSmall(look: Look, o: Json)
    requires o.Obj? && |o.fields| <= 3 && Get(o, "type") == Some(Str("T"))
    requires forall k :: k in Names(o.fields) && look(o, k).Some? ==> Walks(look, look(o, k).value) <= 1
    ensures IsSmallMessage(look, o)
  {
    FewWalks(look, o, SortedKeys(o.fields));
    SortedKeysAreFew(o.fields);
    assert Walks(look, o) == 1 + WalksUnder(look, o, SortedKeys(o.fields));
  }

  lemma {:induction false} LettersArePlain(k: string)
    requires forall i :: 0 <= i < |k| ==> 'a' <= k[i] <= 'z'
    ensures '.' !in k && !IsQuery(k)
  {
    assert k != [] ==> k[0] != '.' && k[0] != ".."[0];
  }

  lemma {:induction false} PlainName(look: Look, o: Json, k: string)
    requires IsPath(look) && o.Obj? && k in {"type", "a", "b"}
    ensures look(o, k) == Get(o, k)
  {
    LettersArePlain(k);
    PlainKeyFindsItsField(look, o, k);
  }

  // ---------------------------------------------------------------- dotted keys

  lemma DottedPath(look: Look, o: Json)
    requires IsPath(look) && o.Obj?
    ensures look(o, "a.b") == FirstHit(Values(o, "a"), ["b"])
  {
    assert Split("b", '.') == ["b"] by { SplitFree("b", '.'); }
    assert "a.b"[1..] == ".b" && ".b"[1..] == "b";
    var rest := Split(".b", '.');
    assert rest == [[]] + ["b"] && rest[1..] == ["b"] && ['a'] + rest[0] == "a";
    assert Split("a.b", '.') == ["a"] + ["b"];
    assert !IsQuery("a.b");
    assert ["a", "b"][1..] == ["b"];
  }

  lemma {:induction false} UnderThree(fs: seq<Field>, k: string)
    requires |fs| == 3
    ensures Under(fs, k) == (if fs[0].name == k then [fs[0].value] else [])
                            + ((if fs[1].name == k then [fs[1].value] else [])
                               + (if fs[2].name == k then [fs[2].value] else []))
  {
    var two, one := fs[1..], fs[2..];
    assert two[1..] == one && one[1..] == [];
    assert Under(one, k) == (if one[0].name == k then [one[0].value] else []) + [];
  }

  /** A message with a dotted key whose path leads nowhere. */
  ghost predicate IsSkipped(msg: Json) {
    msg == Obj([Field("type", Str("T")), Field("a.b", Str("x"))])
  }

  lemma {:induction false} SkippedLookups(look: Look, msg: Json)
    requires IsPath(look) && IsSkipped(msg)
    ensures Names(msg.fields) == {"type", "a.b"}
    ensures look(msg, "type") == Get(msg, "type") == Some(Str("T"))
    ensures look(msg, "a.b") == None && Get(msg, "a.b") == Some(Str("x"))
  {
    var fs := msg.fields;
    assert fs[1..] == [fs[1]] && fs[1..][1..] == [] && fs[0] in fs && fs[1] in fs;
    PlainName(look, msg, "type");
    DottedPath(look, msg);
    assert Under([fs[1]], "a") == [] && Under(fs, "a") == [];
    assert Find(fs, "type") == 0 && Find([fs[1]], "a.b") == 0;
  }

  /** The field `a.b` of that message is not listed in the schema of its payload. */
  lemma {:induction false} DottedKeyIsNotListed(lib: Lib, msg: Json)
    requires IsPath(lib.look) && Stable(lib.caser) && IsSkipped(msg)
    ensures IsSmallMessage(lib.look, msg) && Get(msg, "a.b") == Some(Str("x"))
    ensures forall d :: d in SchemaOf(lib, msg)[TypeOf(lib, msg)] ==> d.name != "a.b"
    ensures !Means(SchemaOf(lib, msg), TypeOf(lib, msg), ShapeOf(ByName(), msg))
  {
    hide Means, ShapeOf, SchemaOf, TypeOf, IsSmallMessage, IsPath, Stable;
    SkippedLookups(lib.look, msg);
    FlatMessageIsSmall(lib.look, msg);
    UnfoundFieldIsNotListed(lib, msg, "a.b");
  }

  /** A message with a dotted key whose path leads into another field. */
  ghost predicate IsMistaken(msg: Json) {
    msg == Obj([Field("type", Str("T")), Field("a", Obj([Field("b", Num("5"))])), Field("a.b", Str("x"))])
  }

  lemma {:induction false} MistakenLookups(look: Look, msg: Json)
    requires IsPath(look) && IsMistaken(msg)
    ensures look(msg, "type") == Get(msg, "type") && look(msg, "a") == Get(msg, "a")
    ensures look(msg, "a.b") == Some(Num("5"))
  {
    PlainName(look, msg, "type");
    PlainName(look, msg, "a");
    hide Under, IsPath, FirstHit;
    DottedPath(look, msg);
  }

  /** The values under a name of three fields, and the first of them. */
  lemma {:induction false} ThreeFields(fs: seq<Field>, k: string)
    requires |fs| == 3
    ensures Under(fs, k) == (if fs[0].name == k then [fs[0].value] else [])
                            + ((if fs[1].name == k then [fs[1].value] else [])
                               + (if fs[2].name == k then [fs[2].value] else []))
    ensures Get(Obj(fs), k) == if Under(fs, k) == [] then None else Some(Under(fs, k)[0])
  {
    UnderThree(fs, k);
    FirstUnder(fs, k);
  }

  lemma {:induction false} OneFieldWalks(look: Look, v: Json)
    requires IsPath(look) && EthType(v) != ""
    ensures Walks(look, Obj([Field("b", v)])) == 1
  {
    var o := Obj([Field("b", v)]);
    assert o.fields[1..] == [] && SortedKeys(o.fields) == ["b"] && ["b"][1..] == [];
    PlainName(look, o, "b");
    assert Get(o, "b") == Some(v);
    assert WalksUnder(look, o, []) == 0;
    assert WalksUnder(look, o, ["b"]) == 0;
  }

  /** The field `a.b` of that message, a string, is listed as a number. */
  lemma {:induction false} DottedKeyGetsAnotherType(lib: Lib, msg: Json)
    requires IsPath(lib.look) && Stable(lib.caser) && IsMistaken(msg)
    ensures IsSmallMessage(lib.look, msg) && Get(msg, "a.b") == Some(Str("x"))
    ensures TypeDef("a.b", "int64") in SchemaOf(lib, msg)[TypeOf(lib, msg)]
    ensures !Means(SchemaOf(lib, msg), TypeOf(lib, msg), ShapeOf(ByName(), msg))
  {
    hide Means, ShapeOf, SchemaOf, TypeOf, IsSmallMessage, IsPath, Stable;
    MistakenLookups(lib.look, msg);
    OneFieldWalks(lib.look, Num("5"));
    FlatMessageIsSmall(lib.look, msg);
    MistakenFieldIsListed(lib, msg, "a.b", Num("5"));
  }

  // ---------------------------------------------------------------- a query that sees the order

  /** As gjson's wildcard: `*` matches any name, and the first match counts. */
  ghost predicate AnswersStar(look: Look) {
    forall o: Json :: o.Obj? && o.fields != [] ==> look(o, "*") == Some(o.fields[0].value)
  }

  ghost function StarOrPath(o: Json, k: string): (r: Option<Json>)
    ensures r.Some? ==> r.value < o
  {
    if o.Obj? && k == "*" && o.fields != [] then
      assert o.fields[0] < o;
      Some(o.fields[0].value)
    else if o.Obj? && !IsQuery(k) then Descend(o, Split(k, '.')) else None
  }

  /** There is such a path lookup. */
  ghost function StarLook(): (look: Look)
    ensures IsPath(look) && AnswersStar(look)
  {
    assert '*' in "*" && IsQuery("*");
    (o: Json, k: string) => StarOrPath(o, k)
  }

  /** Exchanging the first two fields, of different names, changes nothing but the order. */
  lemma {:induction false} SameButForOrder(f: Field, g: Field, rest: seq<Field>)
    requires f.name != g.name
    ensures SameJson(Obj([f, g] + rest), Obj([g, f] + rest))
  {
    forall k ensures SameValues(Obj([f, g] + rest), Obj([g, f] + rest), k) {
      UnderTwo(f, g, rest, k);
      UnderTwo(g, f, rest, k);
      SameJsonAll(Values(Obj([f, g] + rest), k));
    }
  }

  lemma {:induction false} UnderTwo(f: Field, g: Field, rest: seq<Field>, k: string)
    ensures Under([f, g] + rest, k) ==
            (if f.name == k then [f.value] else []) + ((if g.name == k then [g.value] else []) + Under(rest, k))
  {
    var fs := [f, g] + rest;
    assert fs[1..] == [g] + rest && fs[1..][1..] == rest;
  }

  lemma {:induction false} SameJsonRefl(v: Json)
    ensures SameJson(v, v)
    decreases v
  {
    if v.Obj? {
      forall k, i | 0 <= i < |Values(v, k)| ensures SameJson(Values(v, k)[i], Values(v, k)[i]) {
        SameJsonRefl(Values(v, k)[i]);
      }
      assert forall k :: SameValues(v, v, k);
    } else if v.Arr? {
      forall i | 0 <= i < |v.items| ensures SameJson(v.items[i], v.items[i]) { SameJsonRefl(v.items[i]); }
    }
  }

  lemma {:induction false} SameJsonAll(vs: seq<Json>)
    ensures forall i :: 0 <= i < |vs| ==> SameJson(vs[i], vs[i])
  {
    forall i | 0 <= i < |vs| ensures SameJson(vs[i], vs[i]) { SameJsonRefl(vs[i]); }
  }

  lemma {:induction false} MembersHaveTheirShape(look: Look, o: Json, keys: seq<string>, m: Member)
    requires o.Obj? && m in Members(look, o, keys)
    ensures FindsTypable(look, o, m.name) && m.shape == ShapeOf(look, look(o, m.name).value)
    decreases |keys|
  {
    if m in Members(look, o, keys[1..]) { MembersHaveTheirShape(look, o, keys[1..], m); }
  }

  /** Messages in which one key finds values of different types have different shapes. */
  lemma {:induction false} ShapesDiffer(look: Look, a: Json, b: Json, k: string)
    requires a.Obj? && b.Obj? && k in Names(a.fields) && look(a, k).Some? && look(b, k).Some?
    requires EthType(look(a, k).value) != "" && EthType(look(b, k).value) != ""
    requires EthType(look(a, k).value) != EthType(look(b, k).value)
    ensures ShapeOf(look, a) != ShapeOf(look, b)
  {
    var u, v := look(a, k).value, look(b, k).value;
    AtomicShape(look, u);
    AtomicShape(look, v);
    MemberOf(look, a, SortedKeys(a.fields), k);
    var ms := Members(look, b, SortedKeys(b.fields));
    assert ShapeOf(look, b) == Struct(ms);
    if Member(k, Atom(EthType(u))) in ms {
      MembersHaveTheirShape(look, b, SortedKeys(b.fields), Member(k, Atom(EthType(u))));
    }
  }

  lemma {:induction false} SchemasDiffer(lib: Lib, a: Json, b: Json)
    requires IsSmallMessage(lib.look, a) && IsSmallMessage(lib.look, b) && Stable(lib.caser)
    requires ShapeOf(lib.look, a) != ShapeOf(lib.look, b)
    ensures SchemaOf(lib, a) != SchemaOf(lib, b)
  {
    hide Means, ShapeOf, SchemaOf, TypeOf;
    var types := SchemaOf(lib, a);
    if types == SchemaOf(lib, b) {
      assert TypeOf(lib, a) == TypeOf(lib, b);
      MeaningIsUnique(types, TypeOf(lib, a), ShapeOf(lib.look, a), ShapeOf(lib.look, b));
    }
  }

  /** A number, the type and a wildcard key, in two orders. */
  ghost predicate AreReordered(a: Json, b: Json) {
    && a == Obj([Field("b", Num("5")), Field("type", Str("T")), Field("*", Str("x"))])
    && b == Obj([Field("type", Str("T")), Field("b", Num("5")), Field("*", Str("x"))])
  }

  lemma {:induction false} AtomIsNotWalked(look: Look, v: Json)
    requires EthType(v) != ""
    ensures Walks(look, v) == 0
  {
  }

  lemma {:induction false} FieldUnder(o: Json, k: string) returns (f: Field)
    requires Get(o, k).Some?
    ensures f in o.fields && f.value == Get(o, k).value
  {
    f := o.fields[Find(o.fields, k)];
  }

  lemma {:induction false} PlainKeyFindsAnAtom(look: Look, o: Json, k: string)
    requires IsPath(look) && o.Obj? && k in {"type", "b"} && forall f :: f in o.fields ==> EthType(f.value) != ""
    ensures look(o, k).Some? ==> Walks(look, look(o, k).value) == 0
  {
    hide IsPath, Walks, Find, EthType;
    PlainName(look, o, k);
    if Get(o, k).Some? {
      var f := FieldUnder(o, k);
      AtomIsNotWalked(look, f.value);
    }
  }

  lemma {:induction false} StarMessageIsSmall(look: Look, o: Json, f: Field, g: Field)
    requires IsPath(look) && AnswersStar(look) && o == Obj([f, g, Field("*", Str("x"))])
    requires f.name in {"type", "b"} && g.name in {"type", "b"} && EthType(f.value) != "" && EthType(g.value) != ""
    requires Get(o, "type") == Some(Str("T"))
    ensures IsSmallMessage(look, o) && "*" in Names(o.fields) && look(o, "*") == Some(f.value)
  {
    var fs := o.fields;
    assert forall x :: x in fs <==> x == fs[0] || x == fs[1] || x == fs[2];
    assert fs[2] in fs && look(o, "*") == Some(f.value) && Walks(look, f.value) == 0;
    hide IsPath, AnswersStar, Walks, IsSmallMessage, Find, WalksUnder, Get;
    forall k | k in Names(fs) && look(o, k).Some? ensures Walks(look, look(o, k).value) <= 1 {
      if k != "*" { PlainKeyFindsAnAtom(look, o, k); }
    }
    FlatMessageIsSmall(look, o);
  }

  /** Two messages that differ in nothing but field order, and whose schemas differ: the wildcard key sees it. */
  lemma {:induction false} QueryKeySeesOrder(lib: Lib, a: Json, b: Json)
    requires IsPath(lib.look) && AnswersStar(lib.look) && Stable(lib.caser) && AreReordered(a, b)
    ensures SameJson(a, b)
    ensures IsSmallMessage(lib.look, a) && IsSmallMessage(lib.look, b)
    ensures SchemaOf(lib, a) != SchemaOf(lib, b)
  {
    hide ShapeOf, SchemaOf, IsSmallMessage, IsPath, AnswersStar, Stable, SameJson;
    var number, typ, star := Field("b", Num("5")), Field("type", Str("T")), Field("*", Str("x"));
    assert |"type"| == 4 && |"b"| == 1;
    SameButForOrder(number, typ, [star]);
    assert a.fields == [number, typ] + [star] && b.fields == [typ, number] + [star];
    ThreeFields(a.fields, "type");
    ThreeFields(b.fields, "type");
    StarMessageIsSmall(lib.look, a, number, typ);
    StarMessageIsSmall(lib.look, b, typ, number);
    ShapesDiffer(lib.look, a, b, "*");
    SchemasDiffer(lib, a, b);
  }
}
