/** The generated schema is closed, overwrites nothing, describes its message, and ignores key order. */
module Eip712Laws {
  import opened Common
  import opened Json
  import opened JsonPath
  import opened Eip712Schema

  // ---------------------------------------------------------------- generated names

  ghost predicate StartsWithType(s: string) {
    |s| >= 4 && s[..4] == "Type"
  }

  lemma SubNamesStartWithType(caser: Caser, prefix: string)
    requires IsSub(prefix)
    ensures StartsWithType(Sanitize(caser, prefix))
  {
    var rest := prefix[1..];
    assert Split(prefix, '.') == [['_'] + []] + Split(rest[1..], '.');
    assert Split(prefix, '.')[0] == ROOT_PREFIX;
  }

  /** A type name followed by an index ends in a digit, so it is neither an array type nor `Tx`. */
  lemma {:induction false} IndexedName(typeDef: string, i: nat)
    requires StartsWithType(typeDef)
    ensures StartsWithType(typeDef + Decimal(i)) && typeDef + Decimal(i) != TX && typeDef + Decimal(i) !in ATOMIC
    ensures BaseOf(typeDef + Decimal(i)) == typeDef + Decimal(i)
    ensures BaseOf(typeDef + Decimal(i) + "[]") == typeDef + Decimal(i)
  {
    var k, d := typeDef + Decimal(i), Decimal(i);
    assert k[..4] == typeDef[..4] && k[0] == k[..4][0];
    assert forall a :: a in ATOMIC ==> a[0] != 'T';
    assert k[|k| - 1] == d[|d| - 1] && d[|d| - 1] in d;
    assert (k + "[]")[|k|..] == "[]" && (k + "[]")[..|k|] == k;
    assert k[|k| - 2..][1] == k[|k| - 1];
  }

  // ---------------------------------------------------------------- adding one definition

  /** The definition ends up under an indexed name, and nothing that was there is touched. */
  lemma {:induction false} AddTypesIsSafe(types: Types, typeDef: string, defs: seq<TypeDef>, i: nat)
    requires i < MAX_DUPLICATES && AddTypes(types, typeDef, defs, i).Ok?
    ensures var w := AddTypes(types, typeDef, defs, i).value;
            && Extends(types, w.types)
            && w.key in w.types && w.types[w.key] == defs
            && w.types.Keys == types.Keys + {w.key}
            && exists j: nat :: w.key == typeDef + Decimal(j)
    decreases MAX_DUPLICATES - i
  {
    var key := typeDef + Decimal(i);
    if key in types && types[key] != defs {
      AddTypesIsSafe(types, typeDef, defs, i + 1);
    }
  }

  /** The name holds another definition. */
  ghost predicate Taken(types: Types, typeDef: string, defs: seq<TypeDef>, j: nat) {
    typeDef + Decimal(j) in types && types[typeDef + Decimal(j)] != defs
  }

  /** The definition goes under the first name that does not hold another one: an equal definition is shared. */
  lemma {:induction false} AddTypesTakesFirstName(types: Types, typeDef: string, defs: seq<TypeDef>, i: nat, j: nat)
    requires i <= j < 1000 && !Taken(types, typeDef, defs, j) && forall l :: i <= l < j ==> Taken(types, typeDef, defs, l)
    ensures AddTypes(types, typeDef, defs, i) == Ok(Walked(types[typeDef + Decimal(j) := defs], typeDef + Decimal(j)))
    decreases j - i
  {
    if i < j {
      assert Taken(types, typeDef, defs, i);
      AddTypesTakesFirstName(types, typeDef, defs, i + 1, j);
    } else if typeDef + Decimal(j) in types {
      assert types[typeDef + Decimal(j) := defs] == types;
    }
  }

  /** It fails only when a thousand different definitions hold all the names. */
  lemma {:induction false} AddTypesFailsIff(types: Types, typeDef: string, defs: seq<TypeDef>, i: nat)
    requires i < 1000
    ensures AddTypes(types, typeDef, defs, i).Err? <==>
            forall j :: i <= j < 1000 ==> Taken(types, typeDef, defs, j)
    decreases MAX_DUPLICATES - i
  {
    if i + 1 < MAX_DUPLICATES {
      AddTypesFailsIff(types, typeDef, defs, i + 1);
    }
    assert Taken(types, typeDef, defs, i) <==> typeDef + Decimal(i) in types && types[typeDef + Decimal(i)] != defs;
  }

  lemma ClosedGrows(types: Types, types': Types, key: string, defs: seq<TypeDef>)
    requires Closed(types) && Extends(types, types') && AllNamed(types, defs)
    requires types'.Keys == types.Keys + {key} && types'[key] == defs
    ensures Closed(types')
  {
    forall k | k in types' ensures AllNamed(types', types'[k]) {
      if k != key {
        assert AllNamed(types, types[k]);
      }
    }
  }

  // ---------------------------------------------------------------- the walk

  ghost predicate GoodPrefix(prefix: string, root: string) {
    (prefix == ROOT_PREFIX && StartsWithType(root)) || IsSub(prefix)
  }

  /** The key returned means the shape that the lookup sees in the object; nothing else is disturbed. */
  lemma {:induction false} WalkIsCorrect(lib: Lib, types: Types, root: string, prefix: string, o: Json)
    requires Stable(lib.caser) && GoodPrefix(prefix, root) && StartsWithType(root)
    requires Walk(lib, types, root, prefix, o).Ok?
    ensures var w := Walk(lib, types, root, prefix, o).value;
            && o.Obj? && Extends(types, w.types) && Means(w.types, w.key, ShapeOf(lib.look, o))
            && (exists j: nat :: w.key == TypeDefForPrefix(lib.caser, prefix, root) + Decimal(j))
            && (Closed(types) ==> Closed(w.types))
    decreases o, 2, 0
  {
    var keys := SortedKeys(o.fields);
    var l := WalkFields(lib, types, root, prefix, o, keys).value;
    var typeDef := TypeDefForPrefix(lib.caser, prefix, root);
    FieldsAreCorrect(lib, types, root, prefix, o, keys);
    AddTypesIsSafe(l.types, typeDef, l.defs, 0);
    var w := AddTypes(l.types, typeDef, l.defs, 0).value;
    if IsSub(prefix) { SubNamesStartWithType(lib.caser, prefix); }
    var j: nat :| w.key == typeDef + Decimal(j);
    IndexedName(typeDef, j);
    MembersLast(l.types, w.types, l.defs, Members(lib.look, o, keys));
    assert ShapeOf(lib.look, o) == Struct(Members(lib.look, o, keys));
    if Closed(types) { ClosedGrows(l.types, w.types, w.key, l.defs); }
  }

  lemma {:induction false} FieldsAreCorrect(lib: Lib, types: Types, root: string, prefix: string, o: Json,
                                            keys: seq<string>)
    requires Stable(lib.caser) && GoodPrefix(prefix, root) && StartsWithType(root)
    requires o.Obj? && WalkFields(lib, types, root, prefix, o, keys).Ok?
    ensures var l := WalkFields(lib, types, root, prefix, o, keys).value;
            && Extends(types, l.types) && AreMembers(l.types, l.defs, Members(lib.look, o, keys))
            && (Closed(types) ==> Closed(l.types) && AllNamed(l.types, l.defs))
    decreases o, 1, |keys|
  {
    if keys != [] {
      var v := lib.look(o, keys[0]);
      if v.None? {
        FieldsAreCorrect(lib, types, root, prefix, o, keys[1..]);
      } else {
        FieldTypeMeans(lib, types, root, prefix, keys[0], v.value);
        var f := FieldType(lib, types, root, prefix, keys[0], v.value).value;
        FieldsAreCorrect(lib, f.types, root, prefix, o, keys[1..]);
        var l := WalkFields(lib, f.types, root, prefix, o, keys[1..]).value;
        if f.typ.Some? {
          MeansLasts(f.types, l.types, f.typ.value, ShapeOf(lib.look, v.value));
        }
      }
    }
  }

  ghost predicate FieldTypeFits(look: Look, types: Types, v: Json, f: Typed) {
    && Extends(types, f.types)
    && (f.typ.Some? <==> Typable(v))
    && (f.typ.Some? ==> Means(f.types, f.typ.value, ShapeOf(look, v)) && Named(f.types, f.typ.value))
    && (Closed(types) ==> Closed(f.types))
  }

  /** The type given to a found value means its shape; there is none exactly when the value has no type. */
  lemma {:induction false} FieldTypeIsCorrect(lib: Lib, types: Types, root: string, prefix: string, name: string,
                                              v: Json)
    requires Stable(lib.caser) && GoodPrefix(prefix, root) && StartsWithType(root)
    requires FieldType(lib, types, root, prefix, name, v).Ok?
    ensures FieldTypeFits(lib.look, types, v, FieldType(lib, types, root, prefix, name, v).value)
    ensures var t := FieldType(lib, types, root, prefix, name, v).value.typ;
            && (v.Bool? ==> t == Some("bool")) && (v.Num? ==> t == Some("int64")) && (v.Str? ==> t == Some("string"))
            && (v == Arr([]) ==> t == Some("string[]")) && (v.Null? ==> t == None)
            && (v.Arr? && v.items != [] ==>
                 && (v.items[0].Bool? ==> t == Some("bool[]")) && (v.items[0].Num? ==> t == Some("int64[]"))
                 && (v.items[0].Str? ==> t == Some("string[]")) && (v.items[0].Null? || v.items[0].Arr? ==> t == None))
  {
    hide FieldTypeFits, Walk, Sanitize;
    FieldTypeMeans(lib, types, root, prefix, name, v);
    assert "bool" + "" == "bool" && "int64" + "" == "int64" && "string" + "" == "string";
    assert "bool" + "[]" == "bool[]" && "int64" + "[]" == "int64[]" && "string" + "[]" == "string[]";
  }

  lemma {:induction false} FieldTypeMeans(lib: Lib, types: Types, root: string, prefix: string, name: string, v: Json)
    requires Stable(lib.caser) && GoodPrefix(prefix, root) && StartsWithType(root)
    requires FieldType(lib, types, root, prefix, name, v).Ok?
    ensures FieldTypeFits(lib.look, types, v, FieldType(lib, types, root, prefix, name, v).value)
    decreases v, 3, 0
  {
    hide Walk, Sanitize, Named, Closed, Stable, Means, Members;
    var elem := if v == Arr([]) then Str("") else if v.Arr? then v.items[0] else v;
    assert "string" + "[]" == "string[]";
    if elem.Obj? {
      var sub := prefix + "." + name;
      WalkIsCorrect(lib, types, root, sub, elem);
      var w := Walk(lib, types, root, sub, elem).value;
      var j: nat :| w.key == Sanitize(lib.caser, sub) + Decimal(j);
      NestedName(lib.caser, sub, j, w.types, ShapeOf(lib.look, elem));
      assert w.key + "" == w.key && ShapeOf(lib.look, elem) == ElementShape(lib.look, elem);
    } else if EthType(elem) != "" {
      var a := EthType(elem);
      AtomMeans(types, elem);
      assert a + "" == a && (v.Arr? && v.items != [] ==> ElementShape(lib.look, elem) == Atom(a));
      assert ShapeOf(lib.look, v) == if v.Arr? then List(Atom(a)) else Atom(a);
    }
  }

  /** The name of a nested type is left alone, and names a list with brackets behind it. */
  lemma {:induction false} NestedName(caser: Caser, sub: string, j: nat, types: Types, s: Shape)
    requires Stable(caser) && IsSub(sub) && s.Struct? && Means(types, Sanitize(caser, sub) + Decimal(j), s)
    ensures var key := Sanitize(caser, sub) + Decimal(j);
            && Sanitize(caser, key) == key && Means(types, key + "[]", List(s))
            && Named(types, key) && Named(types, key + "[]")
  {
    SubNamesStartWithType(caser, sub);
    IndexedName(Sanitize(caser, sub), j);
    Suffixed(Sanitize(caser, sub) + Decimal(j));
  }

  lemma {:induction false} AtomMeans(types: Types, v: Json)
    requires EthType(v) != ""
    ensures var a := EthType(v);
            && Means(types, a, Atom(a)) && Named(types, a)
            && Means(types, a + "[]", List(Atom(a))) && Named(types, a + "[]")
  {
    AtomicNames(v);
    hide EthType, BaseOf;
    var a := EthType(v);
    assert Means(types, a, Atom(a));
  }

  lemma Suffixed(t: string)
    ensures t + "" == t && BaseOf(t + "[]") == t && t + "[]" != t
  {
    assert (t + "[]")[|t|..] == "[]" && (t + "[]")[..|t|] == t;
  }

  lemma AtomicNames(v: Json)
    requires EthType(v) != ""
    ensures var t := EthType(v);
            t in ATOMIC && BaseOf(t) == t && BaseOf(t + "[]") == t && t + "" == t && t + "[]" != t
  {
    var t := EthType(v);
    Suffixed(t);
    assert t[|t| - 1] != ']' && t[|t| - 2..][1] == t[|t| - 1];
  }

  // ---------------------------------------------------------------- what is listed

  ghost predicate HasMember(ms: seq<Member>, k: string) {
    exists m :: m in ms && m.name == k
  }

  ghost predicate FindsTypable(look: Look, o: Json, k: string) {
    look(o, k).Some? && Typable(look(o, k).value)
  }

  lemma {:induction false} MembersIff(look: Look, o: Json, keys: seq<string>, k: string)
    requires o.Obj?
    ensures HasMember(Members(look, o, keys), k) <==> k in keys && FindsTypable(look, o, k)
    decreases |keys|
  {
    if keys != [] {
      MembersIff(look, o, keys[1..], k);
      var ms, rest := Members(look, o, keys), Members(look, o, keys[1..]);
      if HasMember(rest, k) {
        var m :| m in rest && m.name == k;
        assert m in ms;
      }
      if FindsTypable(look, o, keys[0]) {
        assert ms[0].name == keys[0] && ms[0] in ms;
        assert forall m :: m in ms <==> m == ms[0] || m in rest;
      }
    }
  }

  /** A field is listed exactly when the lookup of its key finds something that has a type. */
  lemma {:induction false} FieldIsListedIff(lib: Lib, types: Types, root: string, prefix: string, o: Json, k: string)
    requires Stable(lib.caser) && GoodPrefix(prefix, root) && StartsWithType(root)
    requires Walk(lib, types, root, prefix, o).Ok?
    ensures var w := Walk(lib, types, root, prefix, o).value;
            && o.Obj? && w.key in w.types
            && ((exists d :: d in w.types[w.key] && d.name == k) <==> k in Names(o.fields) && FindsTypable(lib.look, o, k))
  {
    hide Walk, FindsTypable, Members;
    WalkIsCorrect(lib, types, root, prefix, o);
    var w := Walk(lib, types, root, prefix, o).value;
    var ms := Members(lib.look, o, SortedKeys(o.fields));
    assert ShapeOf(lib.look, o) == Struct(ms);
    MembersIff(lib.look, o, SortedKeys(o.fields), k);
  }

  // ---------------------------------------------------------------- own fields and seen fields

  /** The shape of a value by its own fields is the one that the lookup sees in it. */
  ghost predicate SeesItself(look: Look, v: Json)
    requires Typable(v)
  {
    ShapeOf(look, v) == ShapeOf(ByName(), v)
  }

  /** Under this key the lookup finds something typable exactly when the field is, and of the same shape. */
  ghost predicate KeySeesItself(look: Look, o: Json, k: string) {
    && (FindsTypable(look, o, k) <==> FindsTypable(ByName(), o, k))
    && (FindsTypable(look, o, k) && FindsTypable(ByName(), o, k) ==>
          ShapeOf(look, look(o, k).value) == ShapeOf(ByName(), Get(o, k).value))
  }

  lemma {:induction false} MembersAgreeIff(look: Look, o: Json, keys: seq<string>)
    requires o.Obj?
    ensures Members(look, o, keys) == Members(ByName(), o, keys) <==>
            forall k :: k in keys ==> KeySeesItself(look, o, k)
    decreases |keys|
  {
    if keys != [] {
      hide ShapeOf;
      var k := keys[0];
      var ms, ns := Members(look, o, keys), Members(ByName(), o, keys);
      MembersAgreeIff(look, o, keys[1..]);
      MembersIff(look, o, keys, k);
      MembersIff(ByName(), o, keys, k);
      assert ByName()(o, k) == Get(o, k);
      assert forall x :: x in keys <==> x == k || x in keys[1..];
      if FindsTypable(look, o, k) && FindsTypable(ByName(), o, k) {
        assert ms[1..] == Members(look, o, keys[1..]) && ns[1..] == Members(ByName(), o, keys[1..]);
        assert ms == [ms[0]] + ms[1..] && ns == [ns[0]] + ns[1..];
      }
    }
  }

  /** An object is seen as it is exactly when each of its keys is. */
  lemma {:induction false} SeesItselfIff(look: Look, o: Json)
    requires o.Obj?
    ensures SeesItself(look, o) <==> forall k :: k in Names(o.fields) ==> KeySeesItself(look, o, k)
  {
    hide Members;
    MembersAgreeIff(look, o, SortedKeys(o.fields));
    assert ShapeOf(look, o) == Struct(Members(look, o, SortedKeys(o.fields)));
    assert ShapeOf(ByName(), o) == Struct(Members(ByName(), o, SortedKeys(o.fields)));
  }

  /** A key that the lookup reads as more than a name. */
  predicate IsPathKey(k: string) {
    '.' in k || IsQuery(k)
  }

  /**
   * Nothing in the value is mistaken: whatever the path keys of an object find has the shape of the field they
   * name, and the fields under its other keys are undisturbed in turn.
   */
  ghost predicate Undisturbed(look: Look, v: Json)
    decreases v
  {
    match v
    case Obj(_) => forall k :: k in Names(v.fields) ==> KeyUndisturbed(look, v, k)
    case Arr(items) => items != [] ==> Undisturbed(look, items[0])
    case _ => true
  }

  ghost predicate KeyUndisturbed(look: Look, o: Json, k: string)
    requires o.Obj? && k in Names(o.fields)
    decreases o, k
  {
    if IsPathKey(k) then KeySeesItself(look, o, k)
    else Typable(Get(o, k).value) ==> Undisturbed(look, Get(o, k).value)
  }

  /** A value is seen as it is exactly when no path key in it is mistaken. */
  lemma {:induction false} SeesItselfIffUndisturbed(look: Look, v: Json)
    requires IsPath(look) && Typable(v)
    ensures SeesItself(look, v) <==> Undisturbed(look, v)
    decreases v
  {
    if v.Obj? {
      SeesItselfIff(look, v);
      forall k | k in Names(v.fields) ensures KeySeesItself(look, v, k) <==> KeyUndisturbed(look, v, k) {
        KeySeesItselfIffUndisturbed(look, v, k);
      }
    } else if v.Arr? && v.items != [] {
      var elem := v.items[0];
      SeesItselfIffUndisturbed(look, elem);
      assert ShapeOf(look, elem) == ElementShape(look, elem) && ShapeOf(ByName(), elem) == ElementShape(ByName(), elem);
    } else {
      assert v.Arr? ==> v == Arr([]);
      assert !v.Arr? ==> ElementShape(look, v) == Atom(EthType(v)) == ElementShape(ByName(), v);
    }
  }

  lemma {:induction false} KeySeesItselfIffUndisturbed(look: Look, o: Json, k: string)
    requires IsPath(look) && o.Obj? && k in Names(o.fields)
    ensures KeySeesItself(look, o, k) <==> KeyUndisturbed(look, o, k)
    decreases o, k
  {
    if !IsPathKey(k) {
      PlainKeyFindsItsField(look, o, k);
      assert ByName()(o, k) == Get(o, k);
      if Typable(Get(o, k).value) { SeesItselfIffUndisturbed(look, Get(o, k).value); }
    }
  }

  /**
   * EIP-712 wants the type of an object to list the object's own fields. The generated one does exactly when every
   * key of the object finds a value of the shape of its own field; and with a path lookup that can go wrong only
   * under path keys, of the object or of what it holds.
   */
  lemma {:induction false} WalkDescribesOwnFieldsIff(lib: Lib, types: Types, root: string, prefix: string, o: Json)
    requires Stable(lib.caser) && GoodPrefix(prefix, root) && StartsWithType(root)
    requires Walk(lib, types, root, prefix, o).Ok?
    ensures o.Obj?
    ensures var w := Walk(lib, types, root, prefix, o).value;
            && (Means(w.types, w.key, ShapeOf(ByName(), o)) <==>
                forall k :: k in Names(o.fields) ==> KeySeesItself(lib.look, o, k))
            && (IsPath(lib.look) ==> (Means(w.types, w.key, ShapeOf(ByName(), o)) <==> Undisturbed(lib.look, o)))
  {
    hide Walk, Means, ShapeOf, KeySeesItself, Undisturbed;
    WalkIsCorrect(lib, types, root, prefix, o);
    var w := Walk(lib, types, root, prefix, o).value;
    OneMeaning(w.types, w.key, ShapeOf(lib.look, o), ShapeOf(ByName(), o));
    SeesItselfIff(lib.look, o);
    if IsPath(lib.look) { SeesItselfIffUndisturbed(lib.look, o); }
  }

  lemma {:induction false} OneMeaning(types: Types, t: string, s: Shape, s': Shape)
    requires Means(types, t, s)
    ensures Means(types, t, s') <==> s == s'
  {
    if Means(types, t, s') { MeaningIsUnique(types, t, s, s'); }
  }

  /** Without path keys, at any depth, nothing is mistaken. */
  lemma {:induction false} PlainKeysAreUndisturbed(look: Look, v: Json)
    requires PlainKeys(v)
    ensures Undisturbed(look, v)
    decreases v
  {
    if v.Obj? {
      forall k | k in Names(v.fields) ensures KeyUndisturbed(look, v, k) {
        var f := v.fields[Find(v.fields, k)];
        assert f in v.fields && f.name == k && Get(v, k).value == f.value;
        PlainKeysAreUndisturbed(look, f.value);
      }
    } else if v.Arr? && v.items != [] {
      PlainKeysAreUndisturbed(look, v.items[0]);
    }
  }

  // ---------------------------------------------------------------- a whole payload

  /** Entry `i` of the `Tx` definition names message `i` and a type that means what the lookup sees in it. */
  ghost predicate TxEntry(look: Look, types: Types, payload: Json, i: nat, d: TypeDef) {
    && d.name == MsgField(i)
    && Get(payload, MsgField(i)).Some? && Get(payload, MsgField(i)).value.Obj?
    && Means(types, d.typ, ShapeOf(look, Get(payload, MsgField(i)).value))
    && NamedAfter(Get(payload, MsgField(i)).value, d.typ)
  }

  /** The name is the root type of the message and an index. */
  ghost predicate NamedAfter(msg: Json, t: string) {
    MsgRootType(msg).Some? && exists j: nat :: t == MsgRootType(msg).value + Decimal(j)
  }

  ghost predicate TxEntries(look: Look, types: Types, payload: Json, entries: seq<TypeDef>) {
    forall i :: 0 <= i < |entries| ==> TxEntry(look, types, payload, i, entries[i])
  }

  /** `Tx` is the fixed list followed by one entry per message. */
  ghost predicate TxLists(look: Look, types: Types, fixed: seq<TypeDef>, payload: Json, n: nat) {
    && TX in types && fixed <= types[TX] && |types[TX]| == |fixed| + n
    && TxEntries(look, types, payload, types[TX][|fixed|..])
  }

  lemma BaseNames(t: string)
    requires t in {"string", "uint256", "Fee", "Coin[]"}
    ensures Named(BASE, t)
  {
    if t == "Coin[]" {
      Suffixed("Coin");
      assert t == "Coin" + "[]";
    } else {
      assert t[|t| - 1] != ']' && t[|t| - 2..][1] == t[|t| - 1];
    }
  }

  lemma NamedByTypes(types: Types, defs: seq<TypeDef>, names: set<string>)
    requires (forall t :: t in names ==> Named(types, t)) && forall i :: 0 <= i < |defs| ==> defs[i].typ in names
    ensures AllNamed(types, defs)
  {
  }

  lemma BaseIsClosed()
    ensures Closed(BASE)
  {
    hide Named, AllNamed;
    var names := {"string", "uint256", "Fee", "Coin[]"};
    forall t | t in names ensures Named(BASE, t) { BaseNames(t); }
    forall k | k in BASE ensures AllNamed(BASE, BASE[k]) {
      assert forall i :: 0 <= i < |BASE[k]| ==> BASE[k][i].typ in names;
      NamedByTypes(BASE, BASE[k], names);
    }
  }

  /**
   * On success every struct type named is defined, the fixed definitions are as they were with only the
   * message entries appended to `Tx`, and each entry's type means what the lookup sees in its message.
   */
  lemma {:induction false} SchemaIsCorrect(lib: Lib, payload: Json, n: nat)
    requires Stable(lib.caser) && Create(lib, payload, n).Ok?
    ensures var types := Create(lib, payload, n).value;
            Closed(types) && ExtendsButTx(BASE, types) && TxLists(lib.look, types, BASE_TX, payload, n)
    decreases n
  {
    hide AddMsgTypes, Closed;
    if n == 0 {
      BaseIsClosed();
      assert BASE_TX[|BASE_TX|..] == [];
    } else {
      var before := Create(lib, payload, n - 1).value;
      SchemaIsCorrect(lib, payload, n - 1);
      MessageIsAdded(lib, BASE, BASE_TX, before, payload, n - 1);
    }
  }

  /** An entry's type describes the message's own fields under the same condition on its keys. */
  lemma {:induction false} SchemaDescribesMessageIff(lib: Lib, payload: Json, n: nat, i: nat)
    requires Stable(lib.caser) && i < n
    ensures Create(lib, payload, n).Ok? ==>
            var types := Create(lib, payload, n).value;
            && TX in types && |types[TX]| == |BASE_TX| + n
            && Get(payload, MsgField(i)).Some? && Get(payload, MsgField(i)).value.Obj?
            && var d, msg := types[TX][|BASE_TX| + i], Get(payload, MsgField(i)).value;
               && d.name == MsgField(i)
               && (Means(types, d.typ, ShapeOf(ByName(), msg)) <==>
                   forall k :: k in Names(msg.fields) ==> KeySeesItself(lib.look, msg, k))
               && (IsPath(lib.look) ==> (Means(types, d.typ, ShapeOf(ByName(), msg)) <==> Undisturbed(lib.look, msg)))
  {
    hide Create, Closed, Means, ShapeOf, KeySeesItself, Undisturbed;
    if Create(lib, payload, n).Err? { return; }
    SchemaIsCorrect(lib, payload, n);
    var types := Create(lib, payload, n).value;
    var entries := types[TX][|BASE_TX|..];
    assert TxEntry(lib.look, types, payload, i, entries[i]);
    var d, msg := types[TX][|BASE_TX| + i], Get(payload, MsgField(i)).value;
    OneMeaning(types, d.typ, ShapeOf(lib.look, msg), ShapeOf(ByName(), msg));
    SeesItselfIff(lib.look, msg);
    if IsPath(lib.look) { SeesItselfIffUndisturbed(lib.look, msg); }
  }

  /** A field of message `i` is listed exactly when the lookup of its key finds something that has a type. */
  lemma {:induction false} SchemaListsFieldIff(lib: Lib, payload: Json, n: nat, i: nat, k: string)
    requires Stable(lib.caser) && i < n
    ensures Create(lib, payload, n).Ok? ==>
            var types := Create(lib, payload, n).value;
            && TX in types && |types[TX]| == |BASE_TX| + n
            && Get(payload, MsgField(i)).Some? && Get(payload, MsgField(i)).value.Obj?
            && var t, msg := types[TX][|BASE_TX| + i].typ, Get(payload, MsgField(i)).value;
               && t in types && Means(types, t, ShapeOf(lib.look, msg)) && NamedAfter(msg, t)
               && types[TX][|BASE_TX| + i].name == MsgField(i)
               && ((exists d :: d in types[t] && d.name == k) <==> k in Names(msg.fields) && FindsTypable(lib.look, msg, k))
  {
    hide Create, Closed, FindsTypable, Members;
    if Create(lib, payload, n).Err? { return; }
    SchemaIsCorrect(lib, payload, n);
    var types := Create(lib, payload, n).value;
    assert TxEntry(lib.look, types, payload, i, types[TX][|BASE_TX|..][i]);
    var t, msg := types[TX][|BASE_TX| + i].typ, Get(payload, MsgField(i)).value;
    var ms := Members(lib.look, msg, SortedKeys(msg.fields));
    assert ShapeOf(lib.look, msg) == Struct(ms);
    MembersIff(lib.look, msg, SortedKeys(msg.fields), k);
  }

  lemma MessageIsAdded(lib: Lib, base: Types, fixed: seq<TypeDef>, types: Types, payload: Json, i: nat)
    requires Stable(lib.caser) && Closed(types) && ExtendsButTx(base, types) && TxLists(lib.look, types, fixed, payload, i)
    requires AddMsgTypes(lib, types, MsgField(i), Get(payload, MsgField(i))).Ok?
    ensures var types' := AddMsgTypes(lib, types, MsgField(i), Get(payload, MsgField(i))).value;
            Closed(types') && ExtendsButTx(base, types') && TxLists(lib.look, types', fixed, payload, i + 1)
  {
    hide Walk, Means, ShapeOf, MsgRootType, Closed, TxEntries;
    var msg := Get(payload, MsgField(i)).value;
    var root := MsgRootType(msg).value;
    WalkIsCorrect(lib, types, root, ROOT_PREFIX, msg);
    var w := Walk(lib, types, root, ROOT_PREFIX, msg).value;
    var j: nat :| w.key == root + Decimal(j);
    IndexedName(root, j);
    TxGrows(lib.look, base, fixed, types, w.types, payload, i, TypeDef(MsgField(i), w.key));
  }

  lemma TxGrows(look: Look, base: Types, fixed: seq<TypeDef>, before: Types, types: Types, payload: Json, i: nat, d: TypeDef)
    requires Extends(before, types) && ExtendsButTx(base, before) && TxLists(look, before, fixed, payload, i) && Closed(types)
    requires TxEntry(look, types, payload, i, d) && Named(types, d.typ)
    ensures TX in types
    ensures var types' := types[TX := types[TX] + [d]];
            Closed(types') && ExtendsButTx(base, types') && TxLists(look, types', fixed, payload, i + 1)
  {
    hide TxEntries, TxEntry;
    var types' := types[TX := types[TX] + [d]];
    var es := before[TX][|fixed|..];
    EntriesLast(look, before, types', payload, es);
    EntryLasts(look, types, types', payload, i, d);
    EntriesGrow(look, types', payload, es, d);
    assert types'[TX][|fixed|..] == es + [d];
  }

  lemma EntryLasts(look: Look, types: Types, types': Types, payload: Json, i: nat, d: TypeDef)
    requires ExtendsButTx(types, types') && TxEntry(look, types, payload, i, d)
    ensures TxEntry(look, types', payload, i, d)
  {
    hide Means, ShapeOf;
    MeansLasts(types, types', d.typ, ShapeOf(look, Get(payload, MsgField(i)).value));
  }

  lemma EntriesLast(look: Look, types: Types, types': Types, payload: Json, es: seq<TypeDef>)
    requires ExtendsButTx(types, types') && TxEntries(look, types, payload, es)
    ensures TxEntries(look, types', payload, es)
  {
    hide TxEntry;
    forall i | 0 <= i < |es| ensures TxEntry(look, types', payload, i, es[i]) {
      EntryLasts(look, types, types', payload, i, es[i]);
    }
  }

  lemma EntriesGrow(look: Look, types: Types, payload: Json, es: seq<TypeDef>, d: TypeDef)
    requires TxEntries(look, types, payload, es) && TxEntry(look, types, payload, |es|, d)
    ensures TxEntries(look, types, payload, es + [d])
  {
  }

  // ---------------------------------------------------------------- key order

  /** Messages that differ only in field order get the same schema and the same dictionary. */
  lemma {:induction false} WalkIgnoresKeyOrder(lib: Lib, types: Types, root: string, prefix: string, a: Json, b: Json)
    requires IsPath(lib.look) && NoQueries(a) && SameJson(a, b)
    ensures Walk(lib, types, root, prefix, a) == Walk(lib, types, root, prefix, b)
    decreases a, 2, 0
  {
    if a.Obj? {
      SameNames(a, b);
      SortedKeysDescend(a.fields);
      SortedKeysDescend(b.fields);
      DescendingIsUnique(SortedKeys(a.fields), SortedKeys(b.fields));
      FieldsIgnoreKeyOrder(lib, types, root, prefix, a, b, SortedKeys(a.fields));
    }
  }

  lemma {:induction false} FieldsIgnoreKeyOrder(lib: Lib, types: Types, root: string, prefix: string, a: Json, b: Json,
                                                keys: seq<string>)
    requires IsPath(lib.look) && NoQueries(a) && a.Obj? && SameJson(a, b) && forall k :: k in keys ==> k in Names(a.fields)
    ensures WalkFields(lib, types, root, prefix, a, keys) == WalkFields(lib, types, root, prefix, b, keys)
    decreases a, 1, |keys|
  {
    if keys != [] {
      var k := keys[0];
      assert k in keys && a.fields[Find(a.fields, k)] in a.fields;
      LookIgnoresOrder(lib.look, a, b, k);
      var v, u := lib.look(a, k), lib.look(b, k);
      if v.None? {
        FieldsIgnoreKeyOrder(lib, types, root, prefix, a, b, keys[1..]);
      } else {
        FieldTypeIgnoresKeyOrder(lib, types, root, prefix, k, v.value, u.value);
        var f := FieldType(lib, types, root, prefix, k, v.value);
        if f.Ok? { FieldsIgnoreKeyOrder(lib, f.value.types, root, prefix, a, b, keys[1..]); }
      }
    }
  }

  lemma {:induction false} FieldTypeIgnoresKeyOrder(lib: Lib, types: Types, root: string, prefix: string, name: string,
                                                    v: Json, u: Json)
    requires IsPath(lib.look) && NoQueries(v) && SameJson(v, u)
    ensures FieldType(lib, types, root, prefix, name, v) == FieldType(lib, types, root, prefix, name, u)
    decreases v, 3, 0
  {
    var elem := if v.Arr? && v.items != [] then v.items[0] else v;
    var elem' := if u.Arr? && u.items != [] then u.items[0] else u;
    assert SameJson(elem, elem') && NoQueries(elem);
    if elem.Obj? {
      WalkIgnoresKeyOrder(lib, types, root, prefix + "." + name, elem, elem');
    }
  }

  /** Payloads that differ only in field order, at any depth, get the same schema. */
  lemma {:induction false} SchemaIgnoresKeyOrder(lib: Lib, a: Json, b: Json, n: nat)
    requires IsPath(lib.look) && NoQueries(a) && a.Obj? && SameJson(a, b)
    ensures Create(lib, a, n) == Create(lib, b, n)
  {
    hide AddMsgTypes;
    if n > 0 {
      SchemaIgnoresKeyOrder(lib, a, b, n - 1);
      var before := Create(lib, a, n - 1);
      if before.Ok? { MessageIgnoresKeyOrder(lib, before.value, a, b, MsgField(n - 1)); }
    }
  }

  lemma {:induction false} MessageIgnoresKeyOrder(lib: Lib, types: Types, a: Json, b: Json, field: string)
    requires IsPath(lib.look) && NoQueries(a) && a.Obj? && SameJson(a, b)
    ensures AddMsgTypes(lib, types, field, Get(a, field)) == AddMsgTypes(lib, types, field, Get(b, field))
  {
    hide AddMsgTypes, IsPath, SameJson;
    GetIgnoresOrder(a, b, field);
    if Get(a, field).Some? {
      assert a.fields[Find(a.fields, field)] in a.fields;
      SameMessageSameTypes(lib, types, field, Get(a, field).value, Get(b, field).value);
    }
  }

  lemma {:induction false} SameMessageSameTypes(lib: Lib, types: Types, field: string, v: Json, u: Json)
    requires IsPath(lib.look) && NoQueries(v) && SameJson(v, u)
    ensures AddMsgTypes(lib, types, field, Some(v)) == AddMsgTypes(lib, types, field, Some(u))
  {
    assert v.Obj? <==> u.Obj?;
    hide Walk, MsgRootType, IsPath, NoQueries, SameJson;
    if v.Obj? {
      RootTypeIgnoresKeyOrder(v, u);
      if MsgRootType(v).Some? {
        WalkIgnoresKeyOrder(lib, types, MsgRootType(v).value, ROOT_PREFIX, v, u);
      }
    }
  }

  lemma {:induction false} RootTypeIgnoresKeyOrder(a: Json, b: Json)
    requires a.Obj? && SameJson(a, b)
    ensures MsgRootType(a) == MsgRootType(b)
  {
    hide Get;
    GetIgnoresOrder(a, b, "type");
  }

  // ---------------------------------------------------------------- a caser for which generated names are stable

  function Upper(c: char): (u: char) {
    if 'a' <= c <= 'z' then c - 'a' + 'A' else c
  }

  /** Title case of a single word: the first letter goes up, the rest stays. */
  function Capitalise(s: string): (r: string) {
    if s == [] then [] else [Upper(s[0])] + s[1..]
  }

  ghost predicate Free(s: string, c: char) {
    forall k :: 0 <= k < |s| ==> s[k] != c
  }

  /** Splitting leaves the separator in no part, and puts nothing new into any. */
  lemma {:induction false} PartsAreFree(s: string, c: char, d: char, k: nat)
    requires k < |Split(s, c)|
    ensures Free(Split(s, c)[k], c)
    ensures Free(s, d) ==> Free(Split(s, c)[k], d)
  {
    if s != [] {
      assert Free(s, d) ==> s[0] != d && Free(s[1..], d);
      if s[0] == c {
        if k > 0 { PartsAreFree(s[1..], c, d, k - 1); }
      } else {
        PartsAreFree(s[1..], c, d, k);
      }
    }
  }

  lemma {:induction false} TitlesAreFree(parts: seq<string>, c: char)
    requires c == '.' || c == '_'
    requires forall k :: 0 <= k < |parts| ==> Free(parts[k], c)
    ensures Free(TitleAll(Capitalise, parts), c)
  {
    if parts != [] {
      assert Free(parts[0], c);
      assert Free(Capitalise(parts[0]), c);
      TitlesAreFree(parts[1..], c);
    }
  }

  lemma {:induction false} NamesAreFree(parts: seq<string>)
    requires forall k :: 0 <= k < |parts| ==> Free(parts[k], '.')
    ensures Free(SanitizeParts(Capitalise, parts), '.') && Free(SanitizeParts(Capitalise, parts), '_')
  {
    if parts != [] {
      NamesAreFree(parts[1..]);
      if parts[0] != ROOT_PREFIX {
        var subs := Split(parts[0], '_');
        forall k | 0 <= k < |subs| ensures Free(subs[k], '_') && Free(subs[k], '.') {
          PartsAreFree(parts[0], '_', '.', k);
        }
        TitlesAreFree(subs, '.');
        TitlesAreFree(subs, '_');
      }
    }
  }

  /** Capitalising first letters meets the condition the schema laws ask of the caser. */
  lemma CapitaliseIsStable()
    ensures Stable(Capitalise)
  {
    forall p, i: nat | IsSub(p)
      ensures Sanitize(Capitalise, Sanitize(Capitalise, p) + Decimal(i)) == Sanitize(Capitalise, p) + Decimal(i)
    {
      var parts := Split(p, '.');
      forall k | 0 <= k < |parts| ensures Free(parts[k], '.') { PartsAreFree(p, '.', '.', k); }
      NamesAreFree(parts);
      SubNamesStartWithType(Capitalise, p);
      var n := Sanitize(Capitalise, p) + Decimal(i);
      var d := Decimal(i);
      assert forall k :: 0 <= k < |d| ==> d[k] in d;
      assert Free(n, '.') && Free(n, '_');
      CleanNameIsFixed(n);
    }
  }

  lemma CleanNameIsFixed(n: string)
    requires Free(n, '.') && Free(n, '_') && |n| > 0 && n[0] == 'T'
    ensures Sanitize(Capitalise, n) == n
  {
    SplitFree(n, '.');
    SplitFree(n, '_');
    assert [n][1..] == [] && Capitalise(n) == n;
    assert TitleAll(Capitalise, [n]) == n + [] == n;
    assert SanitizeParts(Capitalise, [n]) == n + [] == n;
  }
}
