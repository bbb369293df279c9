/** The EIP-712 type generator as it runs: one shared dictionary, updated in place during the walk. */
module Eip712Types {
  import opened Common
  import opened Json
  import opened JsonPath
  import opened Eip712Schema
  import Eip712Fields

  /** Collect the keys in whatever order the map yields them, and sort. */
  method SortedJSONKeys(o: Json) returns (r: Result<seq<string>, SchemaError>)
    ensures r == if o.Obj? then Ok(SortedKeys(o.fields)) else Err(NotAnObject)
  {
    if !o.Obj? { return Err(NotAnObject); }
    var keys: seq<string> := [];
    var todo := Names(o.fields);
    while todo != {}
      invariant todo <= Names(o.fields)
      invariant Descending(keys) && forall k :: k in keys <==> k in Names(o.fields) && k !in todo
      decreases todo
    {
      var k :| k in todo;
      todo := todo - {k};
      InsertKeepsDescending(keys, k);
      keys := InsertKey(keys, k);
    }
    SortedKeysDescend(o.fields);
    DescendingIsUnique(keys, SortedKeys(o.fields));
    return Ok(keys);
  }

  method TypesAreEqual(a: seq<TypeDef>, b: seq<TypeDef>) returns (equal: bool)
    ensures equal <==> a == b
  {
    if |a| != |b| { return false; }
    for i := 0 to |a|
      invariant a[..i] == b[..i]
    {
      if a[i].name != b[i].name || a[i].typ != b[i].typ { return false; }
      assert a[..i + 1] == a[..i] + [a[i]] && b[..i + 1] == b[..i] + [b[i]];
    }
    assert a[..|a|] == a && b[..|b|] == b;
    return true;
  }

  class Generator {
    var types: Types
    const lib: Lib

    constructor (lib: Lib)
      ensures types == BASE && this.lib == lib
    {
      this.types, this.lib := BASE, lib;
    }

    method AddTypesToRoot(typeDef: string, defs: seq<TypeDef>) returns (r: Result<string, SchemaError>)
      modifies `types
      ensures var w := AddTypes(old(types), typeDef, defs, 0);
              && (r.Ok? <==> w.Ok?)
              && (w.Ok? ==> r.value == w.value.key && types == w.value.types)
              && (w.Err? ==> r.error == w.error && types == old(types))
    {
      var i := 0;
      while true
        invariant 0 <= i < MAX_DUPLICATES
        invariant AddTypes(types, typeDef, defs, 0) == AddTypes(types, typeDef, defs, i)
        invariant types == old(types)
        decreases MAX_DUPLICATES - i
      {
        var key := typeDef + Decimal(i);
        if key in types {
          var same := TypesAreEqual(defs, types[key]);
          if same { return Ok(key); }
        } else {
          types := types[key := defs];
          return Ok(key);
        }
        i := i + 1;
        if i == MAX_DUPLICATES { return Err(TooManyDuplicates); }
      }
    }

    /** The walk: types of the fields first, then the object's own definition. */
    method RecursivelyAddTypesToRoot(root: string, prefix: string, payload: Json) returns (r: Result<string, SchemaError>)
      modifies `types
      ensures var w := Walk(lib, old(types), root, prefix, payload);
              && (r.Ok? <==> w.Ok?)
              && (w.Ok? ==> r.value == w.value.key && types == w.value.types)
              && (w.Err? ==> r.error == w.error)
      decreases payload, 3
    {
      hide AddTypes, Sanitize, WalkFields;
      var sorted := SortedJSONKeys(payload);
      if sorted.Err? { return Err(sorted.error); }
      var defs := AddFields(root, prefix, payload, sorted.value);
      if defs.Err? { return Err(defs.error); }
      r := AddTypesToRoot(TypeDefForPrefix(lib.caser, prefix, root), defs.value);
    }

    /** The loop over the sorted field names. */
    method AddFields(root: string, prefix: string, payload: Json, keys: seq<string>)
      returns (r: Result<seq<TypeDef>, SchemaError>)
      requires payload.Obj?
      modifies `types
      ensures var l := WalkFields(lib, old(types), root, prefix, payload, keys);
              && (r.Ok? <==> l.Ok?)
              && (l.Ok? ==> r.value == l.value.defs && types == l.value.types)
              && (l.Err? ==> r.error == l.error)
      decreases payload, 1
    {
      hide FieldType;
      var defs: seq<TypeDef> := [];
      ghost var whole := WalkFields(lib, types, root, prefix, payload, keys);
      OnwardStart(whole);
      assert keys[0..] == keys;
      for i := 0 to |keys|
        invariant Onward(whole, defs, WalkFields(lib, types, root, prefix, payload, keys[i..]))
      {
        hide Onward;
        ghost var now, rest := defs, WalkFields(lib, types, root, prefix, payload, keys[i..]);
        assert keys[i..][1..] == keys[i + 1..];
        var field := lib.look(payload, keys[i]);
        if field.Some? {
          var t := AddFieldType(root, prefix, keys[i], field.value);
          if t.Err? {
            return Err(t.error);
          }
          if t.value.Some? {
            defs := defs + [TypeDef(keys[i], t.value.value)];
            OnwardStep(whole, now, rest, defs[|now|], WalkFields(lib, types, root, prefix, payload, keys[i + 1..]));
          }
        }
      }
      return Ok(defs);
    }

    /** One turn of the loop over the fields; None when the value has no type. */
    method AddFieldType(root: string, prefix: string, name: string, v: Json) returns (r: Result<Option<string>, SchemaError>)
      modifies `types
      ensures var f := FieldType(lib, old(types), root, prefix, name, v);
              && (r.Ok? <==> f.Ok?)
              && (f.Ok? ==> r.value == f.value.typ && types == f.value.types)
              && (f.Err? ==> r.error == f.error)
      decreases v, 4
    {
      hide Sanitize;
      var field, isCollection := v, false;
      if v.Arr? {
        if v.items == [] { return Ok(Some("string[]")); }
        field, isCollection := v.items[0], true;
      }
      var ethType := EthType(field);
      if ethType != "" {
        return Ok(Some(ethType + if isCollection then "[]" else ""));
      }
      if field.Obj? {
        var w := RecursivelyAddTypesToRoot(root, prefix + "." + name, field);
        if w.Err? { return Err(w.error); }
        return Ok(Some(Sanitize(lib.caser, w.value) + if isCollection then "[]" else ""));
      }
      return Ok(None);
    }

    method AddMsgTypesToRoot(field: string, msg: Option<Json>) returns (err: Option<SchemaError>)
      modifies `types
      ensures var r := AddMsgTypes(lib, old(types), field, msg);
              && (err.None? <==> r.Ok?)
              && (r.Ok? ==> types == r.value)
              && (r.Err? ==> err == Some(r.error))
    {
      hide Walk;
      if msg.None? || !msg.value.Obj? { return Some(NotAnObject); }
      var root := MsgRootType(msg.value);
      if root.None? { return Some(BadMessageType); }
      var key := RecursivelyAddTypesToRoot(root.value, ROOT_PREFIX, msg.value);
      if key.Err? { return Some(key.error); }
      types := types[TX := (if TX in types then types[TX] else []) + [TypeDef(field, key.value)]];
      return None;
    }
  }

  /** `whole` is what is left to list, preceded by the definitions listed so far. */
  ghost predicate Onward(whole: Result<Listed, SchemaError>, defs: seq<TypeDef>, rest: Result<Listed, SchemaError>) {
    whole == match rest
             case Err(e) => Err(e)
             case Ok(l) => Ok(Listed(l.types, defs + l.defs))
  }

  lemma OnwardStart(whole: Result<Listed, SchemaError>)
    ensures Onward(whole, [], whole)
  {
    if whole.Ok? { assert [] + whole.value.defs == whole.value.defs; }
  }

  lemma OnwardStep(whole: Result<Listed, SchemaError>, defs: seq<TypeDef>, rest: Result<Listed, SchemaError>,
                   d: TypeDef, rest': Result<Listed, SchemaError>)
    requires Onward(whole, defs, rest)
    requires rest == match rest' case Err(e) => Err(e) case Ok(l) => Ok(Listed(l.types, [d] + l.defs))
    ensures Onward(whole, defs + [d], rest')
  {
    if rest'.Ok? {
      assert defs + ([d] + rest'.value.defs) == defs + [d] + rest'.value.defs;
    }
  }

  method CreateEIP712Types(lib: Lib, payload: Json, n: nat) returns (r: Result<Types, SchemaError>)
    ensures r == Create(lib, payload, n)
    ensures r.Ok? && IsPath(lib.look) && Stable(lib.caser) ==> Eip712Fields.DescribesMessages(r.value, payload, n)
  {
    hide AddMsgTypes, IsPath, Stable, Eip712Fields.DescribesMessages;
    if IsPath(lib.look) && Stable(lib.caser) { Eip712Fields.SchemaDescribesFields(lib, payload, n); }
    var g := new Generator(lib);
    for i := 0 to n
      invariant Create(lib, payload, i) == Ok(g.types) && g.lib == lib && fresh(g)
    {
      var err := g.AddMsgTypesToRoot(MsgField(i), Get(payload, MsgField(i)));
      if err.Some? {
        CreateStaysFailed(lib, payload, i + 1, n);
        return Err(err.value);
      }
    }
    return Ok(g.types);
  }

  lemma {:induction false} CreateStaysFailed(lib: Lib, payload: Json, k: nat, n: nat)
    requires k <= n && Create(lib, payload, k).Err?
    ensures Create(lib, payload, n) == Create(lib, payload, k)
    decreases n - k
  {
    hide AddMsgTypes;
    if k < n {
      CreateStaysFailed(lib, payload, k, n - 1);
    }
  }
}
