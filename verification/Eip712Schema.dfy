/**
 * EIP-712 type generation: what the schema of a JSON message is, as a value. The dictionary is threaded
 * through a walk over the message; `Eip712Types` is the code that updates it in place.
 */
module Eip712Schema {
  import opened Common
  import opened Json
  import opened JsonPath

  datatype TypeDef = TypeDef(name: string, typ: string)

  type Types = map<string, seq<TypeDef>>

  datatype SchemaError = NotAnObject | BadMessageType | TooManyDuplicates

  datatype Walked = Walked(types: Types, key: string)
  datatype Listed = Listed(types: Types, defs: seq<TypeDef>)
  datatype Typed = Typed(types: Types, typ: Option<string>)

  const ROOT_PREFIX := "_"
  const TX := "Tx"
  const MAX_DUPLICATES: nat := 1000

  // ---------------------------------------------------------------- names

  /** The title caser is a parameter. */
  type Caser = string -> string

  function TitleAll(caser: Caser, parts: seq<string>): (s: string) {
    if parts == [] then [] else caser(parts[0]) + TitleAll(caser, parts[1..])
  }

  function SanitizeParts(caser: Caser, parts: seq<string>): (s: string) {
    if parts == [] then []
    else (if parts[0] == ROOT_PREFIX then "Type" else TitleAll(caser, Split(parts[0], '_'))) + SanitizeParts(caser, parts[1..])
  }

  /** `_.foo_bar.baz` becomes `TypeFooBarBaz`. */
  function Sanitize(caser: Caser, s: string): (r: string) {
    SanitizeParts(caser, Split(s, '.'))
  }

  function TypeDefForPrefix(caser: Caser, prefix: string, root: string): (s: string) {
    if prefix == ROOT_PREFIX then root else Sanitize(caser, prefix)
  }

  /** What the code takes from its libraries: title casing, and the lookup of a field by its key. */
  datatype Lib = Lib(caser: Caser, look: Look)

  /** A prefix below the root. */
  ghost predicate IsSub(prefix: string) {
    |prefix| >= 2 && prefix[0] == '_' && prefix[1] == '.'
  }

  /** Sanitising leaves the generated names of nested types alone. */
  ghost predicate Stable(caser: Caser) {
    forall p, i: nat :: IsSub(p) ==>
      Sanitize(caser, Sanitize(caser, p) + Decimal(i)) == Sanitize(caser, p) + Decimal(i)
  }

  // ---------------------------------------------------------------- the walk

  function EthType(v: Json): (t: string) {
    match v
    case Bool(_) => "bool"
    case Num(_) => "int64"
    case Str(_) => "string"
    case _ => ""
  }

  /** Find the definition under the next free index, or an identical one on the way there. */
  function AddTypes(types: Types, typeDef: string, defs: seq<TypeDef>, i: nat): (r: Result<Walked, SchemaError>)
    requires i < MAX_DUPLICATES
    decreases MAX_DUPLICATES - i
  {
    var key := typeDef + Decimal(i);
    if key in types && types[key] == defs then Ok(Walked(types, key))
    else if key !in types then Ok(Walked(types[key := defs], key))
    else if i + 1 == MAX_DUPLICATES then Err(TooManyDuplicates)
    else AddTypes(types, typeDef, defs, i + 1)
  }

  /** The type of one field's value, walking an object or the first element of an array. */
  function FieldType(lib: Lib, types: Types, root: string, prefix: string, name: string, v: Json)
    : (r: Result<Typed, SchemaError>)
    decreases v, 3, 0
  {
    if v.Arr? && v.items == [] then Ok(Typed(types, Some("string[]")))
    else
      var elem := if v.Arr? then v.items[0] else v;
      var suffix := if v.Arr? then "[]" else "";
      if EthType(elem) != "" then Ok(Typed(types, Some(EthType(elem) + suffix)))
      else if elem.Obj? then
        var w := Walk(lib, types, root, prefix + "." + name, elem);
        if w.Err? then Err(w.error)
        else Ok(Typed(w.value.types, Some(Sanitize(lib.caser, w.value.key) + suffix)))
      else Ok(Typed(types, None))
  }

  function WalkFields(lib: Lib, types: Types, root: string, prefix: string, o: Json, keys: seq<string>)
    : (r: Result<Listed, SchemaError>)
    requires o.Obj?
    decreases o, 1, |keys|
  {
    if keys == [] then Ok(Listed(types, []))
    else
      var v := lib.look(o, keys[0]);
      if v.None? then WalkFields(lib, types, root, prefix, o, keys[1..])
      else
        var f := FieldType(lib, types, root, prefix, keys[0], v.value);
        if f.Err? then Err(f.error)
        else
          var rest := WalkFields(lib, f.value.types, root, prefix, o, keys[1..]);
          if rest.Err? then rest
          else if f.value.typ.None? then rest
          else Ok(Listed(rest.value.types, [TypeDef(keys[0], f.value.typ.value)] + rest.value.defs))
  }

  function Walk(lib: Lib, types: Types, root: string, prefix: string, o: Json): (r: Result<Walked, SchemaError>)
    decreases o, 2, 0
  {
    if !o.Obj? then Err(NotAnObject)
    else
      var l := WalkFields(lib, types, root, prefix, o, SortedKeys(o.fields));
      if l.Err? then Err(l.error)
      else AddTypes(l.value.types, TypeDefForPrefix(lib.caser, prefix, root), l.value.defs, 0)
  }

  // ---------------------------------------------------------------- the messages of a payload

  const BASE_TX: seq<TypeDef> := [
    TypeDef("account_number", "string"), TypeDef("chain_id", "string"), TypeDef("fee", "Fee"),
    TypeDef("memo", "string"), TypeDef("sequence", "string")]

  const BASE: Types := map[
    "EIP712Domain" := [
      TypeDef("name", "string"), TypeDef("version", "string"), TypeDef("chainId", "uint256"),
      TypeDef("verifyingContract", "string"), TypeDef("salt", "string")],
    TX := BASE_TX,
    "Fee" := [TypeDef("amount", "Coin[]"), TypeDef("gas", "string")],
    "Coin" := [TypeDef("denom", "string"), TypeDef("amount", "string")]]

  function MsgField(i: nat): (s: string) {
    "msg" + Decimal(i)
  }

  /** `cosmos-sdk/MsgSend` becomes `TypeMsgSend`. */
  function MsgRootType(msg: Json): (r: Option<string>)
    ensures r.Some? ==> |r.value| >= 4 && r.value[..4] == "Type"
  {
    var t := Get(msg, "type");
    if t.None? || !t.value.Str? || t.value.s == "" then None
    else
      var tokens := Split(t.value.s, '/');
      Some("Type" + tokens[|tokens| - 1])
  }

  function AddMsgTypes(lib: Lib, types: Types, field: string, msg: Option<Json>): (r: Result<Types, SchemaError>) {
    if msg.None? || !msg.value.Obj? then Err(NotAnObject)
    else
      var root := MsgRootType(msg.value);
      if root.None? then Err(BadMessageType)
      else
        var w := Walk(lib, types, root.value, ROOT_PREFIX, msg.value);
        if w.Err? then Err(w.error)
        else
          var tx := if TX in w.value.types then w.value.types[TX] else [];
          Ok(w.value.types[TX := tx + [TypeDef(field, w.value.key)]])
  }

  /** The schema after the first `n` messages. */
  function Create(lib: Lib, payload: Json, n: nat): (r: Result<Types, SchemaError>) {
    if n == 0 then Ok(BASE)
    else
      var before := Create(lib, payload, n - 1);
      if before.Err? then before
      else AddMsgTypes(lib, before.value, MsgField(n - 1), Get(payload, MsgField(n - 1)))
  }

  // ---------------------------------------------------------------- what a schema ought to be

  /** The type of a value, written out: a basic type, a list, or named members. */
  datatype Shape = Atom(name: string) | List(elem: Shape) | Struct(members: seq<Member>)
  datatype Member = Member(name: string, shape: Shape)

  /** Has a type at all: null, and arrays that start with null or another array, do not. */
  predicate Typable(v: Json) {
    var elem := if v.Arr? && v.items != [] then v.items[0] else v;
    v == Arr([]) || EthType(elem) != "" || elem.Obj?
  }

  /** An array has the shape of its first element; an empty one counts as strings. */
  ghost function ShapeOf(look: Look, v: Json): (s: Shape)
    requires Typable(v)
    ensures v.Obj? ==> s.Struct?
    decreases v, 3, 0
  {
    if v == Arr([]) then List(Atom("string"))
    else if v.Arr? then List(ElementShape(look, v.items[0]))
    else ElementShape(look, v)
  }

  ghost function ElementShape(look: Look, v: Json): (s: Shape)
    requires EthType(v) != "" || v.Obj?
    ensures !s.List? && (v.Obj? ==> s.Struct?)
    decreases v, 2, 0
  {
    if v.Obj? then Struct(Members(look, v, SortedKeys(v.fields))) else Atom(EthType(v))
  }

  /** One member for each key under which the lookup finds something with a type. */
  ghost function Members(look: Look, o: Json, keys: seq<string>): (ms: seq<Member>)
    requires o.Obj?
    decreases o, 1, |keys|
  {
    if keys == [] then []
    else
      var v := look(o, keys[0]);
      if v.None? || !Typable(v.value) then Members(look, o, keys[1..])
      else [Member(keys[0], ShapeOf(look, v.value))] + Members(look, o, keys[1..])
  }

  function BaseOf(t: string): (b: string) {
    if |t| >= 2 && t[|t| - 2..] == "[]" then t[..|t| - 2] else t
  }

  const ATOMIC: set<string> := {"string", "bool", "int64", "uint256"}

  /** In this dictionary the type name `t` means the shape `s`. */
  ghost predicate Means(types: Types, t: string, s: Shape)
    decreases s
  {
    match s
    case Atom(a) => t == a && BaseOf(t) == t && t in ATOMIC
    case List(e) => BaseOf(t) != t && Means(types, BaseOf(t), e)
    case Struct(ms) => && BaseOf(t) == t && t !in ATOMIC && t in types && t != TX && |types[t]| == |ms|
                       && forall i :: 0 <= i < |ms| ==> IsMember(types, types[t][i], ms[i])
  }

  ghost predicate IsMember(types: Types, d: TypeDef, m: Member)
    decreases m
  {
    d.name == m.name && Means(types, d.typ, m.shape)
  }

  ghost predicate AreMembers(types: Types, defs: seq<TypeDef>, ms: seq<Member>) {
    |defs| == |ms| && forall i :: 0 <= i < |ms| ==> IsMember(types, defs[i], ms[i])
  }

  ghost predicate Named(types: Types, t: string) {
    BaseOf(t) in ATOMIC || BaseOf(t) in types
  }

  ghost predicate AllNamed(types: Types, defs: seq<TypeDef>) {
    forall d :: d in defs ==> Named(types, d.typ)
  }

  /** Every struct type that is mentioned is defined. */
  ghost predicate Closed(types: Types) {
    forall k :: k in types ==> AllNamed(types, types[k])
  }

  /** No definition is lost or changed. */
  ghost predicate Extends(types: Types, types': Types) {
    forall k :: k in types ==> k in types' && types'[k] == types[k]
  }

  ghost predicate ExtendsButTx(types: Types, types': Types) {
    forall k :: k in types ==> k in types' && (k != TX ==> types'[k] == types[k])
  }

  // ---------------------------------------------------------------- meanings

  /** Meanings last as the dictionary grows. */
  lemma {:induction false} MeansLasts(types: Types, types': Types, t: string, s: Shape)
    requires ExtendsButTx(types, types') && Means(types, t, s)
    ensures Means(types', t, s)
    decreases s
  {
    match s
    case Atom(_) =>
    case List(e) => MeansLasts(types, types', BaseOf(t), e);
    case Struct(ms) =>
      forall i | 0 <= i < |ms| ensures IsMember(types', types'[t][i], ms[i]) {
        assert IsMember(types, types[t][i], ms[i]);
        MeansLasts(types, types', types[t][i].typ, ms[i].shape);
      }
  }

  /** A type name means at most one shape. */
  lemma {:induction false} MeaningIsUnique(types: Types, t: string, s: Shape, s': Shape)
    requires Means(types, t, s) && Means(types, t, s')
    ensures s == s'
    decreases s
  {
    match s
    case Atom(_) =>
    case List(e) => MeaningIsUnique(types, BaseOf(t), e, s'.elem);
    case Struct(ms) =>
      forall i | 0 <= i < |ms| ensures ms[i] == s'.members[i] {
        assert IsMember(types, types[t][i], ms[i]) && IsMember(types, types[t][i], s'.members[i]);
        MeaningIsUnique(types, types[t][i].typ, ms[i].shape, s'.members[i].shape);
      }
      assert ms == s'.members;
  }

  lemma MembersLast(types: Types, types': Types, defs: seq<TypeDef>, ms: seq<Member>)
    requires ExtendsButTx(types, types') && AreMembers(types, defs, ms)
    ensures AreMembers(types', defs, ms)
  {
    forall i | 0 <= i < |ms| ensures IsMember(types', defs[i], ms[i]) {
      assert IsMember(types, defs[i], ms[i]);
      MeansLasts(types, types', defs[i].typ, ms[i].shape);
    }
  }
}
