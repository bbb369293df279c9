/**
 * Path lookup in a JSON value, as the `Get` of gjson does it for a key: dots separate steps, an object step tries
 * every field of that name in textual order, and an array step is an index.
 */
module JsonPath {
  import opened Common
  import opened Json

  /** `strings.Split` by one character. */
  function Split(s: string, c: char): (parts: seq<string>)
    ensures |parts| > 0
  {
    if s == [] then [[]]
    else if s[0] == c then [[]] + Split(s[1..], c)
    else
      var rest := Split(s[1..], c);
      [[s[0]] + rest[0]] + rest[1..]
  }

  /** The values under one name, in textual order. */
  function Under(fields: seq<Field>, name: string): (vs: seq<Json>) {
    if fields == [] then []
    else (if fields[0].name == name then [fields[0].value] else []) + Under(fields[1..], name)
  }

  /** The values under one name of an object; all of them are parts of it. */
  function Values(o: Json, name: string): (vs: seq<Json>)
    requires o.Obj?
    ensures vs == Under(o.fields, name)
    ensures forall i :: 0 <= i < |vs| ==> vs[i] < o
  {
    UnderAreParts(o, name);
    Under(o.fields, name)
  }

  lemma {:induction false} UnderAreParts(o: Json, name: string)
    requires o.Obj?
    ensures forall i :: 0 <= i < |Under(o.fields, name)| ==> Under(o.fields, name)[i] < o
  {
    UnderAreFields(o.fields, name);
    forall i | 0 <= i < |Under(o.fields, name)| ensures Under(o.fields, name)[i] < o {
      var v := Under(o.fields, name)[i];
      var j :| 0 <= j < |o.fields| && o.fields[j] == Field(name, v);
      assert o.fields[j] < o && o.fields[j].value < o.fields[j];
    }
  }

  lemma {:induction false} UnderAreFields(fields: seq<Field>, name: string)
    ensures forall v :: v in Under(fields, name) <==> Field(name, v) in fields
  {
    if fields != [] {
      UnderAreFields(fields[1..], name);
      assert forall f :: f in fields <==> f == fields[0] || f in fields[1..];
    }
  }

  predicate IsDigits(s: string) {
    forall i :: 0 <= i < |s| ==> '0' <= s[i] <= '9'
  }

  function FromDigits(s: string): (n: nat)
    requires IsDigits(s)
  {
    if s == [] then 0 else 10 * FromDigits(s[..|s| - 1]) + (s[|s| - 1] - '0') as nat
  }

  /** An array step: digits only, read into a uint64. */
  function Index(part: string): (i: Option<nat>) {
    if part != [] && IsDigits(part) then Some(FromDigits(part) % TWO_64) else None
  }

  function Descend(v: Json, parts: seq<string>): (r: Option<Json>)
    ensures r.Some? ==> r.value == v || r.value < v
    ensures r.Some? && parts != [] ==> r.value < v
    decreases |parts|, 0, 0
  {
    if parts == [] then Some(v)
    else if v.Obj? then FirstHit(Values(v, parts[0]), parts[1..])
    else if v.Arr? && Index(parts[0]).Some? && Index(parts[0]).value < |v.items| then
      Descend(v.items[Index(parts[0]).value], parts[1..])
    else None
  }

  /** The first of the values in which the rest of the path is found. */
  function FirstHit(vs: seq<Json>, parts: seq<string>): (r: Option<Json>)
    ensures r.Some? ==> exists i :: 0 <= i < |vs| && (r.value == vs[i] || r.value < vs[i])
    decreases |parts|, 1, |vs|
  {
    if vs == [] then None
    else
      var r := Descend(vs[0], parts);
      if r.Some? then r else FirstHit(vs[1..], parts)
  }

  /** The characters that make a key a query: pipes, wildcards, escapes, modifiers, multipaths, array queries. */
  const QUERY_CHARS: set<char> := {'|', '*', '?', '\\', '#', '@', '!', '[', '{'}

  predicate IsQuery(key: string) {
    (exists c :: c in QUERY_CHARS && c in key) || ".." <= key
  }

  /** What a lookup finds is a proper part of the value it looks in. */
  ghost predicate Shrinks(look: (Json, string) -> Option<Json>) {
    forall o, k :: look(o, k).Some? ==> look(o, k).value < o
  }

  type Look = look: (Json, string) -> Option<Json> | Shrinks(look) witness (o: Json, k: string) => None

  /** The lookup follows the dots of every key that is not a query. */
  ghost predicate IsPath(look: Look) {
    forall o: Json, k :: o.Obj? && !IsQuery(k) ==> look(o, k) == Descend(o, Split(k, '.'))
  }

  /** Lookup of a field by its whole name. */
  ghost function ByName(): (look: Look) {
    (o: Json, k: string) => Get(o, k)
  }

  /** A path lookup that finds nothing for queries. */
  ghost function DotsOnly(): (look: Look)
    ensures IsPath(look)
  {
    (o: Json, k: string) => if o.Obj? && !IsQuery(k) then Descend(o, Split(k, '.')) else None
  }

  lemma {:induction false} SplitFree(s: string, c: char)
    requires c !in s
    ensures Split(s, c) == [s]
  {
    if s != [] {
      SplitFree(s[1..], c);
      assert [s[0]] + s[1..] == s;
    }
  }

  lemma {:induction false} FirstUnder(fields: seq<Field>, name: string)
    ensures Under(fields, name) == [] <==> Find(fields, name) < 0
    ensures Find(fields, name) >= 0 ==> Under(fields, name)[0] == fields[Find(fields, name)].value
  {
    if fields != [] && fields[0].name != name {
      FirstUnder(fields[1..], name);
      assert Under(fields, name) == Under(fields[1..], name);
    }
  }

  /** A key without dots is looked up by its whole name. */
  lemma PlainKeyFindsItsField(look: Look, o: Json, k: string)
    requires IsPath(look) && o.Obj? && '.' !in k && !IsQuery(k)
    ensures look(o, k) == Get(o, k)
  {
    SplitFree(k, '.');
    FirstUnder(o.fields, k);
    assert [k][1..] == [];
    assert Descend(o, [k]) == FirstHit(Values(o, k), []);
  }

  // ---------------------------------------------------------------- the order of fields

  /** The same value up to the order of fields with different names, at every depth. */
  ghost predicate SameJson(a: Json, b: Json)
    decreases a
  {
    match a
    case Obj(_) => b.Obj? && forall k :: SameValues(a, b, k)
    case Arr(_) => b.Arr? && |a.items| == |b.items|
                   && forall i :: 0 <= i < |a.items| ==> SameJson(a.items[i], b.items[i])
    case _ => a == b
  }

  ghost predicate SameValues(a: Json, b: Json, k: string)
    requires a.Obj? && b.Obj?
    decreases a, k
  {
    && |Values(a, k)| == |Values(b, k)|
    && forall i :: 0 <= i < |Values(a, k)| ==> SameJson(Values(a, k)[i], Values(b, k)[i])
  }

  /** A path finds the same in both, or nothing in either. */
  ghost predicate SameResult(a: Option<Json>, b: Option<Json>) {
    a.Some? == b.Some? && (a.Some? ==> SameJson(a.value, b.value))
  }

  lemma {:induction false} SameDescent(a: Json, b: Json, parts: seq<string>)
    requires SameJson(a, b)
    ensures SameResult(Descend(a, parts), Descend(b, parts))
    decreases |parts|, 0, 0
  {
    if parts != [] {
      if a.Obj? {
        assert SameValues(a, b, parts[0]);
        SameHit(Values(a, parts[0]), Values(b, parts[0]), parts[1..]);
      } else if a.Arr? && Index(parts[0]).Some? && Index(parts[0]).value < |a.items| {
        var i := Index(parts[0]).value;
        SameDescent(a.items[i], b.items[i], parts[1..]);
      }
    }
  }

  lemma {:induction false} SameHit(us: seq<Json>, vs: seq<Json>, parts: seq<string>)
    requires |us| == |vs| && forall i :: 0 <= i < |us| ==> SameJson(us[i], vs[i])
    ensures SameResult(FirstHit(us, parts), FirstHit(vs, parts))
    decreases |parts|, 1, |us|
  {
    if us != [] {
      SameDescent(us[0], vs[0], parts);
      SameHit(us[1..], vs[1..], parts);
    }
  }

  /** No key of the value, at any depth, is a query. */
  ghost predicate NoQueries(v: Json)
    decreases v
  {
    match v
    case Obj(fields) => forall f :: f in fields ==> !IsQuery(f.name) && NoQueries(f.value)
    case Arr(items) => forall x :: x in items ==> NoQueries(x)
    case _ => true
  }

  lemma {:induction false} DescentHasNoQueries(v: Json, parts: seq<string>)
    requires NoQueries(v) && Descend(v, parts).Some?
    ensures NoQueries(Descend(v, parts).value)
    decreases |parts|, 0, 0
  {
    if parts != [] {
      if v.Obj? {
        UnderAreFields(v.fields, parts[0]);
        HitHasNoQueries(Values(v, parts[0]), parts[1..]);
      } else {
        DescentHasNoQueries(v.items[Index(parts[0]).value], parts[1..]);
      }
    }
  }

  lemma {:induction false} HitHasNoQueries(vs: seq<Json>, parts: seq<string>)
    requires (forall v :: v in vs ==> NoQueries(v)) && FirstHit(vs, parts).Some?
    ensures NoQueries(FirstHit(vs, parts).value)
    decreases |parts|, 1, |vs|
  {
    if Descend(vs[0], parts).Some? {
      DescentHasNoQueries(vs[0], parts);
    } else {
      HitHasNoQueries(vs[1..], parts);
    }
  }

  /** Under a key that is not a query, two values that differ in field order look the same. */
  lemma {:induction false} LookIgnoresOrder(look: Look, a: Json, b: Json, k: string)
    requires IsPath(look) && a.Obj? && SameJson(a, b) && !IsQuery(k)
    ensures SameResult(look(a, k), look(b, k))
    ensures NoQueries(a) && look(a, k).Some? ==> NoQueries(look(a, k).value)
  {
    SameDescent(a, b, Split(k, '.'));
    if NoQueries(a) && look(a, k).Some? { DescentHasNoQueries(a, Split(k, '.')); }
  }

  lemma {:induction false} SameNames(a: Json, b: Json)
    requires a.Obj? && SameJson(a, b)
    ensures Names(a.fields) == Names(b.fields)
  {
    forall k ensures k in Names(a.fields) <==> k in Names(b.fields) {
      assert SameValues(a, b, k);
      FirstUnder(a.fields, k);
      FirstUnder(b.fields, k);
    }
  }

  lemma {:induction false} GetIgnoresOrder(a: Json, b: Json, k: string)
    requires a.Obj? && SameJson(a, b)
    ensures SameResult(Get(a, k), Get(b, k))
  {
    assert SameValues(a, b, k);
    FirstUnder(a.fields, k);
    FirstUnder(b.fields, k);
  }

  /** Every key of the value, at every depth, is neither dotted nor a query. */
  ghost predicate PlainKeys(v: Json)
    decreases v
  {
    match v
    case Obj(fields) => forall f :: f in fields ==> '.' !in f.name && !IsQuery(f.name) && PlainKeys(f.value)
    case Arr(items) => forall x :: x in items ==> PlainKeys(x)
    case _ => true
  }
}
