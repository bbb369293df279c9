/** JSON values as the EIP-712 code reads them, and the key order it sorts them into. */
module Json {
  import opened Common

  datatype Field = Field(name: string, value: Json)

  /** An object keeps its fields in textual order; keys may repeat, and the first one counts. */
  datatype Json =
    | Null
    | Bool(b: bool)
    | Num(text: string)
    | Str(s: string)
    | Arr(items: seq<Json>)
    | Obj(fields: seq<Field>)

  function Find(fields: seq<Field>, key: string): (i: int)
    ensures -1 <= i < |fields|
    ensures i >= 0 ==> fields[i].name == key
    ensures i < 0 <==> key !in Names(fields)
  {
    if fields == [] then -1
    else if fields[0].name == key then 0
    else
      var i := Find(fields[1..], key);
      if i < 0 then -1 else i + 1
  }

  /** `Get` with a plain key. */
  function Get(o: Json, key: string): (v: Option<Json>)
    ensures v.Some? <==> o.Obj? && key in Names(o.fields)
    ensures v.Some? ==> v.value < o
  {
    if o.Obj? && Find(o.fields, key) >= 0 then
      var i := Find(o.fields, key);
      assert o.fields[i] < o;
      Some(o.fields[i].value)
    else None
  }

  function Names(fields: seq<Field>): (ks: set<string>)
    ensures forall k :: k in ks <==> exists i :: 0 <= i < |fields| && fields[i].name == k
  {
    set f | f in fields :: f.name
  }

  // ---------------------------------------------------------------- decimal numerals

  function Digit(d: nat): (c: char)
    requires d < 10
  {
    '0' + d as char
  }

  /** `%d` of a natural number. */
  function Decimal(n: nat): (s: string)
    ensures s != []
    ensures forall c :: c in s ==> '0' <= c <= '9'
  {
    if n < 10 then [Digit(n)] else Decimal(n / 10) + [Digit(n % 10)]
  }

  lemma {:induction false} DecimalIsInjective(m: nat, n: nat)
    requires Decimal(m) == Decimal(n)
    ensures m == n
  {
    var a, b := Decimal(m), Decimal(n);
    assert a[|a| - 1] == Digit(m % 10) && b[|b| - 1] == Digit(n % 10);
    assert m % 10 == n % 10;
    if m >= 10 && n >= 10 {
      assert a[..|a| - 1] == Decimal(m / 10) && b[..|b| - 1] == Decimal(n / 10);
      DecimalIsInjective(m / 10, n / 10);
    }
  }

  // ---------------------------------------------------------------- sorted keys

  /** `strings.Compare(a, b) > 0`. */
  predicate Above(a: string, b: string) {
    a != [] && (b == [] || a[0] > b[0] || (a[0] == b[0] && Above(a[1..], b[1..])))
  }

  lemma {:induction false} AboveIsTotal(a: string, b: string)
    ensures a == b || Above(a, b) || Above(b, a)
    ensures !(Above(a, b) && Above(b, a))
    ensures !Above(a, a)
  {
    if a != [] && b != [] && a[0] == b[0] {
      AboveIsTotal(a[1..], b[1..]);
      assert a == [a[0]] + a[1..] && b == [b[0]] + b[1..];
    }
    if a != [] { AboveIsTotal(a[1..], a[1..]); }
  }

  lemma {:induction false} AboveIsTransitive(a: string, b: string, c: string)
    requires Above(a, b) && Above(b, c)
    ensures Above(a, c)
  {
    if b != [] && c != [] && a[0] == b[0] == c[0] {
      AboveIsTransitive(a[1..], b[1..], c[1..]);
    }
  }

  ghost predicate Descending(ks: seq<string>) {
    forall i, j :: 0 <= i < j < |ks| ==> Above(ks[i], ks[j])
  }

  /** Into a descending list, once. */
  function InsertKey(ks: seq<string>, k: string): (r: seq<string>)
    ensures forall x :: x in r <==> x in ks || x == k
  {
    if ks == [] || Above(k, ks[0]) then [k] + ks
    else if k == ks[0] then ks
    else [ks[0]] + InsertKey(ks[1..], k)
  }

  lemma {:induction false} InsertKeepsDescending(ks: seq<string>, k: string)
    requires Descending(ks)
    ensures Descending(InsertKey(ks, k))
  {
    var r := InsertKey(ks, k);
    if ks == [] {
    } else if Above(k, ks[0]) {
      forall j | 0 < j < |r| ensures Above(r[0], r[j]) {
        if j > 1 { AboveIsTransitive(k, ks[0], ks[j - 1]); }
      }
    } else if k != ks[0] {
      AboveIsTotal(k, ks[0]);
      InsertKeepsDescending(ks[1..], k);
      forall j | 0 < j < |r| ensures Above(r[0], r[j]) {
        assert r[j] == r[1..][j - 1] && r[1..][j - 1] in InsertKey(ks[1..], k);
        if r[j] != k {
          var i :| 0 <= i < |ks| - 1 && ks[1..][i] == r[j];
          assert Above(ks[0], ks[i + 1]);
        }
      }
      forall i, j | 0 < i < j < |r| ensures Above(r[i], r[j]) {
        assert r[i] == r[1..][i - 1] && r[j] == r[1..][j - 1];
      }
    }
  }

  /** The distinct keys of an object in descending order. */
  function SortedKeys(fields: seq<Field>): (ks: seq<string>)
    ensures forall k :: k in ks <==> k in Names(fields)
  {
    if fields == [] then []
    else
      assert forall f :: f in fields <==> f == fields[0] || f in fields[1..];
      InsertKey(SortedKeys(fields[1..]), fields[0].name)
  }

  lemma {:induction false} SortedKeysDescend(fields: seq<Field>)
    ensures Descending(SortedKeys(fields))
  {
    if fields != [] {
      SortedKeysDescend(fields[1..]);
      InsertKeepsDescending(SortedKeys(fields[1..]), fields[0].name);
    }
  }

  /** A set of keys has only one descending listing, so the order keys came in cannot show. */
  lemma {:induction false} DescendingIsUnique(a: seq<string>, b: seq<string>)
    requires Descending(a) && Descending(b) && forall k :: k in a <==> k in b
    ensures a == b
    decreases |a|
  {
    assert b != [] ==> b[0] in b;
    if a != [] {
      assert a[0] in b && b != [] && b[0] in a;
      AboveIsTotal(a[0], b[0]);
      TailKeys(a);
      TailKeys(b);
      assert Descending(a[1..]) && Descending(b[1..]);
      DescendingIsUnique(a[1..], b[1..]);
    }
  }

  lemma TailKeys(a: seq<string>)
    requires Descending(a) && a != []
    ensures forall k :: k in a[1..] <==> k in a && k != a[0]
  {
    AboveIsTotal(a[0], a[0]);
    forall k | k in a[1..] ensures k != a[0] {
      var i :| 0 <= i < |a| - 1 && a[1..][i] == k;
      assert a[i + 1] == k && Above(a[0], a[i + 1]);
    }
  }
}
