/** `FlattenPayloadMessages`: the `msgs` array of a payload becomes the fields `msg0`, `msg1`, ... */
module Flatten {
  import opened Common
  import opened Json
  import S = Eip712Schema

  const MSGS := "msgs"

  datatype FlattenError = NoMessages | MessagesNotAnArray | FieldExists(field: string) | MessageNotAnObject(index: nat)

  datatype Flattened = Flattened(payload: Json, n: nat)

  /** `sjson.SetRaw` of a key that is not there yet: it goes to the end. */
  function WithField(o: Json, key: string, v: Json): (r: Json)
    requires o.Obj?
  {
    Obj(o.fields + [Field(key, v)])
  }

  /** `sjson.Delete`. */
  function Without(fields: seq<Field>, key: string): (r: seq<Field>) {
    if fields == [] then []
    else if fields[0].name == key then fields[1..]
    else [fields[0]] + Without(fields[1..], key)
  }

  function PayloadMessages(payload: Json): (r: Result<seq<Json>, FlattenError>) {
    var raw := Get(payload, MSGS);
    if raw.None? then Err(NoMessages)
    else if raw.value.Null? then Ok([])
    else if !raw.value.Arr? then Err(MessagesNotAnArray)
    else Ok(raw.value.items)
  }

  /** One field per message. */
  function MsgFields(msgs: seq<Json>): (fs: seq<Field>)
    ensures |fs| == |msgs|
  {
    seq(|msgs|, k requires 0 <= k < |msgs| => Field(S.MsgField(k), msgs[k]))
  }

  /** Nothing stands in the way: every message is an object and its field name is free. */
  ghost predicate CanPlace(payload: Json, msgs: seq<Json>) {
    && (forall i :: 0 <= i < |msgs| ==> msgs[i].Obj?)
    && (forall i :: 0 <= i < |msgs| ==> Get(payload, S.MsgField(i)).None?)
  }

  method PayloadWithNewMessage(payload: Json, msg: Json, index: nat) returns (r: Result<Json, FlattenError>)
    requires payload.Obj?
    ensures r.Ok? <==> Get(payload, S.MsgField(index)).None? && msg.Obj?
    ensures r.Ok? ==> r.value == WithField(payload, S.MsgField(index), msg)
  {
    var field := S.MsgField(index);
    if Get(payload, field).Some? { return Err(FieldExists(field)); }
    if !msg.Obj? { return Err(MessageNotAnObject(index)); }
    return Ok(WithField(payload, field, msg));
  }

  /** Succeeds exactly when the messages can be placed; then the fields follow the others in message order. */
  method FlattenPayloadMessages(payload: Json) returns (r: Result<Flattened, FlattenError>)
    ensures r.Ok? <==> PayloadMessages(payload).Ok? && CanPlace(payload, PayloadMessages(payload).value)
    ensures r.Ok? ==> var msgs := PayloadMessages(payload).value;
                      r.value == Flattened(Obj(Without(payload.fields + MsgFields(msgs), MSGS)), |msgs|)
  {
    var got := PayloadMessages(payload);
    if got.Err? { return Err(got.error); }
    var msgs := got.value;
    var flattened := payload;
    for i := 0 to |msgs|
      invariant flattened == Obj(payload.fields + MsgFields(msgs)[..i])
      invariant forall k :: 0 <= k < i ==> msgs[k].Obj? && Get(payload, S.MsgField(k)).None?
    {
      FreeSoFar(payload, msgs, i);
      var next := PayloadWithNewMessage(flattened, msgs[i], i);
      if next.Err? { return Err(next.error); }
      flattened := next.value;
      assert MsgFields(msgs)[..i + 1] == MsgFields(msgs)[..i] + [Field(S.MsgField(i), msgs[i])];
    }
    assert MsgFields(msgs)[..|msgs|] == MsgFields(msgs);
    return Ok(Flattened(Obj(Without(flattened.fields, MSGS)), |msgs|));
  }

  // ---------------------------------------------------------------- field names

  lemma MsgFieldsDiffer(i: nat, j: nat)
    requires i != j
    ensures S.MsgField(i) != S.MsgField(j)
  {
    if S.MsgField(i) == S.MsgField(j) {
      assert S.MsgField(i)[3..] == Decimal(i) && S.MsgField(j)[3..] == Decimal(j);
      DecimalIsInjective(i, j);
    }
  }

  lemma FreeSoFar(payload: Json, msgs: seq<Json>, i: nat)
    requires payload.Obj? && i < |msgs|
    ensures Get(Obj(payload.fields + MsgFields(msgs)[..i]), S.MsgField(i)).None? <==> Get(payload, S.MsgField(i)).None?
  {
    var placed := MsgFields(msgs)[..i];
    forall k | 0 <= k < |placed| ensures placed[k].name != S.MsgField(i) {
      MsgFieldsDiffer(k, i);
    }
  }

  // ---------------------------------------------------------------- nothing is lost

  lemma {:induction false} FindInConcat(a: seq<Field>, b: seq<Field>, key: string)
    ensures Find(a + b, key) == if key in Names(a) then Find(a, key) else if key in Names(b) then |a| + Find(b, key) else -1
    decreases |a|
  {
    if a == [] {
      assert a + b == b;
    } else {
      assert (a + b)[1..] == a[1..] + b;
      FindInConcat(a[1..], b, key);
      assert a == [a[0]] + a[1..];
    }
  }

  lemma {:induction false} FindWithout(fields: seq<Field>, gone: string, key: string)
    requires key != gone
    ensures key in Names(Without(fields, gone)) <==> key in Names(fields)
    ensures key in Names(fields) ==>
            Without(fields, gone)[Find(Without(fields, gone), key)] == fields[Find(fields, key)]
    decreases |fields|
  {
    if fields != [] {
      assert fields == [fields[0]] + fields[1..];
      if fields[0].name != gone {
        var rest := Without(fields[1..], gone);
        FindWithout(fields[1..], gone, key);
        FindInConcat([fields[0]], rest, key);
        FindInConcat([fields[0]], fields[1..], key);
      }
    }
  }

  /** Deleting `msgs` does not disturb any other key. */
  lemma {:induction false} GetWithout(fields: seq<Field>, gone: string, key: string)
    requires key != gone
    ensures Get(Obj(Without(fields, gone)), key) == Get(Obj(fields), key)
  {
    FindWithout(fields, gone, key);
  }

  lemma GetConcat(a: seq<Field>, b: seq<Field>, key: string)
    ensures Get(Obj(a + b), key) == if key in Names(a) then Get(Obj(a), key) else Get(Obj(b), key)
  {
    FindInConcat(a, b, key);
  }

  lemma FindMsg(msgs: seq<Json>, i: nat)
    requires i < |msgs|
    ensures Get(Obj(MsgFields(msgs)), S.MsgField(i)) == Some(msgs[i])
  {
    var fs := MsgFields(msgs);
    assert fs[i].name == S.MsgField(i);
    var k := Find(fs, S.MsgField(i));
    if k != i { MsgFieldsDiffer(k, i); }
  }

  ghost predicate IsMsgField(key: string, n: nat) {
    exists i :: 0 <= i < n && key == S.MsgField(i)
  }

  /** Message `i` is found under its own field, and every other key is as it was. */
  lemma FlattenedFields(payload: Json, msgs: seq<Json>, key: string)
    requires payload.Obj? && CanPlace(payload, msgs) && key != MSGS
    ensures var flat := Obj(Without(payload.fields + MsgFields(msgs), MSGS));
            && (forall i :: 0 <= i < |msgs| && key == S.MsgField(i) ==> Get(flat, key) == Some(msgs[i]))
            && (!IsMsgField(key, |msgs|) ==> Get(flat, key) == Get(payload, key))
  {
    var fs := MsgFields(msgs);
    GetWithout(payload.fields + fs, MSGS, key);
    GetConcat(payload.fields, fs, key);
    forall i | 0 <= i < |msgs| && key == S.MsgField(i)
      ensures Get(Obj(payload.fields + fs), key) == Some(msgs[i])
    {
      FindMsg(msgs, i);
    }
    if !IsMsgField(key, |msgs|) && key in Names(fs) {
      var k := Find(fs, key);
      assert fs[k].name == S.MsgField(k);
    }
  }

  ghost function Flat(payload: Json): (flat: Json)
    requires PayloadMessages(payload).Ok?
  {
    Obj(Without(payload.fields + MsgFields(PayloadMessages(payload).value), MSGS))
  }

  /** The payload has messages, and they can be placed. */
  ghost predicate Flattens(payload: Json) {
    PayloadMessages(payload).Ok? && CanPlace(payload, PayloadMessages(payload).value)
  }

  ghost function Count(payload: Json): (n: nat)
    requires PayloadMessages(payload).Ok?
  {
    |PayloadMessages(payload).value|
  }

  ghost predicate Agree(a: Json, b: Json) {
    forall key :: Get(a, key) == Get(b, key)
  }

  /** Two payloads that flatten alike have the same messages in the same order. */
  lemma SameMessages(a: Json, b: Json)
    requires Flattens(a) && Flattens(b) && Count(a) == Count(b) && Agree(Flat(a), Flat(b))
    ensures PayloadMessages(a).value == PayloadMessages(b).value
  {
    var ms, ns := PayloadMessages(a).value, PayloadMessages(b).value;
    forall i | 0 <= i < |ms| ensures ms[i] == ns[i] {
      FlattenedFields(a, ms, S.MsgField(i));
      FlattenedFields(b, ns, S.MsgField(i));
      assert Get(Flat(a), S.MsgField(i)) == Get(Flat(b), S.MsgField(i));
    }
  }

  lemma SameOtherKey(a: Json, b: Json, key: string)
    requires Flattens(a) && Flattens(b) && Count(a) == Count(b) && Agree(Flat(a), Flat(b)) && key != MSGS
    ensures Get(a, key) == Get(b, key)
  {
    FlattenedFields(a, PayloadMessages(a).value, key);
    FlattenedFields(b, PayloadMessages(b).value, key);
    assert Get(Flat(a), key) == Get(Flat(b), key);
  }

  /**
   * The flattened object and the count determine the payload: two payloads that flatten alike agree on every key,
   * if and only if `msgs` is null in both or in neither.
   */
  lemma FlattenIsInjectiveIff(a: Json, b: Json)
    requires Flattens(a) && Flattens(b) && Count(a) == Count(b) && Agree(Flat(a), Flat(b))
    ensures Agree(a, b) <==> (Get(a, MSGS) == Some(Null) <==> Get(b, MSGS) == Some(Null))
  {
    SameMessages(a, b);
    forall key | key != MSGS ensures Get(a, key) == Get(b, key) { SameOtherKey(a, b, key); }
    assert Agree(a, b) <==> Get(a, MSGS) == Get(b, MSGS);
  }

  /** Null and the empty list are the pair that collides, whatever else the payload holds. */
  lemma NullCollidesWithEmpty(rest: seq<Field>)
    requires MSGS !in Names(rest)
    ensures var a, b := Obj([Field(MSGS, Null)] + rest), Obj([Field(MSGS, Arr([]))] + rest);
            && Flattens(a) && Flattens(b) && Count(a) == Count(b) == 0
            && Flat(a) == Flat(b) == Obj(rest) && Get(a, MSGS) != Get(b, MSGS)
  {
    var a, b := Obj([Field(MSGS, Null)] + rest), Obj([Field(MSGS, Arr([]))] + rest);
    assert Get(a, MSGS) == Some(Null) && Get(b, MSGS) == Some(Arr([]));
    assert a.fields + MsgFields([]) == a.fields && b.fields + MsgFields([]) == b.fields;
    assert a.fields[1..] == rest && b.fields[1..] == rest;
  }
}
