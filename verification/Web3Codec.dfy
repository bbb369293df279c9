/** The generated codec of `ExtensionOptionsWeb3Tx`: a buffer filled from the back, and an index-driven parser. */
module Web3Codec {
  import opened Common
  import opened Varint
  import opened Web3Wire

  function BytesSize(s: seq<byte>): (n: nat) {
    if |s| > 0 then 1 + |s| + Sov(|s|) else 0
  }

  function Size(m: Web3Tx): (n: nat) {
    (if m.chainID != 0 then 1 + Sov(m.chainID) else 0) + BytesSize(m.feePayer) + BytesSize(m.feePayerSig)
  }

  /** The size announced is the size written. */
  lemma SizeIsExact(m: Web3Tx)
    ensures Size(m) == |Encode(m)|
  {
    SovIsExact(m.chainID);
    SovIsExact(|m.feePayer|);
    SovIsExact(|m.feePayerSig|);
  }

  /** The buffer with `x` written at `start`. */
  ghost function Put(s: seq<byte>, start: nat, x: seq<byte>): (r: seq<byte>)
    requires start + |x| <= |s|
    ensures |r| == |s|
  {
    s[..start] + x + s[start + |x|..]
  }

  /** Writing right before what was just written extends it to the front. */
  lemma {:induction false} PutBefore(s: seq<byte>, start: nat, x: seq<byte>, y: seq<byte>)
    requires start + |x| + |y| <= |s|
    ensures Put(Put(s, start + |x|, y), start, x) == Put(s, start, x + y)
  {
    var t := Put(s, start + |x|, y);
    assert t[..start] == s[..start];
    assert t[start + |x|..] == y + s[start + |x| + |y|..];
  }

  lemma {:induction false} PutAtEnd(s: seq<byte>, start: nat, x: seq<byte>)
    requires start + |x| == |s|
    ensures Put(s, start, x)[..start] == s[..start] && Put(s, start, x)[start..] == x
  {
  }

  /** Writes the varint so that it ends at `offset`, and returns where it starts. */
  method EncodeVarint(buf: array<byte>, offset: nat, v: nat) returns (base: nat)
    requires |Encoding(v)| <= offset <= buf.Length
    modifies buf
    ensures base == offset - |Encoding(v)|
    ensures buf[..] == Put(old(buf[..]), base, Encoding(v))
  {
    hide Put;
    SovIsExact(v);
    base := offset - Sov(v);
    ghost var was := buf[..];
    ghost var tail, goal := was[offset..], Put(was, base, Encoding(v));
    var i, rest := base, v;
    assert buf[..i] + Encoding(rest) + tail == goal by { PutIs(was, base, Encoding(v)); }
    while rest >= 128
      invariant base <= i && i + |Encoding(rest)| == offset
      invariant buf[..i] + Encoding(rest) + tail == goal
      invariant buf[offset..] == tail
      decreases rest
    {
      ghost var before := buf[..i];
      buf[i] := rest % 128 + 128;
      EncodingStep(before, rest, tail);
      rest := rest / 128;
      i := i + 1;
      assert buf[..i] == before + [buf[i - 1]];
    }
    buf[i] := rest;
    assert buf[..] == buf[..i] + [buf[i]] + buf[offset..];
  }

  lemma {:induction false} PutIs(s: seq<byte>, start: nat, x: seq<byte>)
    requires start + |x| <= |s|
    ensures Put(s, start, x) == s[..start] + x + s[start + |x|..]
  {
  }

  lemma {:induction false} EncodingStep(before: seq<byte>, rest: nat, tail: seq<byte>)
    requires rest >= 128
    ensures |Encoding(rest)| == 1 + |Encoding(rest / 128)|
    ensures before + Encoding(rest) + tail == before + [rest % 128 + 128] + Encoding(rest / 128) + tail
  {
  }

  method CopyInto(buf: array<byte>, start: nat, s: seq<byte>)
    requires start + |s| <= buf.Length
    modifies buf
    ensures buf[..] == Put(old(buf[..]), start, s)
  {
    forall k | 0 <= k < |s| { buf[start + k] := s[k]; }
  }

  /** Length-delimited field, back to front: payload, length, tag. */
  method WriteBytesField(buf: array<byte>, end: nat, tag: byte, s: seq<byte>) returns (i: nat)
    requires |BytesField(tag, s)| <= end <= buf.Length
    modifies buf
    ensures i == end - |BytesField(tag, s)|
    ensures buf[..] == Put(old(buf[..]), i, BytesField(tag, s))
  {
    hide Put;
    ghost var was := buf[..];
    i := end - |s|;
    CopyInto(buf, i, s);
    i := EncodeVarint(buf, i, |s|);
    PutBefore(was, i, Encoding(|s|), s);
    i := i - 1;
    CopyInto(buf, i, [tag]);
    PutBefore(was, i, [tag], Encoding(|s|) + s);
    assert BytesField(tag, s) == [tag] + (Encoding(|s|) + s);
  }

  method WriteBytesPart(buf: array<byte>, end: nat, tag: byte, s: seq<byte>) returns (i: nat)
    requires |BytesPart(tag, s)| <= end <= buf.Length
    modifies buf
    ensures i == end - |BytesPart(tag, s)|
    ensures buf[..] == Put(old(buf[..]), i, BytesPart(tag, s))
  {
    i := end;
    if |s| > 0 { i := WriteBytesField(buf, i, tag, s); }
  }

  method WriteChainIDPart(buf: array<byte>, end: nat, v: nat) returns (i: nat)
    requires |ChainIDPart(v)| <= end <= buf.Length
    modifies buf
    ensures i == end - |ChainIDPart(v)|
    ensures buf[..] == Put(old(buf[..]), i, ChainIDPart(v))
  {
    i := end;
    if v != 0 {
      ghost var was := buf[..];
      i := EncodeVarint(buf, i, v);
      i := i - 1;
      CopyInto(buf, i, [0x08]);
      PutBefore(was, i, [0x08], Encoding(v));
    }
  }

  /** Fills the end of the buffer with exactly the encoding and leaves the front alone. */
  method MarshalToSizedBuffer(m: Web3Tx, buf: array<byte>) returns (n: nat)
    requires buf.Length >= Size(m)
    modifies buf
    ensures n == Size(m) == |Encode(m)|
    ensures buf[..] == Put(old(buf[..]), buf.Length - n, Encode(m))
    ensures buf[buf.Length - n..] == EncodeUnknowns(FieldsOf(m))
    ensures buf[..buf.Length - n] == old(buf[..buf.Length - n])
  {
    hide BytesPart, ChainIDPart, Size, Put;
    SizeIsExact(m);
    ghost var was := buf[..];
    ghost var a, b, c := ChainIDPart(m.chainID), BytesPart(0x12, m.feePayer), BytesPart(0x1a, m.feePayerSig);
    var i := buf.Length;
    i := WriteBytesPart(buf, i, 0x1a, m.feePayerSig);
    i := WriteBytesPart(buf, i, 0x12, m.feePayer);
    PutBefore(was, i, b, c);
    i := WriteChainIDPart(buf, i, m.chainID);
    PutBefore(was, i, a, b + c);
    assert Encode(m) == a + (b + c);
    n := buf.Length - i;
    EncodeIsFields(m);
    PutAtEnd(was, i, Encode(m));
  }

  method Marshal(m: Web3Tx) returns (data: seq<byte>)
    ensures data == Encode(m) == EncodeUnknowns(FieldsOf(m))
  {
    hide Encode, EncodeUnknowns, FieldsOf, Put;
    SizeIsExact(m);
    EncodeIsFields(m);
    var buf := new byte[Size(m)];
    var n := MarshalToSizedBuffer(m, buf);
    data := buf[..n];
  }

  // ---------------------------------------------------------------- parsing

  /** The switch of `skipWeb3` on the wire type. */
  method SkipPayloadAt(data: seq<byte>, start: nat, wireType: nat, depth: nat) returns (r: Result<Read<nat>, DecodeError>)
    requires start <= |data| && wireType < 8
    ensures r == SkipPayload(data[start..], wireType, depth)
  {
    hide Decode;
    match wireType {
      case 0 =>
        var v := ReadVarint(data, start);
        return if v.Err? then Err(v.error) else Ok(Read(depth, v.value.size));
      case 1 => return Ok(Read(depth, 8));
      case 2 =>
        var len := ReadVarint(data, start);
        if len.Err? { return Err(len.error); }
        if len.value.value >= TWO_63 { return Err(InvalidLength); }
        return Ok(Read(depth, len.value.size + len.value.value));
      case 3 => return Ok(Read(depth + 1, 0));
      case 4 => return if depth == 0 then Err(UnexpectedEndOfGroup) else Ok(Read(depth - 1, 0));
      case 5 => return Ok(Read(depth, 4));
      case _ => return Err(IllegalWireType);
    }
  }

  /** One turn of the `skipWeb3` loop. */
  method SkipStepAt(data: seq<byte>, i: nat, depth: nat) returns (r: Result<Read<nat>, DecodeError>)
    requires i <= |data|
    ensures r == SkipStep(data[i..], i, depth)
  {
    hide Decode, SkipPayload;
    var tag := ReadVarint(data, i);
    if tag.Err? { return Err(tag.error); }
    var next := i + tag.value.size;
    assert data[i..][tag.value.size..] == data[next..];
    var payload := SkipPayloadAt(data, next, tag.value.value % 8, depth);
    if payload.Err? { return payload; }
    next := next + payload.value.size;
    if next >= TWO_63 { return Err(InvalidLength); }
    return Ok(Read(payload.value.value, next - i));
  }

  /** The `skipWeb3` loop. */
  method SkipField(data: seq<byte>) returns (r: Result<nat, DecodeError>)
    ensures r == Skip(data, 0, 0)
  {
    hide SkipStep;
    var i, depth := 0, 0;
    assert data[0..] == data;
    while i < |data|
      invariant 0 <= i <= |data| && depth >= 0
      invariant Skip(data, 0, 0) == Plus(i, Skip(data[i..], i, depth))
      decreases |data| - i
    {
      var step := SkipStepAt(data, i, depth);
      if step.Err? { return Err(step.error); }
      var next := i + step.value.size;
      depth := step.value.value;
      if depth == 0 { return Ok(next); }
      if next > |data| { return Err(UnexpectedEOF); }
      assert data[i..][step.value.size..] == data[next..];
      i := next;
    }
    return Err(UnexpectedEOF);
  }

  /** A length-delimited payload, with Go's checks for negative and overflowing indices. */
  method ReadBytes(data: seq<byte>, start: nat) returns (r: Result<Read<seq<byte>>, DecodeError>)
    requires start <= |data|
    ensures r == ParseBytes(data[start..], start)
  {
    hide Decode;
    var len := ReadVarint(data, start);
    if len.Err? { return Err(len.error); }
    if len.value.value >= TWO_63 { return Err(InvalidLength); }
    var first := start + len.value.size;
    var post := first + len.value.value;
    if post >= TWO_63 { return Err(InvalidLength); }
    if post > |data| { return Err(UnexpectedEOF); }
    assert data[start..][len.value.size..len.value.size + len.value.value] == data[first..post];
    return Ok(Read(data[first..post], post - start));
  }

  /** One field of `Unmarshal`. */
  method ReadField(data: seq<byte>, i: nat, m: Web3Tx) returns (r: Result<Read<Web3Tx>, DecodeError>)
    requires i < |data|
    ensures r == ParseField(data[i..], i, m)
  {
    hide Decode, Skip, ParseBytes;
    var tag := ReadVarint(data, i);
    if tag.Err? { return Err(tag.error); }
    var n, num, wireType := tag.value.size, FieldNumber(tag.value.value), tag.value.value % 8;
    assert data[i..][n..] == data[i + n..];
    if wireType == 4 { return Err(EndGroupOutsideGroup); }
    if num <= 0 { return Err(IllegalTag); }
    match num {
      case 1 =>
        if wireType != 0 { return Err(WrongWireType); }
        var v := ReadVarint(data, i + n);
        if v.Err? { return Err(v.error); }
        return Ok(Read(m.(chainID := v.value.value), n + v.value.size));
      case 2 =>
        if wireType != 2 { return Err(WrongWireType); }
        var b := ReadBytes(data, i + n);
        if b.Err? { return Err(b.error); }
        return Ok(Read(m.(feePayer := b.value.value), n + b.value.size));
      case 3 =>
        if wireType != 2 { return Err(WrongWireType); }
        var b := ReadBytes(data, i + n);
        if b.Err? { return Err(b.error); }
        return Ok(Read(m.(feePayerSig := b.value.value), n + b.value.size));
      case _ =>
        var skipped := SkipField(data[i..]);
        if skipped.Err? { return Err(skipped.error); }
        if i + skipped.value >= TWO_63 { return Err(InvalidLength); }
        if i + skipped.value > |data| { return Err(UnexpectedEOF); }
        return Ok(Read(m, skipped.value));
    }
  }

  /** The `Unmarshal` loop; it ends on every input. */
  method Unmarshal(data: seq<byte>, m0: Web3Tx) returns (r: Result<Web3Tx, DecodeError>)
    ensures r == Parse(data, 0, m0)
  {
    hide ParseField;
    var i, m := 0, m0;
    assert data[0..] == data;
    while i < |data|
      invariant 0 <= i <= |data|
      invariant Parse(data, 0, m0) == Parse(data[i..], i, m)
      decreases |data| - i
    {
      var f := ReadField(data, i, m);
      if f.Err? { return Err(f.error); }
      assert data[i..][f.value.size..] == data[i + f.value.size..];
      i, m := i + f.value.size, f.value.value;
    }
    return Ok(m);
  }

  /** Marshal, then Unmarshal into a fresh message: every message that fits its Go types comes back. */
  method MarshalUnmarshal(m: Web3Tx) returns (r: Result<Web3Tx, DecodeError>)
    requires Fits(m)
    ensures r == Ok(m)
  {
    var data := Marshal(m);
    RoundTrip(m, EMPTY);
    r := Unmarshal(data, EMPTY);
  }
}
