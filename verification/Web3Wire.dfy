/**
 * The wire format of `ExtensionOptionsWeb3Tx`: what the generated encoder writes, what the generated
 * decoder accepts, and the laws that tie the two together.
 */
module Web3Wire {
  import opened Common
  import opened Varint

  datatype Web3Tx = Web3Tx(chainID: nat, feePayer: seq<byte>, feePayerSig: seq<byte>)

  const EMPTY := Web3Tx(0, [], [])

  /** The value fits its Go types: a uint64, and byte strings whose encoding has an int length. */
  ghost predicate Fits(m: Web3Tx) {
    m.chainID < TWO_64 && |Encode(m)| < TWO_63
  }

  function BytesField(tag: byte, s: seq<byte>): (r: seq<byte>) {
    [tag] + Encoding(|s|) + s
  }

  // A field that holds its default is left out.

  function BytesPart(tag: byte, s: seq<byte>): (r: seq<byte>) {
    if s == [] then [] else BytesField(tag, s)
  }

  function ChainIDPart(v: nat): (r: seq<byte>) {
    if v == 0 then [] else [0x08] + Encoding(v)
  }

  /** Fields in number order. */
  function Encode(m: Web3Tx): (r: seq<byte>) {
    ChainIDPart(m.chainID) + BytesPart(0x12, m.feePayer) + BytesPart(0x1a, m.feePayerSig)
  }

  // ---------------------------------------------------------------- decoding

  /** `int32(wire >> 3)`. */
  function FieldNumber(wire: nat): (n: int) {
    var low := wire / 8 % TWO_32;
    if low < TWO_32 / 2 then low else low - TWO_32
  }

  /** A length-delimited payload at index `at` of the input: what Go's index checks let through. */
  function ParseBytes(s: seq<byte>, at: nat): (r: Result<Read<seq<byte>>, DecodeError>)
    ensures r.Ok? ==> 0 < r.value.size <= |s|
  {
    var len := Decode(s, 0, 0);
    if len.Err? then Err(len.error)
    else
      var n, post := len.value.value, len.value.size + len.value.value;
      if n >= TWO_63 then Err(InvalidLength)
      else if at + post >= TWO_63 then Err(InvalidLength)
      else if post > |s| then Err(UnexpectedEOF)
      else Ok(Read(s[len.value.size..post], post))
  }

  /** `skipWeb3` from index `at` of its slice: how many bytes end the field, which may be more than there are. */
  function Skip(s: seq<byte>, at: nat, depth: nat): (r: Result<nat, DecodeError>)
    ensures r.Ok? ==> r.value > 0
    decreases |s|
  {
    if s == [] then Err(UnexpectedEOF)
    else
      var step := SkipStep(s, at, depth);
      if step.Err? then Err(step.error)
      else
        var n, depth' := step.value.size, step.value.value;
        if depth' == 0 then Ok(n)
        else if n > |s| then Err(UnexpectedEOF)
        else
          var rest := Skip(s[n..], at + n, depth');
          if rest.Err? then rest else Ok(n + rest.value)
  }

  /** One turn of the loop in `skipWeb3`: how far it moves and the group depth it leaves. */
  function SkipStep(s: seq<byte>, at: nat, depth: nat): (r: Result<Read<nat>, DecodeError>)
    ensures r.Ok? ==> r.value.size > 0
  {
    var tag := Decode(s, 0, 0);
    if tag.Err? then Err(tag.error)
    else
      var step := SkipPayload(s[tag.value.size..], tag.value.value % 8, depth);
      if step.Err? then step
      else
        var n := tag.value.size + step.value.size;
        if at + n >= TWO_63 then Err(InvalidLength) else Ok(Read(step.value.value, n))
  }

  /** The payload after a tag: its size and the group depth behind it. */
  function SkipPayload(s: seq<byte>, wireType: nat, depth: nat): (r: Result<Read<nat>, DecodeError>)
    requires wireType < 8
  {
    match wireType
    case 0 =>
      var v := Decode(s, 0, 0);
      if v.Err? then Err(v.error) else Ok(Read(depth, v.value.size))
    case 1 => Ok(Read(depth, 8))
    case 2 =>
      var len := Decode(s, 0, 0);
      if len.Err? then Err(len.error)
      else if len.value.value >= TWO_63 then Err(InvalidLength)
      else Ok(Read(depth, len.value.size + len.value.value))
    case 3 => Ok(Read(depth + 1, 0))
    case 4 => if depth == 0 then Err(UnexpectedEndOfGroup) else Ok(Read(depth - 1, 0))
    case 5 => Ok(Read(depth, 4))
    case _ => Err(IllegalWireType)
  }

  /** One turn of the `Unmarshal` loop, with the input from index `at` on. */
  function ParseField(s: seq<byte>, at: nat, m: Web3Tx): (r: Result<Read<Web3Tx>, DecodeError>)
    requires s != []
    ensures r.Ok? ==> 0 < r.value.size <= |s|
  {
    var tag := Decode(s, 0, 0);
    if tag.Err? then Err(tag.error)
    else
      var n, num, wireType := tag.value.size, FieldNumber(tag.value.value), tag.value.value % 8;
      if wireType == 4 then Err(EndGroupOutsideGroup)
      else if num <= 0 then Err(IllegalTag)
      else if num == 1 then
        if wireType != 0 then Err(WrongWireType)
        else
          var v := Decode(s[n..], 0, 0);
          if v.Err? then Err(v.error) else Ok(Read(m.(chainID := v.value.value), n + v.value.size))
      else if num == 2 || num == 3 then
        if wireType != 2 then Err(WrongWireType)
        else
          var b := ParseBytes(s[n..], at + n);
          if b.Err? then Err(b.error)
          else if num == 2 then Ok(Read(m.(feePayer := b.value.value), n + b.value.size))
          else Ok(Read(m.(feePayerSig := b.value.value), n + b.value.size))
      else
        var skipped := Skip(s, 0, 0);
        if skipped.Err? then Err(skipped.error)
        else if at + skipped.value >= TWO_63 then Err(InvalidLength)
        else if skipped.value > |s| then Err(UnexpectedEOF)
        else Ok(Read(m, skipped.value))
  }

  /** `Unmarshal` into an existing message, with the input from index `at` on. */
  function Parse(s: seq<byte>, at: nat, m: Web3Tx): (r: Result<Web3Tx, DecodeError>)
    decreases |s|
  {
    if s == [] then Ok(m)
    else
      var f := ParseField(s, at, m);
      if f.Err? then Err(f.error) else Parse(s[f.value.size..], at + f.value.size, f.value.value)
  }

  // ---------------------------------------------------------------- a parse stops where its field ends

  lemma ParseBytesIsLocal(s: seq<byte>, t: seq<byte>, at: nat, at': nat)
    requires ParseBytes(s, at).Ok? && at' + |s| < TWO_63
    ensures ParseBytes(s + t, at') == ParseBytes(s, at)
  {
    DecodeIsLocal(s, t, 0, 0);
    var len := Decode(s, 0, 0).value;
    assert (s + t)[len.size..len.size + len.value] == s[len.size..len.size + len.value];
  }

  lemma SkipPayloadIsLocal(s: seq<byte>, t: seq<byte>, wireType: nat, depth: nat)
    requires wireType < 8 && SkipPayload(s, wireType, depth).Ok?
    ensures SkipPayload(s + t, wireType, depth) == SkipPayload(s, wireType, depth)
  {
    if wireType == 0 || wireType == 2 { DecodeIsLocal(s, t, 0, 0); }
  }

  lemma SkipStepIsLocal(s: seq<byte>, t: seq<byte>, at: nat, depth: nat)
    requires SkipStep(s, at, depth).Ok?
    ensures SkipStep(s + t, at, depth) == SkipStep(s, at, depth)
  {
    hide Decode, SkipPayload;
    DecodeIsLocal(s, t, 0, 0);
    var tag := Decode(s, 0, 0).value;
    assert (s + t)[tag.size..] == s[tag.size..] + t;
    SkipPayloadIsLocal(s[tag.size..], t, tag.value % 8, depth);
  }

  lemma {:induction false} SkipIsLocal(s: seq<byte>, t: seq<byte>, at: nat, depth: nat)
    requires Skip(s, at, depth).Ok? && Skip(s, at, depth).value <= |s|
    ensures Skip(s + t, at, depth) == Skip(s, at, depth)
    decreases |s|
  {
    hide SkipStep;
    SkipStepIsLocal(s, t, at, depth);
    var step := SkipStep(s, at, depth).value;
    if step.value != 0 {
      assert (s + t)[step.size..] == s[step.size..] + t;
      SkipIsLocal(s[step.size..], t, at + step.size, step.value);
    }
  }

  lemma ParseFieldIsLocal(s: seq<byte>, t: seq<byte>, at: nat, at': nat, m: Web3Tx)
    requires s != [] && ParseField(s, at, m).Ok? && at' + |s| < TWO_63
    ensures ParseField(s + t, at', m) == ParseField(s, at, m)
  {
    hide Decode, Skip, ParseBytes;
    DecodeIsLocal(s, t, 0, 0);
    var tag := Decode(s, 0, 0).value;
    assert (s + t)[tag.size..] == s[tag.size..] + t;
    var num := FieldNumber(tag.value);
    if num == 1 {
      DecodeIsLocal(s[tag.size..], t, 0, 0);
    } else if num == 2 || num == 3 {
      ParseBytesIsLocal(s[tag.size..], t, at + tag.size, at' + tag.size);
    } else {
      SkipIsLocal(s, t, 0, 0);
    }
  }

  /** Concatenation merges: decoding `s + t` is decoding `t` into what `s` decodes to. */
  lemma {:induction false} ParseConcat(s: seq<byte>, t: seq<byte>, at: nat, at': nat, m: Web3Tx)
    requires Parse(s, at, m).Ok? && at' + |s| < TWO_63
    ensures Parse(s + t, at', m) == Parse(t, at' + |s|, Parse(s, at, m).value)
    decreases |s|
  {
    hide ParseField;
    if s == [] {
      assert s + t == t;
    } else {
      ParseFieldIsLocal(s, t, at, at', m);
      var f := ParseField(s, at, m).value;
      assert (s + t)[f.size..] == s[f.size..] + t;
      ParseConcat(s[f.size..], t, at + f.size, at' + f.size, f.value);
    }
  }

  // ---------------------------------------------------------------- round trip

  lemma {:induction false} ParseChainID(v: nat, at: nat, m: Web3Tx)
    requires v < TWO_64
    ensures Parse([0x08] + Encoding(v), at, m) == Ok(m.(chainID := v))
  {
    var s := [0x08] + Encoding(v);
    ReadTag(0x08, Encoding(v));
    assert s[1..] == Encoding(v) == Encoding(v) + [];
    ReadBack(v, []);
    assert ParseField(s, at, m) == Ok(Read(m.(chainID := v), |s|));
    assert s[|s|..] == [];
  }

  lemma {:induction false} ReadTag(tag: byte, t: seq<byte>)
    requires tag < 128
    ensures Decode([tag] + t, 0, 0) == Ok(Read(tag as nat, 1))
  {
    assert Encoding(tag) == [tag];
    ReadBack(tag, t);
  }

  lemma {:induction false} ParseBytesBack(b: seq<byte>, at: nat)
    requires at + |Encoding(|b|) + b| < TWO_63
    ensures ParseBytes(Encoding(|b|) + b, at) == Ok(Read(b, |Encoding(|b|) + b|))
  {
    ReadBack(|b|, b);
    var n := |Encoding(|b|)|;
    assert (Encoding(|b|) + b)[n..n + |b|] == b;
  }

  lemma {:induction false} ParseFeePayer(b: seq<byte>, at: nat, m: Web3Tx)
    requires at + |BytesField(0x12, b)| < TWO_63
    ensures Parse(BytesField(0x12, b), at, m) == Ok(m.(feePayer := b))
  {
    var s := BytesField(0x12, b);
    assert s == [0x12] + (Encoding(|b|) + b) && s[1..] == Encoding(|b|) + b;
    ReadTag(0x12, Encoding(|b|) + b);
    ParseBytesBack(b, at + 1);
    assert ParseField(s, at, m) == Ok(Read(m.(feePayer := b), |s|));
    assert s[|s|..] == [];
  }

  lemma {:induction false} ParseFeePayerSig(b: seq<byte>, at: nat, m: Web3Tx)
    requires at + |BytesField(0x1a, b)| < TWO_63
    ensures Parse(BytesField(0x1a, b), at, m) == Ok(m.(feePayerSig := b))
  {
    var s := BytesField(0x1a, b);
    assert s == [0x1a] + (Encoding(|b|) + b) && s[1..] == Encoding(|b|) + b;
    ReadTag(0x1a, Encoding(|b|) + b);
    ParseBytesBack(b, at + 1);
    assert ParseField(s, at, m) == Ok(Read(m.(feePayerSig := b), |s|));
    assert s[|s|..] == [];
  }

  /** What a message overwrites when it is decoded into another: every field that is not at its default. */
  function Overlay(m0: Web3Tx, m: Web3Tx): (r: Web3Tx) {
    Web3Tx(if m.chainID == 0 then m0.chainID else m.chainID,
           if m.feePayer == [] then m0.feePayer else m.feePayer,
           if m.feePayerSig == [] then m0.feePayerSig else m.feePayerSig)
  }

  /** Decoding an encoded message gives it back; into a used message it overwrites the fields it carries. */
  lemma {:induction false} RoundTrip(m: Web3Tx, m0: Web3Tx)
    requires Fits(m)
    ensures Parse(Encode(m), 0, m0) == Ok(Overlay(m0, m))
    ensures Parse(Encode(m), 0, EMPTY) == Ok(m)
  {
    RoundTripInto(m, m0);
    RoundTripInto(m, EMPTY);
  }

  lemma {:induction false} RoundTripInto(m: Web3Tx, m0: Web3Tx)
    requires Fits(m)
    ensures Parse(Encode(m), 0, m0) == Ok(Overlay(m0, m))
  {
    hide Parse, BytesField, Encoding;
    var a, b, c := ChainIDPart(m.chainID), BytesPart(0x12, m.feePayer), BytesPart(0x1a, m.feePayerSig);
    var m1 := if m.chainID == 0 then m0 else m0.(chainID := m.chainID);
    var m2 := if m.feePayer == [] then m1 else m1.(feePayer := m.feePayer);
    assert Encode(m) == a + b + c == a + (b + c);
    assert Parse(a, 0, m0) == Ok(m1) by {
      if m.chainID == 0 { ParseNothing(0, m0); } else { ParseChainID(m.chainID, 0, m0); }
    }
    ParseConcat(a, b + c, 0, 0, m0);
    assert Parse(b, |a|, m1) == Ok(m2) by {
      if m.feePayer == [] { ParseNothing(|a|, m1); } else { ParseFeePayer(m.feePayer, |a|, m1); }
    }
    ParseConcat(b, c, |a|, |a|, m1);
    assert Parse(c, |a| + |b|, m2) == Ok(Overlay(m0, m)) by {
      if m.feePayerSig == [] { ParseNothing(|a| + |b|, m2); } else { ParseFeePayerSig(m.feePayerSig, |a| + |b|, m2); }
    }
  }

  lemma {:induction false} ParseNothing(at: nat, m: Web3Tx)
    ensures Parse([], at, m) == Ok(m)
  {
  }

  // ---------------------------------------------------------------- fields of any schema

  /** A field as protobuf knows it, whatever schema it belongs to; groups nest to any depth. */
  datatype Unknown =
    | UVarint(num: nat, value: nat)
    | UFixed64(num: nat, bytes: seq<byte>)
    | UBytes(num: nat, payload: seq<byte>)
    | UGroup(num: nat, fields: seq<Unknown>)
    | UFixed32(num: nat, bytes: seq<byte>)

  const MAX_FIELD_NUMBER: nat := 0x1fff_ffff

  ghost predicate WellFormed(u: Unknown) {
    && 0 < u.num <= MAX_FIELD_NUMBER
    && match u
       case UVarint(_, v) => v < TWO_64
       case UFixed64(_, b) => |b| == 8
       case UBytes(_, b) => |b| < TWO_63
       case UGroup(_, fs) => forall f :: f in fs ==> WellFormed(f)
       case UFixed32(_, b) => |b| == 4
  }

  function Tag(num: nat, wireType: nat): (s: seq<byte>)
    ensures |s| > 0
  {
    Encoding(8 * num + wireType)
  }

  function EncodeUnknown(u: Unknown): (s: seq<byte>)
    ensures |s| > 0
    decreases u, 0
  {
    match u
    case UVarint(n, v) => Tag(n, 0) + Encoding(v)
    case UFixed64(n, b) => Tag(n, 1) + b
    case UBytes(n, b) => Tag(n, 2) + Encoding(|b|) + b
    case UGroup(n, fs) => Tag(n, 3) + EncodeUnknowns(fs) + Tag(n, 4)
    case UFixed32(n, b) => Tag(n, 5) + b
  }

  function EncodeUnknowns(us: seq<Unknown>): (s: seq<byte>)
    decreases us, 1
  {
    if us == [] then [] else EncodeUnknown(us[0]) + EncodeUnknowns(us[1..])
  }

  /** The fields of a message in number order, those at their default left out. */
  function FieldsOf(m: Web3Tx): (us: seq<Unknown>) {
    (if m.chainID != 0 then [UVarint(1, m.chainID)] else [])
    + (if m.feePayer != [] then [UBytes(2, m.feePayer)] else [])
    + (if m.feePayerSig != [] then [UBytes(3, m.feePayerSig)] else [])
  }

  lemma {:induction false} EncodeConcat(us: seq<Unknown>, vs: seq<Unknown>)
    ensures EncodeUnknowns(us + vs) == EncodeUnknowns(us) + EncodeUnknowns(vs)
  {
    hide EncodeUnknown;
    if us == [] {
      assert us + vs == vs;
    } else {
      EncodeConcat(us[1..], vs);
      assert (us + vs)[1..] == us[1..] + vs;
    }
  }

  lemma {:induction false} EncodeOne(u: Unknown)
    ensures EncodeUnknowns([u]) == EncodeUnknown(u)
  {
    hide EncodeUnknown;
    assert EncodeUnknowns([u][1..]) == [];
  }

  lemma {:induction false} BytesPartIsField(num: nat, tag: byte, s: seq<byte>)
    requires tag == 8 * num + 2 < 128
    ensures BytesPart(tag, s) == EncodeUnknowns(if s != [] then [UBytes(num, s)] else [])
  {
    if s != [] { EncodeOne(UBytes(num, s)); }
  }

  lemma {:induction false} ChainIDPartIsField(v: nat)
    ensures ChainIDPart(v) == EncodeUnknowns(if v != 0 then [UVarint(1, v)] else [])
  {
    if v != 0 {
      EncodeOne(UVarint(1, v));
      assert Tag(1, 0) == [0x08];
    }
  }

  /** The bytes are the generic protobuf encoding of those fields. */
  lemma {:induction false} EncodeIsFields(m: Web3Tx)
    ensures Encode(m) == EncodeUnknowns(FieldsOf(m))
  {
    hide EncodeUnknowns, BytesPart, ChainIDPart;
    var a := if m.chainID != 0 then [UVarint(1, m.chainID)] else [];
    var b := if m.feePayer != [] then [UBytes(2, m.feePayer)] else [];
    var c := if m.feePayerSig != [] then [UBytes(3, m.feePayerSig)] else [];
    ChainIDPartIsField(m.chainID);
    BytesPartIsField(2, 0x12, m.feePayer);
    BytesPartIsField(3, 0x1a, m.feePayerSig);
    EncodeConcat(a, b);
    EncodeConcat(a + b, c);
  }

  function Plus(n: nat, r: Result<nat, DecodeError>): (r': Result<nat, DecodeError>) {
    if r.Err? then r else Ok(n + r.value)
  }

  /** What `Skip` does once a complete field of `n` bytes has left it at `depth`. */
  function Onward(n: nat, t: seq<byte>, at: nat, depth: nat): (r: Result<nat, DecodeError>) {
    if depth == 0 then Ok(n) else Plus(n, Skip(t, at + n, depth))
  }

  lemma {:induction false} SkipTagged(num: nat, wireType: nat, body: seq<byte>, t: seq<byte>, at: nat, depth: nat, depth': nat)
    requires num <= MAX_FIELD_NUMBER && wireType < 8
    requires SkipPayload(body + t, wireType, depth) == Ok(Read(depth', |body|))
    requires at + |Tag(num, wireType)| + |body| + |t| < TWO_63
    ensures Skip(Tag(num, wireType) + body + t, at, depth) == Onward(|Tag(num, wireType) + body|, t, at, depth')
  {
    hide SkipPayload, Decode, Encoding;
    var tag := Tag(num, wireType);
    var s := tag + body + t;
    assert s == tag + (body + t);
    ReadBack(8 * num + wireType, body + t);
    assert s[|tag|..] == body + t;
    assert (8 * num + wireType) % 8 == wireType;
    assert s[|tag| + |body|..] == t;
  }

  /** A well-formed field is stepped over exactly, at any group depth and whatever follows it. */
  lemma {:induction false} SkipUnknown(u: Unknown, t: seq<byte>, at: nat, depth: nat)
    requires WellFormed(u) && at + |EncodeUnknown(u)| + |t| < TWO_63
    ensures Skip(EncodeUnknown(u) + t, at, depth) == Onward(|EncodeUnknown(u)|, t, at, depth)
    decreases u, 0
  {
    hide Skip, Encoding;
    match u
    case UVarint(n, v) =>
      ReadBack(v, t);
      SkipTagged(n, 0, Encoding(v), t, at, depth, depth);
    case UFixed64(n, b) => SkipTagged(n, 1, b, t, at, depth, depth);
    case UBytes(n, b) =>
      assert Tag(n, 2) + Encoding(|b|) + b == Tag(n, 2) + (Encoding(|b|) + b);
      assert Encoding(|b|) + b + t == Encoding(|b|) + (b + t);
      ReadBack(|b|, b + t);
      SkipTagged(n, 2, Encoding(|b|) + b, t, at, depth, depth);
    case UGroup(n, fs) => SkipGroup(n, fs, t, at, depth);
    case UFixed32(n, b) => SkipTagged(n, 5, b, t, at, depth, depth);
  }

  lemma {:induction false} SkipGroup(n: nat, fs: seq<Unknown>, t: seq<byte>, at: nat, depth: nat)
    requires WellFormed(UGroup(n, fs)) && at + |EncodeUnknown(UGroup(n, fs))| + |t| < TWO_63
    ensures Skip(EncodeUnknown(UGroup(n, fs)) + t, at, depth) == Onward(|EncodeUnknown(UGroup(n, fs))|, t, at, depth)
    decreases fs, 2
  {
    hide Skip, Encoding;
    var open, inner, close := Tag(n, 3), EncodeUnknowns(fs), Tag(n, 4);
    var s := open + inner + close + t;
    assert s == open + [] + (inner + (close + t));
    SkipTagged(n, 3, [], inner + (close + t), at, depth, depth + 1);
    SkipUnknowns(fs, close + t, at + |open|, depth + 1);
    assert close + t == close + [] + t;
    SkipTagged(n, 4, [], t, at + |open| + |inner|, depth + 1, depth);
    assert open + [] == open && close + [] == close;
  }

  lemma {:induction false} SkipUnknowns(us: seq<Unknown>, t: seq<byte>, at: nat, depth: nat)
    requires depth > 0 && (forall u :: u in us ==> WellFormed(u)) && at + |EncodeUnknowns(us)| + |t| < TWO_63
    ensures Skip(EncodeUnknowns(us) + t, at, depth) == Onward(|EncodeUnknowns(us)|, t, at, depth)
    decreases us, 1
  {
    hide Skip, Encoding;
    if us == [] {
      assert EncodeUnknowns(us) + t == t;
    } else {
      var a, b := EncodeUnknown(us[0]), EncodeUnknowns(us[1..]);
      assert a + b + t == a + (b + t);
      SkipUnknown(us[0], b + t, at, depth);
      SkipUnknowns(us[1..], t, at + |a|, depth);
    }
  }

  function WireType(u: Unknown): (t: nat)
    ensures t < 8 && t != 4
  {
    match u
    case UVarint(_, _) => 0
    case UFixed64(_, _) => 1
    case UBytes(_, _) => 2
    case UGroup(_, _) => 3
    case UFixed32(_, _) => 5
  }

  lemma {:induction false} TagFirst(u: Unknown)
    requires WellFormed(u)
    ensures Decode(EncodeUnknown(u), 0, 0) == Ok(Read(8 * u.num + WireType(u), |Tag(u.num, WireType(u))|))
  {
    hide Encoding, Decode;
    var s, tag := EncodeUnknown(u), Tag(u.num, WireType(u));
    assert s == tag + s[|tag|..];
    ReadBack(8 * u.num + WireType(u), s[|tag|..]);
  }

  /** A field whose number the schema does not know is consumed whole and changes nothing. */
  lemma {:induction false} UnknownIsIgnored(u: Unknown, at: nat, m: Web3Tx)
    requires WellFormed(u) && u.num > 3 && at + |EncodeUnknown(u)| < TWO_63
    ensures Parse(EncodeUnknown(u), at, m) == Ok(m)
  {
    hide Decode, Skip, EncodeUnknown, Tag;
    var s := EncodeUnknown(u);
    TagFirst(u);
    assert FieldNumber(8 * u.num + WireType(u)) == u.num && (8 * u.num + WireType(u)) % 8 == WireType(u);
    SkipUnknown(u, [], 0, 0);
    assert s + [] == s;
    assert ParseField(s, at, m) == Ok(Read(m, |s|));
    assert s[|s|..] == [];
  }

  /** A tag that the schema has no use for is refused, whatever follows it. */
  lemma {:induction false} BadTagIsRefused(num: nat, wireType: nat, t: seq<byte>, at: nat, m: Web3Tx)
    requires num <= MAX_FIELD_NUMBER && wireType < 8
    ensures var r := Parse(Tag(num, wireType) + t, at, m);
            && (wireType == 4 ==> r == Err(EndGroupOutsideGroup))
            && (wireType != 4 && num == 0 ==> r == Err(IllegalTag))
            && (wireType !in {0, 4} && num == 1 ==> r == Err(WrongWireType))
            && (wireType !in {2, 4} && num in {2, 3} ==> r == Err(WrongWireType))
            && (wireType in {6, 7} && num > 3 ==> r == Err(IllegalWireType))
  {
    hide Decode, Encoding;
    var wire := 8 * num + wireType;
    ReadBack(wire, t);
    assert FieldNumber(wire) == num && wire % 8 == wireType;
  }

  /** Anything that decodes still decodes to the same message with an unknown field appended. */
  lemma {:induction false} AppendingUnknownChangesNothing(s: seq<byte>, u: Unknown, m0: Web3Tx)
    requires Parse(s, 0, m0).Ok? && WellFormed(u) && u.num > 3 && |s| + |EncodeUnknown(u)| < TWO_63
    ensures Parse(s + EncodeUnknown(u), 0, m0) == Parse(s, 0, m0)
  {
    ParseConcat(s, EncodeUnknown(u), 0, 0, m0);
    UnknownIsIgnored(u, |s|, Parse(s, 0, m0).value);
  }
}
