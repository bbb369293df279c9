/** Base 128 varints as the generated protobuf code writes and reads them. */
module Varint {
  import opened Common

  type byte = x: int | 0 <= x < 256

  const TWO_32: int := 0x1_0000_0000
  const TWO_63: int := 0x8000_0000_0000_0000

  datatype DecodeError =
    | IntOverflow
    | UnexpectedEOF
    | InvalidLength
    | UnexpectedEndOfGroup
    | EndGroupOutsideGroup
    | IllegalTag
    | WrongWireType
    | IllegalWireType

  /** A value and how many bytes it took. */
  datatype Read<+T> = Read(value: T, size: nat)

  function Encoding(v: nat): (s: seq<byte>)
    ensures |s| > 0
  {
    if v < 128 then [v] else [v % 128 + 128] + Encoding(v / 128)
  }

  // ---------------------------------------------------------------- size

  /** `bits.Len64`. */
  function BitLen(x: nat): (n: nat) {
    if x == 0 then 0 else 1 + BitLen(x / 2)
  }

  /** `x | 1`. */
  function OrOne(x: nat): (y: nat) {
    if x % 2 == 0 then x + 1 else x
  }

  function Sov(x: nat): (n: nat) {
    (BitLen(OrOne(x)) + 6) / 7
  }

  lemma {:induction false} BitLenBelow128(x: nat)
    requires x < 128
    ensures BitLen(x) <= 7 && (x > 0 ==> BitLen(x) > 0)
  {
    assert x / 2 / 2 / 2 / 2 / 2 / 2 / 2 == 0;
    assert BitLen(x / 2 / 2 / 2 / 2 / 2 / 2) <= 1;
    assert BitLen(x / 2 / 2 / 2 / 2) <= 3;
    assert BitLen(x / 2 / 2) <= 5;
  }

  lemma {:induction false} BitLenShift(x: nat)
    requires x >= 128
    ensures BitLen(x) == 7 + BitLen(x / 128)
  {
    var a := x / 2 / 2;
    var b := a / 2 / 2;
    var c := b / 2 / 2;
    assert BitLen(x) == 2 + BitLen(a);
    assert BitLen(a) == 2 + BitLen(b);
    assert BitLen(b) == 2 + BitLen(c);
    assert c / 2 == x / 128;
  }

  /** The computed size is the number of bytes written. */
  lemma {:induction false} SovIsExact(v: nat)
    ensures Sov(v) == |Encoding(v)|
  {
    if v < 128 {
      BitLenBelow128(OrOne(v));
    } else {
      assert OrOne(v) / 128 == v / 128;
      BitLenShift(OrOne(v));
      SovIsExact(v / 128);
    }
  }

  // ---------------------------------------------------------------- reading

  function Pow2(k: nat): (p: nat)
    ensures p > 0
  {
    if k == 0 then 1 else 2 * Pow2(k - 1)
  }

  /** `acc | digit << shift` on 64 bits, for an `acc` below bit `shift`: nothing overlaps, so it adds. */
  function OrShifted(acc: nat, digit: nat, shift: nat): (r: nat)
    ensures r < TWO_64
  {
    (acc + digit * Pow2(shift)) % TWO_64
  }

  /** The bits read so far stay below the next shift, so no turn of the loop overlaps them. */
  lemma OrShiftedStaysBelow(acc: nat, digit: nat, shift: nat)
    requires acc < Pow2(shift) && digit < 128
    ensures OrShifted(acc, digit, shift) < Pow2(shift + 7)
  {
    var p := Pow2(shift);
    var d := digit * p;
    Monotone(digit, 127, p);
    assert acc + d < 128 * p;
    Pow2Seven(shift);
    ModAtMost(acc + d);
  }

  lemma ModAtMost(x: nat)
    ensures x % TWO_64 <= x
  {
  }

  /** One turn per byte: the low seven bits go in at `shift`, at most ten bytes. */
  function Decode(s: seq<byte>, shift: nat, acc: nat): (r: Result<Read<nat>, DecodeError>)
    requires acc < Pow2(shift)
    ensures r.Ok? ==> 0 < r.value.size <= |s| && r.value.value < TWO_64
    decreases |s|
  {
    if shift >= 64 then Err(IntOverflow)
    else if s == [] then Err(UnexpectedEOF)
    else
      var acc' := OrShifted(acc, s[0] % 128, shift);
      OrShiftedStaysBelow(acc, s[0] % 128, shift);
      if s[0] < 128 then Ok(Read(acc', 1))
      else
        var r := Decode(s[1..], shift + 7, acc');
        if r.Err? then r else Ok(Read(r.value.value, r.value.size + 1))
  }

  /** Reading stops at the end of the varint, whatever follows. */
  lemma {:induction false} DecodeIsLocal(s: seq<byte>, t: seq<byte>, shift: nat, acc: nat)
    requires acc < Pow2(shift) && Decode(s, shift, acc).Ok?
    ensures Decode(s + t, shift, acc) == Decode(s, shift, acc)
    decreases |s|
  {
    assert (s + t)[0] == s[0];
    if s[0] >= 128 {
      assert (s + t)[1..] == s[1..] + t;
      OrShiftedStaysBelow(acc, s[0] % 128, shift);
      DecodeIsLocal(s[1..], t, shift + 7, OrShifted(acc, s[0] % 128, shift));
    }
  }

  lemma Pow2Seven(k: nat)
    ensures Pow2(k + 7) == 128 * Pow2(k)
  {
    assert Pow2(k + 7) == 2 * Pow2(k + 6);
    assert Pow2(k + 6) == 2 * Pow2(k + 5);
    assert Pow2(k + 5) == 2 * Pow2(k + 4);
    assert Pow2(k + 4) == 2 * Pow2(k + 3);
    assert Pow2(k + 3) == 2 * Pow2(k + 2);
    assert Pow2(k + 2) == 2 * Pow2(k + 1);
  }

  lemma {:induction false} Pow2Grows(j: nat, k: nat)
    requires j <= k
    ensures Pow2(j) <= Pow2(k)
    decreases k - j
  {
    if j < k { Pow2Grows(j, k - 1); }
  }

  lemma Pow2SixtyFour()
    ensures Pow2(64) == TWO_64
  {
    assert Pow2(0) == 1 && Pow2(7) == 128 by { Pow2Seven(0); }
    Pow2Seven(7); Pow2Seven(14); Pow2Seven(21); Pow2Seven(28); Pow2Seven(35); Pow2Seven(42); Pow2Seven(49);
    assert Pow2(56) == 0x100_0000_0000_0000;
    Pow2Seven(56);
    assert Pow2(64) == 2 * Pow2(63);
  }

  lemma SplitDigit(v: nat, p: nat)
    ensures v % 128 * p + v / 128 * (128 * p) == v * p
  {
    calc {
      v % 128 * p + v / 128 * (128 * p);
      v % 128 * p + (v / 128 * 128) * p;
      (v % 128 + v / 128 * 128) * p;
      v * p;
    }
  }

  /** What is written is read back. */
  lemma {:induction false} DecodeEncoding(v: nat, t: seq<byte>, shift: nat, acc: nat, total: nat)
    requires shift < 64 && acc < Pow2(shift) && total == acc + v * Pow2(shift) < TWO_64
    ensures Decode(Encoding(v) + t, shift, acc) == Ok(Read(total, |Encoding(v)|))
    decreases v
  {
    var s, low, high := Encoding(v) + t, v % 128, v / 128;
    DigitStep(v, shift, acc, total);
    if v < 128 {
      assert s[0] == v;
    } else {
      assert s[0] == low + 128 && s[0] % 128 == low;
      assert s[1..] == Encoding(high) + t;
      OrShiftedStaysBelow(acc, low, shift);
      DecodeEncoding(high, t, shift + 7, OrShifted(acc, low, shift), total);
    }
  }

  lemma DigitStep(v: nat, shift: nat, acc: nat, total: nat)
    requires total == acc + v * Pow2(shift) < TWO_64
    ensures v < 128 ==> OrShifted(acc, v, shift) == total
    ensures v >= 128 ==> total == OrShifted(acc, v % 128, shift) + v / 128 * Pow2(shift + 7) && shift + 7 < 64
  {
    if v >= 128 {
      var p := Pow2(shift);
      SplitDigit(v, p);
      Monotone(1, v / 128, 128 * p);
      Monotone(0, v % 128, p);
      Pow2Seven(shift);
      ShiftFits(shift);
    }
  }

  lemma ShiftFits(shift: nat)
    requires Pow2(shift + 7) < TWO_64
    ensures shift + 7 < 64
  {
    if shift + 7 >= 64 {
      Pow2Grows(64, shift + 7);
      Pow2SixtyFour();
    }
  }

  lemma Monotone(a: nat, b: nat, c: nat)
    requires a <= b
    ensures a * c <= b * c
  {
  }

  lemma {:induction false} ReadBack(v: nat, t: seq<byte>)
    requires v < TWO_64
    ensures Decode(Encoding(v) + t, 0, 0) == Ok(Read(v, |Encoding(v)|))
  {
    DecodeEncoding(v, t, 0, 0, v);
  }

  // ---------------------------------------------------------------- the format

  /** Seven bits a byte, the lowest first. */
  ghost function Value(s: seq<byte>): (v: nat) {
    if s == [] then 0 else s[0] % 128 + 128 * Value(s[1..])
  }

  /** A varint of `n` bytes at the start: every byte but the last one has its top bit set. */
  ghost predicate EndsAt(s: seq<byte>, n: nat) {
    0 < n <= |s| && s[n - 1] < 128 && forall i :: 0 <= i < n - 1 ==> s[i] >= 128
  }

  /** What is written stands for the number, ends where it should and carries no useless last byte. */
  lemma {:induction false} EncodingIsCanonical(v: nat)
    ensures var s := Encoding(v); EndsAt(s, |s|) && Value(s) == v && (|s| > 1 ==> s[|s| - 1] > 0)
  {
    if v >= 128 {
      EncodingIsCanonical(v / 128);
      var s := Encoding(v);
      assert s[1..] == Encoding(v / 128);
      forall i | 0 <= i < |s| - 1 ensures s[i] >= 128 {
        if i > 0 { assert s[i] == s[1..][i - 1]; }
      }
    }
  }

  lemma {:induction false} ModAdd(a: nat, b: nat)
    ensures (a % TWO_64 + b) % TWO_64 == (a + b) % TWO_64
  {
    assert a == a / TWO_64 * TWO_64 + a % TWO_64;
    ModOfMultiple(a / TWO_64, a % TWO_64 + b);
  }

  lemma {:induction false} ModOfMultiple(q: nat, x: nat)
    ensures (q * TWO_64 + x) % TWO_64 == x % TWO_64
  {
  }

  lemma {:induction false} ValueStep(acc: nat, digit: nat, rest: nat, shift: nat)
    ensures OrShifted(OrShifted(acc, digit, shift), rest, shift + 7) == OrShifted(acc, digit + 128 * rest, shift)
  {
    var p := Pow2(shift);
    Pow2Seven(shift);
    assert (digit + 128 * rest) * p == digit * p + rest * (128 * p);
    ModAdd(acc + digit * p, rest * (128 * p));
  }

  lemma {:induction false} DecodeSums(s: seq<byte>, n: nat, shift: nat, acc: nat)
    requires acc < Pow2(shift) && EndsAt(s, n) && shift + 7 * (n - 1) < 64
    ensures Decode(s, shift, acc) == Ok(Read(OrShifted(acc, Value(s[..n]), shift), n))
    decreases n
  {
    hide Pow2, OrShifted;
    var digit, rest := s[0] % 128, Value(s[..n][1..]);
    assert Value(s[..n]) == digit + 128 * rest;
    ValueStep(acc, digit, rest, shift);
    if n == 1 {
      assert rest == 0;
    } else {
      OrShiftedStaysBelow(acc, digit, shift);
      assert s[1..][..n - 1] == s[..n][1..];
      assert EndsAt(s[1..], n - 1);
      DecodeSums(s[1..], n - 1, shift + 7, OrShifted(acc, digit, shift));
    }
  }

  lemma {:induction false} DecodeRunsOn(s: seq<byte>, shift: nat, acc: nat)
    requires acc < Pow2(shift) && forall i :: 0 <= i < |s| && shift + 7 * i < 64 ==> s[i] >= 128
    ensures Decode(s, shift, acc) == Err(if shift + 7 * |s| >= 64 then IntOverflow else UnexpectedEOF)
    decreases |s|
  {
    if shift < 64 && s != [] {
      OrShiftedStaysBelow(acc, s[0] % 128, shift);
      forall i | 0 <= i < |s| - 1 && shift + 7 + 7 * i < 64 ensures s[1..][i] >= 128 {
        assert shift + 7 * (i + 1) < 64;
      }
      DecodeRunsOn(s[1..], shift + 7, OrShifted(acc, s[0] % 128, shift));
    }
  }

  /** Reading gives the number modulo 2^64 if a varint ends within ten bytes, and an error otherwise. */
  lemma {:induction false} DecodeMeans(s: seq<byte>, n: nat)
    ensures n <= 10 && EndsAt(s, n) ==> Decode(s, 0, 0) == Ok(Read(Value(s[..n]) % TWO_64, n))
    ensures (forall i :: 0 <= i < |s| && i < 10 ==> s[i] >= 128) ==>
            Decode(s, 0, 0) == Err(if |s| >= 10 then IntOverflow else UnexpectedEOF)
  {
    if n <= 10 && EndsAt(s, n) { DecodeSums(s, n, 0, 0); }
    if forall i :: 0 <= i < |s| && i < 10 ==> s[i] >= 128 { DecodeRunsOn(s, 0, 0); }
  }

  /** The decoding loop. */
  method ReadVarint(data: seq<byte>, start: nat) returns (r: Result<Read<nat>, DecodeError>)
    requires start <= |data|
    ensures r == Decode(data[start..], 0, 0)
  {
    var i, shift, acc := start, 0, 0;
    while true
      invariant start <= i <= |data| && 0 <= acc < Pow2(shift)
      invariant Decode(data[start..], 0, 0) ==
                match Decode(data[i..], shift, acc)
                case Ok(x) => Ok(Read(x.value, x.size + (i - start)))
                case Err(e) => Err(e)
      decreases |data| - i
    {
      if shift >= 64 { return Err(IntOverflow); }
      if i >= |data| { return Err(UnexpectedEOF); }
      var b := data[i];
      assert data[i..][1..] == data[i + 1..];
      i := i + 1;
      OrShiftedStaysBelow(acc, b % 128, shift);
      acc := OrShifted(acc, b % 128, shift);
      if b < 128 { return Ok(Read(acc, i - start)); }
      shift := shift + 7;
    }
  }
}
