/** Base-128 varints as the generated protobuf code writes and reads them. */
module Varints {
  import opened Types

  function Pow2(n: nat): (r: nat)
    ensures r >= 1
  {
    if n == 0 then 1 else 2 * Pow2(n - 1)
  }

  /** The varint of a number: seven bits a byte, lowest first, all but the last marked. */
  function Varint(v: nat): (r: Bytes)
    ensures |r| >= 1
  {
    if v < 128 then [v] else [v % 128 + 128] + Varint(v / 128)
  }

  /** bits.Len64: the bits needed to write a number. */
  function BitLen(v: nat): nat {
    if v == 0 then 0 else 1 + BitLen(v / 2)
  }

  /** sovTypes: the closed form of a varint's length. */
  function SovTypes(v: nat): nat {
    (BitLen(if v % 2 == 0 then v + 1 else v) + 6) / 7
  }

  /** Setting the lowest bit only matters for zero. */
  lemma LowestBit(v: nat)
    requires v > 0
    ensures BitLen(if v % 2 == 0 then v + 1 else v) == BitLen(v)
  {
    assert (if v % 2 == 0 then v + 1 else v) / 2 == v / 2;
  }

  lemma SevenBits(v: nat)
    requires v >= 128
    ensures BitLen(v) == 7 + BitLen(v / 128)
  {
    assert BitLen(v) == 3 + BitLen(v / 8) by {
      assert v / 2 / 2 == v / 4 && v / 4 / 2 == v / 8;
      assert BitLen(v / 2) == 1 + BitLen(v / 4) && BitLen(v / 4) == 1 + BitLen(v / 8);
    }
    assert BitLen(v / 8) == 4 + BitLen(v / 128) by {
      assert v / 8 / 2 == v / 16 && v / 16 / 2 == v / 32 && v / 32 / 2 == v / 64 && v / 64 / 2 == v / 128;
      assert BitLen(v / 16) == 1 + BitLen(v / 32) && BitLen(v / 32) == 1 + BitLen(v / 64) && BitLen(v / 64) == 1 + BitLen(v / 128);
    }
  }

  lemma {:induction false} BitsBelow(v: nat, k: nat)
    requires v < Pow2(k)
    ensures BitLen(v) <= k
  {
    if k > 0 && v > 0 { BitsBelow(v / 2, k - 1); }
  }

  /** The closed form is the number of bytes the varint takes. */
  lemma {:induction false} SovIsLength(v: nat)
    ensures SovTypes(v) == |Varint(v)|
  {
    if v == 0 {
      assert BitLen(1) == 1 + BitLen(0);
    } else {
      LowestBit(v);
      if v < 128 {
        assert Pow2(7) == 128;
        BitsBelow(v, 7);
      } else {
        SevenBits(v);
        SovIsLength(v / 128);
        LowestBit(v / 128);
      }
    }
  }

  /** `v&0x7f` and `v>>7`. */
  function Low7(v: nat): (r: nat)
    ensures r < 128
  {
    v % 128
  }

  function Above7(v: nat): (r: nat)
    ensures r <= v && (v >= 128 ==> r < v)
  {
    v / 128
  }

  lemma VarintStep(v: nat)
    ensures Varint(v) == if v < 128 then [v] else [Low7(v) + 128] + Varint(Above7(v))
  {
  }

  /** encodeVarintTypes: writes the varint so that it ends at `offset`. */
  method EncodeVarint(dAtA: array<Byte>, offset: nat, v: uint64) returns (base: nat)
    requires SovTypes(v) <= offset <= dAtA.Length
    modifies dAtA
    ensures base + SovTypes(v) == offset
    ensures dAtA[base..] == Varint(v) + old(dAtA[offset..])
  {
    SovIsLength(v);
    base := offset - SovTypes(v);
    hide *;
    WriteGroups(dAtA, base, v);
    assert dAtA[base..] == dAtA[base..offset] + dAtA[offset..];
    assert dAtA[base..offset] == Varint(v);
  }

  /** The loop of encodeVarintTypes. */
  method WriteGroups(dAtA: array<Byte>, base: nat, v: nat)
    requires base + |Varint(v)| <= dAtA.Length
    modifies dAtA
    ensures forall j :: 0 <= j < |Varint(v)| ==> dAtA[base + j] == Varint(v)[j]
    ensures dAtA[base + |Varint(v)|..] == old(dAtA[base + |Varint(v)|..])
  {
    hide Varint, Low7, Above7;
    var i, rest := 0, v;
    ghost var code := Varint(v);
    assert code[0..] == code;
    VarintStep(rest);
    while rest >= 128
      invariant 0 <= rest && i < |code| && Varint(rest) == code[i..]
      invariant forall j :: 0 <= j < i ==> dAtA[base + j] == code[j]
      invariant forall j :: base + |code| <= j < dAtA.Length ==> dAtA[j] == old(dAtA[j])
    {
      VarintStep(rest);
      dAtA[base + i] := Low7(rest) + 128;
      assert code[i..][1..] == code[i + 1..];
      rest := Above7(rest);
      i := i + 1;
    }
    VarintStep(rest);
    dAtA[base + i] := rest;
  }

  // ----- reading ----------------------------------------------------------------------------

  /** Bitwise or. */
  function Or(a: nat, b: nat): nat {
    if a == 0 && b == 0 then 0
    else 2 * Or(a / 2, b / 2) + (if a % 2 == 1 || b % 2 == 1 then 1 else 0)
  }

  lemma {:induction false} OrZero(b: nat)
    ensures Or(0, b) == b
  {
    if b > 0 { OrZero(b / 2); }
  }

  /** Bits that do not overlap add up. */
  lemma {:induction false} OrDisjoint(a: nat, b: nat, k: nat)
    requires a < Pow2(k)
    ensures Or(a, b * Pow2(k)) == a + b * Pow2(k)
  {
    if k == 0 {
      OrZero(b);
    } else {
      assert b * Pow2(k) == 2 * (b * Pow2(k - 1));
      assert (b * Pow2(k)) / 2 == b * Pow2(k - 1) && (b * Pow2(k)) % 2 == 0;
      OrDisjoint(a / 2, b, k - 1);
    }
  }

  lemma {:induction false} OrBelow(a: nat, b: nat, k: nat)
    requires a < Pow2(k) && b < Pow2(k)
    ensures Or(a, b) < Pow2(k)
  {
    if k > 0 { OrBelow(a / 2, b / 2, k - 1); }
  }

  lemma Pow2Of64()
    ensures Pow2(64) == TWO_TO_64
  {
    assert Pow2(4) == 16;
    hide Pow2;
    Pow2Adds(4, 4);
    assert Pow2(8) == 0x100;
    Pow2Adds(8, 8);
    assert Pow2(16) == 0x1_0000;
    Pow2Adds(16, 16);
    assert Pow2(32) == 0x1_0000_0000;
    Pow2Adds(32, 32);
  }

  lemma {:induction false} Pow2Adds(a: nat, b: nat)
    ensures Pow2(a + b) == Pow2(a) * Pow2(b)
  {
    if a > 0 { Pow2Adds(a - 1, b); }
  }

  datatype WireError = IntOverflow | UnexpectedEof | InvalidLength | EndGroup | IllegalTag | WrongWireType | UnexpectedEndOfGroup | IllegalWireType

  datatype Read = Value(value: uint64, next: nat) | ReadFailed(error: WireError, partial: uint64)

  /** `uint64(b&0x7F) << shift`: bits above the 64th are shifted out. */
  function Shifted(b: Byte, shift: nat): uint64 {
    b % 128 * Pow2(shift) % TWO_TO_64
  }

  /** Or-ing two 64-bit values. */
  function OrUint64(a: uint64, b: uint64): (r: uint64)
    ensures r == Or(a, b)
  {
    Pow2Of64();
    OrBelow(a, b, 64);
    Or(a, b)
  }

  /** The loop every varint is read with, or-ing its bits into a value that may already hold some. */
  function ReadVarint(data: Bytes, i: nat, shift: nat, acc: uint64): (r: Read)
    ensures r.Value? ==> i < r.next <= |data|
    decreases 64 - shift
  {
    if shift >= 64 then ReadFailed(IntOverflow, acc)
    else if i >= |data| then ReadFailed(UnexpectedEof, acc)
    else
      var value := OrUint64(acc, Shifted(data[i], shift));
      if data[i] < 128 then Value(value, i + 1) else ReadVarint(data, i + 1, shift + 7, value)
  }

  /** Reading a varint gives the number back, from any position. */
  lemma ReadsBack(data: Bytes, i: nat, v: uint64)
    requires i + |Varint(v)| <= |data| && data[i..i + |Varint(v)|] == Varint(v)
    ensures ReadVarint(data, i, 0, 0) == Value(v, i + |Varint(v)|)
  {
    Pow2Of64();
    ReadsRest(data, i, 0, 0, v);
  }

  lemma {:induction false} ReadsRest(data: Bytes, i: nat, shift: nat, acc: uint64, v: nat)
    requires i + |Varint(v)| <= |data| && data[i..i + |Varint(v)|] == Varint(v)
    requires shift < 64 && acc < Pow2(shift) && acc + v * Pow2(shift) < TWO_TO_64
    ensures ReadVarint(data, i, shift, acc) == Value(acc + v * Pow2(shift), i + |Varint(v)|)
    decreases v
  {
    assert data[i] == Varint(v)[0];
    AddsDigit(data[i], v / 128, v % 128, shift, acc);
    if v >= 128 {
      assert Varint(v)[1..] == Varint(v / 128);
      assert data[i + 1..i + 1 + |Varint(v / 128)|] == data[i..i + |Varint(v)|][1..];
      hide Shifted, Pow2, OrUint64;
      ReadsRest(data, i + 1, shift + 7, acc + v % 128 * Pow2(shift), v / 128);
    }
  }

  /** One byte adds its seven bits above those read so far, and leaves room for the rest. */
  lemma AddsDigit(b: Byte, rest: nat, digit: nat, shift: nat, acc: uint64)
    requires digit == b % 128
    requires shift < 64 && acc < Pow2(shift) && acc + (128 * rest + digit) * Pow2(shift) < TWO_TO_64
    ensures acc + digit * Pow2(shift) < TWO_TO_64
    ensures OrUint64(acc, Shifted(b, shift)) == acc + digit * Pow2(shift)
    ensures rest >= 1 ==> shift + 7 < 64
    ensures acc + digit * Pow2(shift) < Pow2(shift + 7)
    ensures acc + digit * Pow2(shift) + rest * Pow2(shift + 7) == acc + (128 * rest + digit) * Pow2(shift)
  {
    assert Pow2(7) == 128;
    hide *;
    OrDisjoint(acc, digit, shift);
    Pow2Adds(7, shift);
    var p := Pow2(shift);
    SplitDigit(rest, digit, p);
    ShiftedSmall(b, digit, shift);
    if rest >= 1 { ShiftFits(rest, shift + 7); }
  }

  lemma ShiftedSmall(b: Byte, digit: nat, shift: nat)
    requires digit == b % 128 && digit * Pow2(shift) < TWO_TO_64
    ensures Shifted(b, shift) == digit * Pow2(shift)
  {
    hide Pow2;
    var x := digit * Pow2(shift);
    assert x >= 0;
  }

  lemma SplitDigit(rest: nat, digit: nat, p: nat)
    requires digit < 128
    ensures rest * (128 * p) + digit * p == (128 * rest + digit) * p
    ensures 0 <= digit * p <= 127 * p
    ensures rest * (128 * p) >= 0
  {
    assert rest * (128 * p) == 128 * (rest * p);
    assert (128 * rest + digit) * p == 128 * (rest * p) + digit * p;
    assert (127 - digit) * p >= 0;
  }

  lemma ShiftFits(v: nat, shift: nat)
    requires v >= 1 && v * Pow2(shift) < TWO_TO_64
    ensures shift < 64
  {
    if shift >= 64 {
      Pow2Of64();
      Pow2Adds(64, shift - 64);
    }
  }

  /** The loop itself. */
  method DecodeVarint(data: Bytes, start: nat, initial: uint64) returns (r: Read)
    ensures r == ReadVarint(data, start, 0, initial)
  {
    var iNdEx: nat, value: uint64, shift: nat := start, initial, 0;
    hide Shifted, OrUint64;
    while true
      invariant ReadVarint(data, iNdEx, shift, value) == ReadVarint(data, start, 0, initial)
      decreases 64 - shift
    {
      if shift >= 64 { return ReadFailed(IntOverflow, value); }
      if iNdEx >= |data| { return ReadFailed(UnexpectedEof, value); }
      var b := data[iNdEx];
      iNdEx := iNdEx + 1;
      value := OrUint64(value, Shifted(b, shift));
      if b < 128 { return Value(value, iNdEx); }
      shift := shift + 7;
    }
  }
}
