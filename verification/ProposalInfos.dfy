/** The generated marshaller and parser of ProposalInfo, on buffers filled back to front. */
module ProposalInfos {
  import opened Types
  import opened Varints
  import opened WireFormat
  import opened WireParse
  import opened WireRoundTrip

  // ----- writing --------------------------------------------------------------------------------

  /** A varint with its tag in front, ending at `offset`. */
  method PutTagged(dAtA: array<Byte>, offset: nat, tag: Byte, v: uint64) returns (i: nat)
    requires 1 + |Varint(v)| <= offset <= dAtA.Length
    modifies dAtA
    ensures i + 1 + |Varint(v)| == offset
    ensures dAtA[i..] == [tag] + (Varint(v) + old(dAtA[offset..]))
  {
    SovIsLength(v);
    hide *;
    i := EncodeVarint(dAtA, offset, v);
    ghost var tail := dAtA[i..];
    i := i - 1;
    dAtA[i] := tag;
    assert dAtA[i..] == [dAtA[i]] + dAtA[i + 1..];
    assert dAtA[i + 1..] == tail;
  }

  /** `copy(dAtA[i:], s)`. */
  method Copy(dAtA: array<Byte>, i: nat, s: Bytes)
    requires i + |s| <= dAtA.Length
    modifies dAtA
    ensures dAtA[i..] == s + old(dAtA[i + |s|..])
  {
    ghost var tail := dAtA[i + |s|..];
    forall j | 0 <= j < |s| {
      dAtA[i + j] := s[j];
    }
    assert dAtA[i..] == dAtA[i..i + |s|] + dAtA[i + |s|..];
    assert dAtA[i..i + |s|] == s;
    assert dAtA[i + |s|..] == tail;
  }

  /** A scalar field, nothing for zero. */
  method PutField(dAtA: array<Byte>, offset: nat, tag: Byte, v: uint64) returns (i: nat)
    requires |Field(tag, v)| <= offset <= dAtA.Length
    modifies dAtA
    ensures i + |Field(tag, v)| == offset
    ensures dAtA[i..] == Field(tag, v) + old(dAtA[offset..])
  {
    i := offset;
    if v != 0 {
      i := PutTagged(dAtA, offset, tag, v);
    }
  }

  /** Key and value of an entry, back to front. */
  method PutEntryBody(dAtA: array<Byte>, baseI: nat, k: Bytes, v: uint64) returns (i: nat)
    requires |Entry(k, v)| + 1 <= baseI <= dAtA.Length < TWO_TO_63
    modifies dAtA
    ensures i + |Entry(k, v)| == baseI
    ensures dAtA[i..] == Entry(k, v) + old(dAtA[baseI..])
  {
    ghost var tail := dAtA[baseI..];
    ghost var value, lengthCode := [0x10] + Varint(v), Varint(|k|);
    assert Entry(k, v) == [0x0a] + (lengthCode + (k + value));
    hide *;
    i := PutTagged(dAtA, baseI, 0x10, v);
    ghost var s1 := dAtA[i..];
    assert s1 == value + tail;
    i := i - |k|;
    Copy(dAtA, i, k);
    ghost var s2 := dAtA[i..];
    assert s2 == k + s1;
    i := PutTagged(dAtA, i, 0x0a, |k|);
    assert dAtA[i..] == [0x0a] + (lengthCode + s2);
    Regroup([0x0a], lengthCode, k, value, tail);
  }

  lemma Regroup(a: Bytes, b: Bytes, c: Bytes, d: Bytes, tail: Bytes)
    ensures a + (b + (c + (d + tail))) == (a + (b + (c + d))) + tail
  {
    assert c + (d + tail) == (c + d) + tail;
    assert b + ((c + d) + tail) == (b + (c + d)) + tail;
    assert a + ((b + (c + d)) + tail) == (a + (b + (c + d))) + tail;
  }

  /** One entry of the map, with its length in front. */
  method PutEntry(dAtA: array<Byte>, baseI: nat, k: Bytes, v: uint64) returns (i: nat)
    requires |EntryField(k, v)| <= baseI <= dAtA.Length < TWO_TO_63
    modifies dAtA
    ensures i + |EntryField(k, v)| == baseI
    ensures dAtA[i..] == EntryField(k, v) + old(dAtA[baseI..])
  {
    ghost var tail, entry := dAtA[baseI..], Entry(k, v);
    assert EntryField(k, v) == [0x0a] + (Varint(|entry|) + entry);
    hide *;
    i := PutEntryBody(dAtA, baseI, k, v);
    ghost var s1 := dAtA[i..];
    assert s1 == entry + tail;
    i := PutTagged(dAtA, i, 0x0a, baseI - i);
    assert dAtA[i..] == [0x0a] + (Varint(|entry|) + s1);
    Regroup([], [0x0a], Varint(|entry|), entry, tail);
    assert [] + ([0x0a] + (Varint(|entry|) + s1)) == [0x0a] + (Varint(|entry|) + s1);
    assert [] + ([0x0a] + (Varint(|entry|) + entry)) == [0x0a] + (Varint(|entry|) + entry);
  }

  /** `order` lists the keys of the map that are no longer among `keys`. */
  ghost predicate Covered(order: seq<Bytes>, keys: set<Bytes>, m: map<Bytes, uint64>) {
    && (forall k :: k in order <==> k in m && k !in keys)
    && (forall a, b :: 0 <= a < b < |order| ==> order[a] != order[b])
  }

  lemma CoverNext(k: Bytes, order: seq<Bytes>, keys: set<Bytes>, m: map<Bytes, uint64>)
    requires Covered(order, keys, m) && keys <= m.Keys && k in keys
    ensures forall x :: x in order ==> x in m
    ensures Covered([k] + order, keys - {k}, m)
  {
  }

  lemma CoverEnds(order: seq<Bytes>, m: map<Bytes, uint64>)
    requires Covered(order, {}, m)
    ensures Lists(order, m)
  {
  }

  /** The bytes so far: the entries of `order` and what was there before. */
  ghost predicate Written(bytes: Bytes, order: seq<Bytes>, m: map<Bytes, uint64>, tail: Bytes) {
    (forall k :: k in order ==> k in m) && bytes == Entries(order, m) + tail
  }

  lemma WrittenIs(bytes: Bytes, order: seq<Bytes>, m: map<Bytes, uint64>, tail: Bytes)
    requires Written(bytes, order, m, tail)
    ensures (forall k :: k in order ==> k in m) && bytes == Entries(order, m) + tail
  {
  }

  lemma WrittenNext(bytes: Bytes, k: Bytes, order: seq<Bytes>, m: map<Bytes, uint64>, tail: Bytes)
    requires Written(bytes, order, m, tail) && k in m
    ensures Written(EntryField(k, m[k]) + bytes, [k] + order, m, tail)
  {
    assert ([k] + order)[1..] == order;
    hide EntryField;
    assert EntryField(k, m[k]) + (Entries(order, m) + tail) == (EntryField(k, m[k]) + Entries(order, m)) + tail;
  }

  /** One pass over the map in an order of the runtime's choosing. */
  method PutEntries(dAtA: array<Byte>, offset: nat, m: map<Bytes, uint64>) returns (i: nat, ghost order: seq<Bytes>)
    requires SizeOver(m.Keys, m) <= offset <= dAtA.Length < TWO_TO_63
    modifies dAtA
    ensures Lists(order, m) && i + |Entries(order, m)| == offset
    ensures dAtA[i..] == Entries(order, m) + old(dAtA[offset..])
  {
    i := offset;
    order := [];
    var keys := m.Keys;
    ghost var tail := dAtA[offset..];
    assert Covered(order, keys, m) && Written(dAtA[i..], order, m, tail);
    hide *;
    while keys != {}
      invariant keys <= m.Keys && SizeOver(keys, m) <= i <= offset && dAtA.Length - i == |dAtA[i..]|
      invariant Covered(order, keys, m) && Written(dAtA[i..], order, m, tail)
      decreases |keys|
    {
      var k :| k in keys;
      SizeWithout(keys, m, k);
      CoverNext(k, order, keys, m);
      WrittenNext(dAtA[i..], k, order, m, tail);
      i := PutEntry(dAtA, i, k, m[k]);
      order := [k] + order;
      keys := keys - {k};
    }
    CoverEnds(order, m);
    WrittenIs(dAtA[i..], order, m, tail);
  }

  lemma FieldSize(tag: Byte, v: uint64)
    ensures |Field(tag, v)| == if v == 0 then 0 else 1 + SovTypes(v)
  {
    SovIsLength(v);
  }

  lemma PrintSize(info: Info, keys: seq<Bytes>)
    requires Lists(keys, info.txsByLane)
    ensures |Print(info, keys)| == SizeOver(info.txsByLane.Keys, info.txsByLane) + |Scalars(info)|
  {
    EntriesLength(keys, info.txsByLane);
    assert KeySet(keys) == info.txsByLane.Keys;
  }

  /** Size's pass over the map. */
  method EntriesSize(m: map<Bytes, uint64>) returns (n: nat)
    ensures n == SizeOver(m.Keys, m)
  {
    n := 0;
    var keys := m.Keys;
    assert SizeOver({}, m) == 0;
    hide *;
    while keys != {}
      invariant keys <= m.Keys && n + SizeOver(keys, m) == SizeOver(m.Keys, m)
      decreases |keys|
    {
      var k :| k in keys;
      SizeWithout(keys, m, k);
      EntrySizeIsExact(k, m[k]);
      n := n + EntrySize(k, m[k]);
      keys := keys - {k};
    }
  }

  /** What Size adds for one entry. */
  function EntrySize(k: Bytes, v: uint64): nat {
    var mapEntrySize := 1 + |k| + SovTypes(|k|) + 1 + SovTypes(v);
    mapEntrySize + 1 + SovTypes(mapEntrySize)
  }

  lemma EntrySizeIsExact(k: Bytes, v: uint64)
    ensures EntrySize(k, v) == |EntryField(k, v)|
  {
    SovIsLength(|k|);
    SovIsLength(v);
    SovIsLength(|Entry(k, v)|);
    hide SovTypes, Varint;
  }

  lemma ZeroBits(x: int64)
    ensures AsUint64(x) == 0 <==> x == 0
  {
  }

  class ProposalInfo {
    var txsByLane: map<Bytes, uint64>
    var maxBlockSize: int64
    var maxGasLimit: uint64
    var blockSize: int64
    var gasLimit: uint64

    constructor ()
      ensures Value() == EMPTY
    {
      txsByLane, maxBlockSize, maxGasLimit, blockSize, gasLimit := map[], 0, 0, 0, 0;
    }

    function Value(): Info
      reads this
    {
      Info(txsByLane, maxBlockSize, maxGasLimit, blockSize, gasLimit)
    }

    /** The number of bytes Marshal writes, whatever order it goes through the map in. */
    method Size() returns (n: nat)
      ensures n == SizeOver(txsByLane.Keys, txsByLane) + |Scalars(Value())|
      ensures forall keys :: Lists(keys, txsByLane) ==> n == |Print(Value(), keys)|
    {
      n := EntriesSize(txsByLane);
      ZeroBits(maxBlockSize);
      ZeroBits(blockSize);
      FieldSize(0x10, AsUint64(maxBlockSize));
      FieldSize(0x18, maxGasLimit);
      FieldSize(0x20, AsUint64(blockSize));
      FieldSize(0x28, gasLimit);
      hide Field, SovTypes, AsUint64;
      if maxBlockSize != 0 { n := n + 1 + SovTypes(AsUint64(maxBlockSize)); }
      if maxGasLimit != 0 { n := n + 1 + SovTypes(maxGasLimit); }
      if blockSize != 0 { n := n + 1 + SovTypes(AsUint64(blockSize)); }
      if gasLimit != 0 { n := n + 1 + SovTypes(gasLimit); }
      forall keys | Lists(keys, txsByLane) ensures n == |Print(Value(), keys)| {
        PrintSize(Value(), keys);
      }
    }

    /** MarshalToSizedBuffer: the message at the end of the buffer, fields in reverse, the map's
        entries in some order. */
    method MarshalToSizedBuffer(dAtA: array<Byte>) returns (n: nat, ghost order: seq<Bytes>)
      requires SizeOver(txsByLane.Keys, txsByLane) + |Scalars(Value())| <= dAtA.Length < TWO_TO_63
      modifies dAtA
      ensures Lists(order, txsByLane) && n == |Print(Value(), order)| <= dAtA.Length
      ensures dAtA[dAtA.Length - n..] == Print(Value(), order)
    {
      ghost var a, b := Field(0x10, AsUint64(maxBlockSize)), Field(0x18, maxGasLimit);
      ghost var c, d := Field(0x20, AsUint64(blockSize)), Field(0x28, gasLimit);
      assert Scalars(Value()) == a + (b + (c + d));
      hide Field, AsUint64, Scalars;
      var i := dAtA.Length;
      assert dAtA[i..] == [];
      i := PutField(dAtA, i, 0x28, gasLimit);
      assert dAtA[i..] == d;
      i := PutField(dAtA, i, 0x20, AsUint64(blockSize));
      i := PutField(dAtA, i, 0x18, maxGasLimit);
      i := PutField(dAtA, i, 0x10, AsUint64(maxBlockSize));
      assert dAtA[i..] == Scalars(Value());
      i, order := PutEntries(dAtA, i, txsByLane);
      n := dAtA.Length - i;
    }

    /** Marshal: a buffer of Size bytes, and as many of them as were written. */
    method Marshal() returns (bytes: Bytes, ghost order: seq<Bytes>)
      requires SizeOver(txsByLane.Keys, txsByLane) + |Scalars(Value())| < TWO_TO_63
      ensures Lists(order, txsByLane) && bytes == Print(Value(), order)
      ensures ParseFrom(bytes, 0, EMPTY) == Parsed(Value())
    {
      var size := Size();
      var dAtA := new Byte[size](_ => 0);
      var n;
      n, order := MarshalToSizedBuffer(dAtA);
      bytes := dAtA[..n];
      assert n == size && dAtA[..n] == dAtA[size - n..];
      RoundTrip(Value(), order);
    }

    /** Unmarshal merges the message into the fields, or returns the first error and keeps what it
        had merged until then. */
    method Unmarshal(dAtA: Bytes) returns (error: Option<WireError>)
      modifies this
      ensures match ParseFrom(dAtA, 0, old(Value()))
              case Parsed(info) => error == None && Value() == info
              case ParseFailed(e, left) => error == Some(e) && Value() == left
    {
      var iNdEx := 0;
      while iNdEx < |dAtA|
        invariant iNdEx <= |dAtA|
        invariant ParseFrom(dAtA, iNdEx, Value()) == ParseFrom(dAtA, 0, old(Value()))
        decreases |dAtA| - iNdEx
      {
        var next, e := UnmarshalField(dAtA, iNdEx);
        if e.Some? { return e; }
        iNdEx := next;
      }
      error := None;
    }

    /** One pass of Unmarshal's loop. */
    method UnmarshalField(dAtA: Bytes, preIndex: nat) returns (next: nat, error: Option<WireError>)
      requires preIndex < |dAtA|
      modifies this
      ensures match ParseField(dAtA, preIndex, old(Value()))
              case Moved(info, after) => error == None && next == after && Value() == info
              case StepFailed(e, left) => error == Some(e) && Value() == left
    {
      hide ReadVarint, AsInt32, WrapInt64, ParseMapField, SkipUnknown;
      var tag := DecodeVarint(dAtA, preIndex, 0);
      if tag.ReadFailed? { return preIndex, Some(tag.error); }
      var fieldNum, wireType := AsInt32(tag.value / 8), tag.value % 8;
      if wireType == 4 { return preIndex, Some(EndGroup); }
      if fieldNum <= 0 { return preIndex, Some(IllegalTag); }
      if fieldNum == 1 {
        next, error := UnmarshalEntry(dAtA, tag.next, wireType);
      } else if fieldNum <= 5 {
        if wireType != 0 { return preIndex, Some(WrongWireType); }
        var v := DecodeVarint(dAtA, tag.next, 0);
        var read := if v.ReadFailed? then v.partial else v.value;
        match fieldNum {
          case 2 => maxBlockSize := WrapInt64(read);
          case 3 => maxGasLimit := read;
          case 4 => blockSize := WrapInt64(read);
          case _ => gasLimit := read;
        }
        if v.ReadFailed? { return preIndex, Some(v.error); }
        next, error := v.next, None;
      } else {
        var skippy := SkipUnknownField(dAtA, preIndex, |dAtA|);
        if skippy.SkipFailed? { return preIndex, Some(skippy.error); }
        next, error := skippy.next, None;
      }
    }

    /** A map entry, stored under its key even when the key was there before. */
    method UnmarshalEntry(dAtA: Bytes, start: nat, wireType: nat) returns (next: nat, error: Option<WireError>)
      modifies this
      ensures match ParseMapField(dAtA, start, wireType, old(Value()))
              case Moved(info, after) => error == None && next == after && Value() == info
              case StepFailed(e, left) => error == Some(e) && Value() == left
    {
      hide ReadLength, ParseEntry;
      if wireType != 2 { return start, Some(WrongWireType); }
      var post, at := DecodeLength(dAtA, start);
      if post.SkipFailed? { return start, Some(post.error); }
      var entry := UnmarshalKeyValue(dAtA, at, post.next);
      if entry.EntryFailed? { return start, Some(entry.error); }
      txsByLane := txsByLane[entry.key := entry.value];
      next, error := post.next, None;
    }
  }

  // ----- reading --------------------------------------------------------------------------------

  /** A length with its checks; `at` is where what it announces begins. */
  method DecodeLength(dAtA: Bytes, start: nat) returns (end: Skip, at: nat)
    ensures end == ReadLength(dAtA, start)
    ensures end.Skipped? ==> at == StringStart(dAtA, start) && at <= end.next
  {
    hide ReadVarint, WrapInt64;
    var msglen := DecodeVarint(dAtA, start, 0);
    if msglen.ReadFailed? { return SkipFailed(msglen.error), start; }
    at := msglen.next;
    if WrapInt64(msglen.value) < 0 { return SkipFailed(InvalidLength), at; }
    var postIndex := at + WrapInt64(msglen.value);
    if WrapInt64(postIndex) < 0 { return SkipFailed(InvalidLength), at; }
    if postIndex > |dAtA| { return SkipFailed(UnexpectedEof), at; }
    end := Skipped(postIndex);
  }

  /** The inner loop: the fields of a map entry. */
  method UnmarshalKeyValue(dAtA: Bytes, start: nat, postIndex: nat) returns (r: EntryRead)
    requires postIndex <= |dAtA|
    ensures r == ParseEntry(dAtA, start, postIndex, [], 0)
  {
    hide ReadVarint, ReadLength, StringStart, SkipUnknown, AsInt32;
    var iNdEx: nat, mapkey: Bytes, mapvalue: uint64 := start, [], 0;
    while iNdEx < postIndex
      invariant ParseEntry(dAtA, iNdEx, postIndex, mapkey, mapvalue) == ParseEntry(dAtA, start, postIndex, [], 0)
      decreases |dAtA| - iNdEx
    {
      var tag := DecodeVarint(dAtA, iNdEx, 0);
      if tag.ReadFailed? { return EntryFailed(tag.error); }
      var fieldNum := AsInt32(tag.value / 8);
      if fieldNum == 1 {
        var end, at := DecodeLength(dAtA, tag.next);
        if end.SkipFailed? { return EntryFailed(end.error); }
        mapkey, iNdEx := dAtA[at..end.next], end.next;
      } else if fieldNum == 2 {
        var v := DecodeVarint(dAtA, tag.next, mapvalue);
        if v.ReadFailed? { return EntryFailed(v.error); }
        mapvalue, iNdEx := v.value, v.next;
      } else {
        var skippy := SkipUnknownField(dAtA, iNdEx, postIndex);
        if skippy.SkipFailed? { return EntryFailed(skippy.error); }
        iNdEx := skippy.next;
      }
    }
    r := EntryRead(mapkey, mapvalue);
  }

  method SkipUnknownField(dAtA: Bytes, preIndex: nat, limit: nat) returns (r: Skip)
    requires preIndex < |dAtA|
    ensures r == SkipUnknown(dAtA, preIndex, limit)
  {
    SkipMoves(dAtA, preIndex, preIndex, 0);
    r := SkipTypes(dAtA, preIndex);
    if r.SkipFailed? { return; }
    if WrapInt64(r.next) < 0 { return SkipFailed(InvalidLength); }
    if r.next > limit { return SkipFailed(UnexpectedEof); }
  }

  /** skipTypes on the bytes from `start` on. */
  method SkipTypes(dAtA: Bytes, start: nat) returns (r: Skip)
    ensures r == SkipField(dAtA, start, start, 0)
  {
    hide ReadVarint, SkipValue, WrapInt64;
    var iNdEx: nat, depth: nat := start, 0;
    while iNdEx < |dAtA|
      invariant start <= iNdEx
      invariant SkipField(dAtA, start, iNdEx, depth) == SkipField(dAtA, start, start, 0)
      decreases |dAtA| - iNdEx
    {
      var wire := DecodeVarint(dAtA, iNdEx, 0);
      if wire.ReadFailed? { return SkipFailed(wire.error); }
      var wireType := wire.value % 8;
      var after := SkipPayload(dAtA, wire.next, wireType, depth);
      if after.SkipFailed? { return after; }
      iNdEx := after.next;
      if wireType == 3 {
        depth := depth + 1;
      } else if wireType == 4 {
        depth := depth - 1;
      }
      if WrapInt64(iNdEx - start) < 0 { return SkipFailed(InvalidLength); }
      if depth == 0 { return Skipped(iNdEx); }
    }
    r := SkipFailed(UnexpectedEof);
  }

  /** The switch of skipTypes. */
  method SkipPayload(dAtA: Bytes, start: nat, wireType: nat, depth: nat) returns (r: Skip)
    ensures r == SkipValue(dAtA, start, wireType, depth)
    ensures r.Skipped? && wireType == 4 ==> depth > 0
    ensures r.Skipped? ==> start <= r.next
  {
    match wireType
    case 0 => r := SkipVarint(dAtA, start);
    case 1 => r := Skipped(start + 8);
    case 2 =>
      var length := DecodeVarint(dAtA, start, 0);
      if length.ReadFailed? { return SkipFailed(length.error); }
      if WrapInt64(length.value) < 0 { return SkipFailed(InvalidLength); }
      r := Skipped(length.next + length.value);
    case 3 => r := Skipped(start);
    case 4 =>
      if depth == 0 { return SkipFailed(UnexpectedEndOfGroup); }
      r := Skipped(start);
    case 5 => r := Skipped(start + 4);
    case _ => r := SkipFailed(IllegalWireType);
  }

  method SkipVarint(dAtA: Bytes, start: nat) returns (r: Skip)
    ensures r == SkipBytes(dAtA, start, 0)
  {
    var iNdEx: nat, shift: nat := start, 0;
    while true
      invariant SkipBytes(dAtA, iNdEx, shift) == SkipBytes(dAtA, start, 0)
      decreases 64 - shift
    {
      if shift >= 64 { return SkipFailed(IntOverflow); }
      if iNdEx >= |dAtA| { return SkipFailed(UnexpectedEof); }
      iNdEx := iNdEx + 1;
      if dAtA[iNdEx - 1] < 128 { return Skipped(iNdEx); }
      shift := shift + 7;
    }
  }
}
