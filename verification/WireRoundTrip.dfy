/** Parsing what was printed gives the message back, for every order of the map's entries. */
module WireRoundTrip {
  import opened Types
  import opened Varints
  import opened WireFormat
  import opened WireParse

  /** `bytes` stand from position `i` up to `j`. */
  predicate Spans(data: Bytes, i: nat, j: nat, bytes: Bytes) {
    i <= j <= |data| && data[i..j] == bytes
  }

  lemma Split(data: Bytes, i: nat, j: nat, a: Bytes, b: Bytes) returns (k: nat)
    requires Spans(data, i, j, a + b)
    ensures i <= k <= j <= |data| && Spans(data, i, k, a) && Spans(data, k, j, b)
  {
    k := i + |a|;
    assert data[i..k] == data[i..j][..|a|];
    assert data[k..j] == data[i..j][|a|..];
  }

  lemma VarintBack(data: Bytes, i: nat, j: nat, v: uint64)
    requires Spans(data, i, j, Varint(v))
    ensures i < j <= |data| && ReadVarint(data, i, 0, 0) == Value(v, j)
  {
    assert j == i + |Varint(v)|;
    ReadsBack(data, i, v);
  }

  /** A one-byte tag reads as itself. */
  lemma TagBack(data: Bytes, i: nat, j: nat, tag: Byte)
    requires tag < 128 && Spans(data, i, j, [tag])
    ensures i < j <= |data| && ReadVarint(data, i, 0, 0) == Value(tag, j)
  {
    assert Varint(tag) == [tag];
    VarintBack(data, i, j, tag);
  }

  lemma LengthBack(data: Bytes, i: nat, k: nat, j: nat, body: Bytes)
    requires |data| < TWO_TO_63 && |body| < TWO_TO_63 && Spans(data, i, k, Varint(|body|)) && Spans(data, k, j, body)
    ensures ReadVarint(data, i, 0, 0) == Value(|body|, k) && ReadLength(data, i) == Skipped(j)
  {
    VarintBack(data, i, k, |body|);
    assert k + |body| == j;
    hide ReadVarint, Varint;
  }

  lemma ParseEnd(data: Bytes, info: Info)
    ensures ParseFrom(data, |data|, info) == Parsed(info)
  {
  }

  lemma ParseStep(data: Bytes, i: nat, info: Info, info': Info, j: nat)
    requires i < |data| && ParseField(data, i, info) == Moved(info', j)
    ensures ParseFrom(data, i, info) == ParseFrom(data, j, info')
  {
    hide ParseField;
  }

  // ----- scalar fields --------------------------------------------------------------------------

  lemma ScalarBack(data: Bytes, i: nat, j: nat, fieldNum: nat, v: uint64, info: Info)
    requires 2 <= fieldNum <= 5 && v != 0 && Spans(data, i, j, Field(8 * fieldNum, v))
    ensures i < |data| && ParseField(data, i, info) == Moved(WithScalar(info, fieldNum, v), j)
  {
    var tag := 8 * fieldNum;
    assert Field(tag, v) == [tag] + Varint(v);
    assert AsInt32(tag / 8) == fieldNum && tag % 8 == 0;
    hide ReadVarint, Varint, AsInt32, WithScalar, Spans, Field, ParseMapField, SkipUnknown;
    var k := Split(data, i, j, [tag], Varint(v));
    TagBack(data, i, k, tag);
    VarintBack(data, k, j, v);
  }

  /** A scalar field moves the parser past it and sets its value, printed or not. */
  lemma FieldBack(data: Bytes, i: nat, j: nat, fieldNum: nat, v: uint64, info: Info, info': Info)
    requires 2 <= fieldNum <= 5 && Spans(data, i, j, Field(8 * fieldNum, v))
    requires info' == if v == 0 then info else WithScalar(info, fieldNum, v)
    ensures ParseFrom(data, i, info) == ParseFrom(data, j, info')
  {
    if v == 0 {
      assert i == j;
    } else {
      ScalarBack(data, i, j, fieldNum, v, info);
      hide *;
      ParseStep(data, i, info, info', j);
    }
  }

  lemma SignedBack(x: int64)
    ensures WrapInt64(AsUint64(x)) == x
    ensures AsUint64(x) == 0 <==> x == 0
  {
  }

  /** Each field in turn, from the map alone to the whole message. */
  lemma Overwrites(info: Info)
    ensures var m1 := EMPTY.(txsByLane := info.txsByLane);
            var m2 := m1.(maxBlockSize := info.maxBlockSize);
            var m3 := m2.(maxGasLimit := info.maxGasLimit);
            var m4 := m3.(blockSize := info.blockSize);
            && m2 == (if AsUint64(info.maxBlockSize) == 0 then m1 else WithScalar(m1, 2, AsUint64(info.maxBlockSize)))
            && m3 == (if info.maxGasLimit == 0 then m2 else WithScalar(m2, 3, info.maxGasLimit))
            && m4 == (if AsUint64(info.blockSize) == 0 then m3 else WithScalar(m3, 4, AsUint64(info.blockSize)))
            && info == (if info.gasLimit == 0 then m4 else WithScalar(m4, 5, info.gasLimit))
  {
    SignedBack(info.maxBlockSize);
    SignedBack(info.blockSize);
    hide AsUint64, WrapInt64;
  }

  lemma ScalarsBack(data: Bytes, i: nat, info: Info)
    requires Spans(data, i, |data|, Scalars(info))
    ensures ParseFrom(data, i, EMPTY.(txsByLane := info.txsByLane)) == Parsed(info)
  {
    var a, b := Field(0x10, AsUint64(info.maxBlockSize)), Field(0x18, info.maxGasLimit);
    var c, d := Field(0x20, AsUint64(info.blockSize)), Field(0x28, info.gasLimit);
    assert Scalars(info) == a + (b + (c + d));
    var m1 := EMPTY.(txsByLane := info.txsByLane);
    var m2 := m1.(maxBlockSize := info.maxBlockSize);
    var m3 := m2.(maxGasLimit := info.maxGasLimit);
    var m4 := m3.(blockSize := info.blockSize);
    Overwrites(info);
    hide *;
    var j := Split(data, i, |data|, a, b + (c + d));
    var k := Split(data, j, |data|, b, c + d);
    var l := Split(data, k, |data|, c, d);
    FieldBack(data, i, j, 2, AsUint64(info.maxBlockSize), m1, m2);
    FieldBack(data, j, k, 3, info.maxGasLimit, m2, m3);
    FieldBack(data, k, l, 4, AsUint64(info.blockSize), m3, m4);
    FieldBack(data, l, |data|, 5, info.gasLimit, m4, info);
    ParseEnd(data, info);
  }

  // ----- map entries ----------------------------------------------------------------------------

  lemma KeyBack(data: Bytes, i: nat, j: nat, post: nat, key: Bytes)
    requires |data| < TWO_TO_63 && |key| < TWO_TO_63 && j < post <= |data| && Spans(data, i, j, [0x0a] + (Varint(|key|) + key))
    ensures ParseEntry(data, i, post, [], 0) == ParseEntry(data, j, post, key, 0)
  {
    assert AsInt32(0x0a / 8) == 1;
    hide ReadVarint, Varint, AsInt32, ReadLength, SkipUnknown;
    var k := Split(data, i, j, [0x0a], Varint(|key|) + key);
    TagBack(data, i, k, 0x0a);
    var l := Split(data, k, j, Varint(|key|), key);
    LengthBack(data, k, l, j, key);
    hide Spans;
  }

  lemma ValueBack(data: Bytes, i: nat, post: nat, key: Bytes, v: uint64)
    requires Spans(data, i, post, [0x10] + Varint(v))
    ensures i < post <= |data| && ParseEntry(data, i, post, key, 0) == EntryRead(key, v)
  {
    assert AsInt32(0x10 / 8) == 2;
    hide ReadVarint, Varint, AsInt32, ReadLength, SkipUnknown, Spans;
    var k := Split(data, i, post, [0x10], Varint(v));
    TagBack(data, i, k, 0x10);
    VarintBack(data, k, post, v);
  }

  lemma EntryBack(data: Bytes, i: nat, post: nat, key: Bytes, v: uint64)
    requires |data| < TWO_TO_63 && |key| < TWO_TO_63 && Spans(data, i, post, Entry(key, v))
    ensures post <= |data| && ParseEntry(data, i, post, [], 0) == EntryRead(key, v)
  {
    var front, back := [0x0a] + (Varint(|key|) + key), [0x10] + Varint(v);
    assert Entry(key, v) == front + back;
    hide *;
    var j := Split(data, i, post, front, back);
    ValueBack(data, j, post, key, v);
    KeyBack(data, i, j, post, key);
  }

  lemma MapFieldIs(data: Bytes, i: nat, l: nat, j: nat, length: uint64, key: Bytes, v: uint64, info: Info)
    requires ReadVarint(data, i, 0, 0) == Value(length, l) && ReadLength(data, i) == Skipped(j)
    requires j <= |data| && ParseEntry(data, l, j, [], 0) == EntryRead(key, v)
    ensures ParseMapField(data, i, 2, info) == Moved(info.(txsByLane := info.txsByLane[key := v]), j)
  {
    hide ReadVarint, ReadLength, ParseEntry;
  }

  /** Tag 0x0a is field 1 with a length. */
  lemma FieldIsMap(data: Bytes, i: nat, k: nat, info: Info)
    requires i < |data| && ReadVarint(data, i, 0, 0) == Value(0x0a, k)
    ensures ParseField(data, i, info) == ParseMapField(data, k, 2, info)
  {
    assert AsInt32(0x0a / 8) == 1;
    hide ReadVarint, AsInt32, ParseMapField, SkipUnknown;
  }

  lemma EntryFieldBack(data: Bytes, i: nat, j: nat, key: Bytes, v: uint64, info: Info)
    requires |data| < TWO_TO_63 && |Entry(key, v)| < TWO_TO_63 && Spans(data, i, j, EntryField(key, v))
    ensures ParseFrom(data, i, info) == ParseFrom(data, j, info.(txsByLane := info.txsByLane[key := v]))
  {
    var entry := Entry(key, v);
    assert EntryField(key, v) == [0x0a] + (Varint(|entry|) + entry);
    assert |key| <= |entry|;
    hide *;
    var k := Split(data, i, j, [0x0a], Varint(|entry|) + entry);
    TagBack(data, i, k, 0x0a);
    var l := Split(data, k, j, Varint(|entry|), entry);
    LengthBack(data, k, l, j, entry);
    EntryBack(data, l, j, key, v);
    var info' := info.(txsByLane := info.txsByLane[key := v]);
    MapFieldIs(data, k, l, j, |entry|, key, v, info);
    FieldIsMap(data, i, k, info);
    ParseStep(data, i, info, info', j);
  }

  /** The map after the listed entries have been read into it. */
  function Filled(before: map<Bytes, uint64>, keys: seq<Bytes>, m: map<Bytes, uint64>): map<Bytes, uint64>
    requires forall k :: k in keys ==> k in m
    decreases keys
  {
    if keys == [] then before else Filled(before[keys[0] := m[keys[0]]], keys[1..], m)
  }

  lemma {:induction false} FilledHolds(before: map<Bytes, uint64>, keys: seq<Bytes>, m: map<Bytes, uint64>)
    requires forall k :: k in keys ==> k in m
    ensures forall k :: k in Filled(before, keys, m) <==> k in before || k in keys
    ensures forall k :: k in keys ==> Filled(before, keys, m)[k] == m[k]
    ensures forall k :: k in before && k !in keys ==> Filled(before, keys, m)[k] == before[k]
    decreases keys
  {
    if keys != [] {
      FilledHolds(before[keys[0] := m[keys[0]]], keys[1..], m);
      assert keys == [keys[0]] + keys[1..];
    }
  }

  lemma {:induction false} EntriesBack(data: Bytes, i: nat, j: nat, keys: seq<Bytes>, m: map<Bytes, uint64>, info: Info)
    requires |data| < TWO_TO_63 && forall k :: k in keys ==> k in m
    requires Spans(data, i, j, Entries(keys, m))
    ensures ParseFrom(data, i, info) == ParseFrom(data, j, info.(txsByLane := Filled(info.txsByLane, keys, m)))
    decreases keys
  {
    if keys == [] {
      assert i == j && Filled(info.txsByLane, keys, m) == info.txsByLane;
    } else {
      var key, v := keys[0], m[keys[0]];
      var first, rest := EntryField(key, v), Entries(keys[1..], m);
      assert Entries(keys, m) == first + rest;
      assert |Entry(key, v)| <= |first + rest| == |data[i..j]|;
      var info' := info.(txsByLane := info.txsByLane[key := v]);
      assert Filled(info.txsByLane, keys, m) == Filled(info'.txsByLane, keys[1..], m);
      hide *;
      var k := Split(data, i, j, first, rest);
      EntryFieldBack(data, i, k, key, v, info);
      EntriesBack(data, k, j, keys[1..], m, info');
      assert info'.(txsByLane := Filled(info'.txsByLane, keys[1..], m)) == info.(txsByLane := Filled(info.txsByLane, keys, m));
    }
  }

  /** Reading every entry into an empty map gives the map. */
  lemma FilledIsMap(keys: seq<Bytes>, m: map<Bytes, uint64>)
    requires Lists(keys, m)
    ensures (forall k :: k in keys ==> k in m) && Filled(map[], keys, m) == m
  {
    FilledHolds(map[], keys, m);
  }

  /** The round trip, for every listing of the map's keys and all field values. */
  lemma RoundTrip(info: Info, keys: seq<Bytes>)
    requires Lists(keys, info.txsByLane) && |Print(info, keys)| < TWO_TO_63
    ensures ParseFrom(Print(info, keys), 0, EMPTY) == Parsed(info)
  {
    var m, data := info.txsByLane, Print(info, keys);
    FilledIsMap(keys, m);
    var entries, scalars := Entries(keys, m), Scalars(info);
    assert data[0..|data|] == data == entries + scalars;
    assert Spans(data, 0, |data|, entries + scalars);
    assert EMPTY.(txsByLane := Filled(EMPTY.txsByLane, keys, m)) == EMPTY.(txsByLane := m);
    hide *;
    var j := Split(data, 0, |data|, entries, scalars);
    EntriesBack(data, 0, j, keys, m, EMPTY);
    ScalarsBack(data, j, info);
  }
}
