/** ProposalInfo and its bytes, for any order in which the map's entries are written. */
module WireFormat {
  import opened Types
  import opened Varints

  /** A ProposalInfo message. Go's strings are byte strings. */
  datatype Info = Info(
    txsByLane: map<Bytes, uint64>,
    maxBlockSize: int64,
    maxGasLimit: uint64,
    blockSize: int64,
    gasLimit: uint64)

  const EMPTY := Info(map[], 0, 0, 0, 0)

  /** A scalar field: tag and varint, nothing for zero. */
  function Field(tag: Byte, v: uint64): Bytes {
    if v == 0 then [] else [tag] + Varint(v)
  }

  /** A map entry: key and value, always both. */
  function Entry(key: Bytes, v: uint64): Bytes {
    [0x0a] + (Varint(|key|) + (key + ([0x10] + Varint(v))))
  }

  function EntryField(key: Bytes, v: uint64): Bytes {
    [0x0a] + (Varint(|Entry(key, v)|) + Entry(key, v))
  }

  /** The entries of the listed keys, in this order. */
  function Entries(keys: seq<Bytes>, m: map<Bytes, uint64>): Bytes
    requires forall k :: k in keys ==> k in m
  {
    if keys == [] then [] else EntryField(keys[0], m[keys[0]]) + Entries(keys[1..], m)
  }

  /** `uint64(x)` of an int64: negative numbers become large ones. */
  function AsUint64(x: int64): uint64 {
    WrapUint64(x)
  }

  function Scalars(info: Info): Bytes {
    Field(0x10, AsUint64(info.maxBlockSize)) + (Field(0x18, info.maxGasLimit)
    + (Field(0x20, AsUint64(info.blockSize)) + Field(0x28, info.gasLimit)))
  }

  /** Each key of the map, once. */
  ghost predicate Lists(keys: seq<Bytes>, m: map<Bytes, uint64>) {
    && (forall k :: k in keys <==> k in m)
    && (forall i, j :: 0 <= i < j < |keys| ==> keys[i] != keys[j])
  }

  /** The message, with the map's entries in this order. */
  function Print(info: Info, keys: seq<Bytes>): Bytes
    requires forall k :: k in keys ==> k in info.txsByLane
  {
    Entries(keys, info.txsByLane) + Scalars(info)
  }

  // ----- the order of the entries does not change the size ------------------------------------

  /** The bytes the entries of these keys take, whatever their order. */
  ghost function SizeOver(keys: set<Bytes>, m: map<Bytes, uint64>): nat
    requires keys <= m.Keys
  {
    if keys == {} then 0
    else
      var k :| k in keys;
      |EntryField(k, m[k])| + SizeOver(keys - {k}, m)
  }

  lemma {:induction false} SizeWithout(keys: set<Bytes>, m: map<Bytes, uint64>, x: Bytes)
    requires keys <= m.Keys && x in keys
    ensures SizeOver(keys, m) == |EntryField(x, m[x])| + SizeOver(keys - {x}, m)
  {
    var k :| k in keys && SizeOver(keys, m) == |EntryField(k, m[k])| + SizeOver(keys - {k}, m);
    if k != x {
      SizeWithout(keys - {k}, m, x);
      SizeWithout(keys - {x}, m, k);
      assert keys - {k} - {x} == keys - {x} - {k};
    }
  }

  function KeySet(keys: seq<Bytes>): set<Bytes> {
    set k | k in keys
  }

  /** Any listing of the same keys prints to the same number of bytes. */
  lemma {:induction false} EntriesLength(keys: seq<Bytes>, m: map<Bytes, uint64>)
    requires forall k :: k in keys ==> k in m
    requires forall i, j :: 0 <= i < j < |keys| ==> keys[i] != keys[j]
    ensures |Entries(keys, m)| == SizeOver(KeySet(keys), m)
  {
    if keys != [] {
      EntriesLength(keys[1..], m);
      assert keys == [keys[0]] + keys[1..];
      assert keys[0] !in keys[1..];
      assert KeySet(keys) - {keys[0]} == KeySet(keys[1..]);
      SizeWithout(KeySet(keys), m, keys[0]);
    }
  }
}
