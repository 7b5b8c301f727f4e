/** Values shared by every part of the model: fixed-width integers, transactions and
    the facts the lanes read from them. */
module Types {

  datatype Option<+T> = None | Some(value: T)

  const TWO_TO_63: int := 0x8000_0000_0000_0000
  const TWO_TO_64: int := 0x1_0000_0000_0000_0000

  type uint64 = x: int | 0 <= x < TWO_TO_64
  type int64 = x: int | -TWO_TO_63 <= x < TWO_TO_63

  /** Unsigned 64-bit wrap-around. */
  function WrapUint64(x: int): (r: uint64)
    ensures 0 <= x < TWO_TO_64 ==> r == x
  {
    x % TWO_TO_64
  }

  /** Two's complement 64-bit wrap-around. */
  function WrapInt64(x: int): (r: int64)
    ensures -TWO_TO_63 <= x < TWO_TO_63 ==> r == x
  {
    (x + TWO_TO_63) % TWO_TO_64 - TWO_TO_63
  }

  type Byte = b: int | 0 <= b < 256
  type Bytes = seq<Byte>

  /** One entry of what the signer extraction adapter returns. */
  datatype SignerData = SignerData(signer: string, sequence: uint64)

  /** The part of an auction bid the lanes read: the raw bundled transactions. */
  datatype BidInfo = BidInfo(transactions: seq<Bytes>)

  /** A transaction, seen through the questions the lanes ask about it. `None` is an error from
      the encoder, the signer extractor, the fee interface and the bid factory respectively;
      `bid == Some(None)` is a transaction without a bid message. */
  datatype Tx = Tx(
    bytes: Option<Bytes>,
    signers: Option<seq<SignerData>>,
    gas: Option<uint64>,
    bid: Option<Option<BidInfo>>)

  /** Hashing and decoding, which the model leaves uninterpreted. */
  datatype Codec = Codec(hash: Bytes -> string, decode: Bytes -> Option<Tx>)

  /** Decoding the encoding of this transaction gives the transaction back. */
  ghost predicate RoundTrips(codec: Codec, tx: Tx) {
    tx.bytes.Some? ==> codec.decode(tx.bytes.value) == Some(tx)
  }

  /** The decoder undoes the encoder on every transaction the decoder ever produced. */
  ghost predicate DecoderUndoesEncoder(codec: Codec) {
    forall raw: Bytes :: codec.decode(raw).Some? ==> RoundTrips(codec, codec.decode(raw).value)
  }

  datatype TxWithInfo = TxWithInfo(hash: string, size: nat, gasLimit: uint64, txBytes: Bytes)

  /** BaseLane.GetTxInfo: fails when the tx cannot be encoded, carries no gas or has no
      readable signers. The length of a byte slice always fits an int64. */
  function GetTxInfo(codec: Codec, tx: Tx): (r: Option<TxWithInfo>)
    ensures r.None? <==> tx.bytes.None? || tx.gas.None? || tx.signers.None?
    ensures r.Some? ==> tx.bytes == Some(r.value.txBytes) && r.value.size == |r.value.txBytes|
                        && r.value.hash == codec.hash(r.value.txBytes) && tx.gas == Some(r.value.gasLimit)
  {
    if tx.bytes.None? || tx.gas.None? || tx.signers.None? then None
    else Some(TxWithInfo(codec.hash(tx.bytes.value), |tx.bytes.value|, tx.gas.value, tx.bytes.value))
  }
}
