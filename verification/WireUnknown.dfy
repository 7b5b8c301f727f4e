/** Fields the message does not know: whatever their wire type, and groups nested to any depth, the parser
    passes over them. */
module WireUnknown {
  import opened Types
  import opened Varints
  import opened WireFormat
  import opened WireParse
  import opened WireRoundTrip

  const MAX_FIELD := 0x2000_0000

  /** A field of any number, by its wire type. */
  datatype Unknown =
    | VarintField(n: nat, v: uint64)
    | Fixed64(n: nat, bytes: Bytes)
    | Delimited(n: nat, bytes: Bytes)
    | Fixed32(n: nat, bytes: Bytes)
    | Group(n: nat, fields: seq<Unknown>)

  predicate WellFormed(u: Unknown) {
    && u.n < MAX_FIELD
    && match u
       case VarintField(_, _) => true
       case Fixed64(_, b) => |b| == 8
       case Delimited(_, b) => |b| < TWO_TO_63
       case Fixed32(_, b) => |b| == 4
       case Group(_, fields) => forall k :: 0 <= k < |fields| ==> WellFormed(fields[k])
  }

  function Tag(n: nat, wireType: nat): Bytes
    requires n < MAX_FIELD && wireType < 8
  {
    Varint(8 * n + wireType)
  }

  function FieldBytes(u: Unknown): Bytes
    requires WellFormed(u)
    decreases u, 0
  {
    match u
    case VarintField(n, v) => Tag(n, 0) + Varint(v)
    case Fixed64(n, b) => Tag(n, 1) + b
    case Delimited(n, b) => Tag(n, 2) + (Varint(|b|) + b)
    case Fixed32(n, b) => Tag(n, 5) + b
    case Group(n, fields) => Tag(n, 3) + (FieldsBytes(u, 0) + Tag(n, 4))
  }

  /** The fields of a group from position `k` on. */
  function FieldsBytes(group: Unknown, k: nat): Bytes
    requires group.Group? && WellFormed(group) && k <= |group.fields|
    decreases group, 0, |group.fields| - k
  {
    if k == |group.fields| then []
    else
      assert WellFormed(group.fields[k]);
      FieldBytes(group.fields[k]) + FieldsBytes(group, k + 1)
  }

  // ----- passing over one field ------------------------------------------------------------------

  /** A varint is passed over as it is read. */
  lemma {:induction false} SkipsLikeRead(data: Bytes, i: nat, shift: nat, acc: uint64)
    requires ReadVarint(data, i, shift, acc).Value?
    ensures SkipBytes(data, i, shift) == Skipped(ReadVarint(data, i, shift, acc).next)
    decreases 64 - shift
  {
    if data[i] >= 128 { SkipsLikeRead(data, i + 1, shift + 7, OrUint64(acc, Shifted(data[i], shift))); }
  }

  lemma TagReads(data: Bytes, i: nat, j: nat, n: nat, wireType: nat)
    requires n < MAX_FIELD && wireType < 8 && Spans(data, i, j, Tag(n, wireType))
    ensures i < j <= |data| && ReadVarint(data, i, 0, 0) == Value(8 * n + wireType, j)
    ensures (8 * n + wireType) % 8 == wireType && (8 * n + wireType) / 8 == n && AsInt32(n) == n
  {
    TagParts(n, wireType);
    hide *;
    VarintBack(data, i, j, 8 * n + wireType);
  }

  lemma TagParts(n: nat, wireType: nat)
    requires n < MAX_FIELD && wireType < 8
    ensures (8 * n + wireType) % 8 == wireType && (8 * n + wireType) / 8 == n && AsInt32(n) == n
    ensures Tag(n, wireType) == Varint(8 * n + wireType)
  {
    hide Varint;
  }

  /** One step of skipTypes, once tag and value are known. */
  lemma SkipStep(data: Bytes, start: nat, i: nat, depth: nat, k: nat, wire: uint64, j: nat)
    requires start <= i < |data| < TWO_TO_63 && ReadVarint(data, i, 0, 0) == Value(wire, k)
    requires SkipValue(data, k, wire % 8, depth) == Skipped(j) && j <= |data|
    ensures start <= j
    ensures SkipField(data, start, i, depth)
         == if NewDepth(depth, wire % 8) == 0 then Skipped(j) else SkipField(data, start, j, NewDepth(depth, wire % 8))
  {
    hide ReadVarint, SkipValue;
  }

  /** What follows the tag of a field that is not a group. */
  lemma ValueSkips(data: Bytes, k: nat, j: nat, u: Unknown, depth: nat)
    requires WellFormed(u) && !u.Group? && |data| < TWO_TO_63
    requires match u
             case VarintField(_, v) => Spans(data, k, j, Varint(v))
             case Fixed64(_, b) => Spans(data, k, j, b)
             case Delimited(_, b) => Spans(data, k, j, Varint(|b|) + b)
             case Fixed32(_, b) => Spans(data, k, j, b)
             case Group(_, _) => true
    ensures j <= |data| && SkipValue(data, k, WireTypeOf(u), depth) == Skipped(j)
  {
    match u
    case VarintField(_, v) =>
      VarintBack(data, k, j, v);
      SkipsLikeRead(data, k, 0, 0);
    case Fixed64(_, b) =>
    case Delimited(_, b) =>
      var l := Split(data, k, j, Varint(|b|), b);
      VarintBack(data, k, l, |b|);
    case Fixed32(_, b) =>
  }

  function WireTypeOf(u: Unknown): (r: nat)
    ensures r < 8
  {
    match u case VarintField(_, _) => 0 case Fixed64(_, _) => 1 case Delimited(_, _) => 2 case Fixed32(_, _) => 5 case Group(_, _) => 3
  }

  function ValueBytes(u: Unknown): Bytes
    requires WellFormed(u) && !u.Group?
  {
    match u
    case VarintField(_, v) => Varint(v)
    case Fixed64(_, b) => b
    case Delimited(_, b) => Varint(|b|) + b
    case Fixed32(_, b) => b
    case Group(_, _) => []
  }

  /** skipTypes passes over a well-formed field: at the outside it stops behind it, inside a group it
      goes on behind it. */
  lemma {:induction false} SkipsField(data: Bytes, start: nat, i: nat, j: nat, u: Unknown, depth: nat)
    requires WellFormed(u) && start <= i && |data| < TWO_TO_63 && Spans(data, i, j, FieldBytes(u))
    ensures i < j <= |data|
    ensures SkipField(data, start, i, depth) == if depth == 0 then Skipped(j) else SkipField(data, start, j, depth)
    decreases u, 0
  {
    hide *;
    BytesOfField(u);
    if u.Group? {
      var fields := FieldsBytes(u, 0);
      var k := Split(data, i, j, Tag(u.n, 3), fields + Tag(u.n, 4));
      var l := Split(data, k, j, fields, Tag(u.n, 4));
      OpensGroup(data, start, i, k, u.n, depth);
      SkipsFields(data, start, k, l, u, 0, depth + 1);
      ClosesGroup(data, start, l, j, u.n, depth);
    } else {
      var k := Split(data, i, j, Tag(u.n, WireTypeOf(u)), ValueBytes(u));
      TagReads(data, i, k, u.n, WireTypeOf(u));
      PlainSkips(data, start, i, k, j, u, depth);
    }
  }

  lemma BytesOfField(u: Unknown)
    requires WellFormed(u)
    ensures u.n < MAX_FIELD
    ensures FieldBytes(u) == if u.Group? then Tag(u.n, 3) + (FieldsBytes(u, 0) + Tag(u.n, 4)) else Tag(u.n, WireTypeOf(u)) + ValueBytes(u)
  {
    hide Tag, FieldsBytes, Varint;
  }

  lemma PlainSkips(data: Bytes, start: nat, i: nat, k: nat, j: nat, u: Unknown, depth: nat)
    requires WellFormed(u) && !u.Group? && start <= i < k && |data| < TWO_TO_63 && i < |data|
    requires ReadVarint(data, i, 0, 0) == Value(8 * u.n + WireTypeOf(u), k) && Spans(data, k, j, ValueBytes(u))
    ensures i < j <= |data|
    ensures SkipField(data, start, i, depth) == if depth == 0 then Skipped(j) else SkipField(data, start, j, depth)
  {
    ValueSkips(data, k, j, u, depth);
    TagParts(u.n, WireTypeOf(u));
    assert k <= j;
    hide SkipField, SkipValue, ReadVarint, Tag, Varint, Spans, WellFormed;
    SkipStep(data, start, i, depth, k, 8 * u.n + WireTypeOf(u), j);
  }

  lemma OpensGroup(data: Bytes, start: nat, i: nat, k: nat, n: nat, depth: nat)
    requires n < MAX_FIELD && start <= i && |data| < TWO_TO_63 && Spans(data, i, k, Tag(n, 3))
    ensures i < k <= |data| && SkipField(data, start, i, depth) == SkipField(data, start, k, depth + 1)
  {
    TagReads(data, i, k, n, 3);
    hide SkipField, ReadVarint, Tag, Varint, Spans, AsInt32;
    SkipStep(data, start, i, depth, k, 8 * n + 3, k);
  }

  lemma ClosesGroup(data: Bytes, start: nat, l: nat, j: nat, n: nat, depth: nat)
    requires n < MAX_FIELD && start <= l && |data| < TWO_TO_63 && Spans(data, l, j, Tag(n, 4))
    ensures l < j <= |data|
    ensures SkipField(data, start, l, depth + 1) == if depth == 0 then Skipped(j) else SkipField(data, start, j, depth)
  {
    TagReads(data, l, j, n, 4);
    hide SkipField, ReadVarint, Tag, Varint, Spans, AsInt32;
    SkipStep(data, start, l, depth + 1, j, 8 * n + 4, j);
  }

  lemma {:induction false} SkipsFields(data: Bytes, start: nat, i: nat, j: nat, group: Unknown, at: nat, depth: nat)
    requires group.Group? && WellFormed(group) && at <= |group.fields| && depth > 0
    requires start <= i && |data| < TWO_TO_63 && Spans(data, i, j, FieldsBytes(group, at))
    ensures i <= j <= |data| && SkipField(data, start, i, depth) == SkipField(data, start, j, depth)
    decreases group, 0, |group.fields| - at
  {
    if at == |group.fields| {
      assert i == j;
    } else {
      var u := group.fields[at];
      assert WellFormed(u);
      assert FieldsBytes(group, at) == FieldBytes(u) + FieldsBytes(group, at + 1);
      hide FieldBytes, FieldsBytes, SkipField, Spans;
      var k := Split(data, i, j, FieldBytes(u), FieldsBytes(group, at + 1));
      SkipsField(data, start, i, k, u, depth);
      SkipsFields(data, start, k, j, group, at + 1, depth);
    }
  }

  /** A field the message does not know moves the parser past it and changes nothing. */
  lemma UnknownIsPassedOver(data: Bytes, i: nat, j: nat, u: Unknown, info: Info)
    requires WellFormed(u) && u.n > 5 && |data| < TWO_TO_63 && Spans(data, i, j, FieldBytes(u))
    ensures i < |data| && ParseField(data, i, info) == Moved(info, j)
  {
    hide FieldBytes, Tag, SkipField, ReadVarint, AsInt32, ParseMapField, Spans, WellFormed, SkipUnknown;
    SkipsField(data, i, i, j, u, 0);
    var k := UnknownTag(data, i, j, u);
    UnknownEnds(data, i, j);
  }

  lemma UnknownEnds(data: Bytes, i: nat, j: nat)
    requires i < |data| < TWO_TO_63 && SkipField(data, i, i, 0) == Skipped(j) && j <= |data|
    ensures SkipUnknown(data, i, |data|) == Skipped(j)
  {
    hide SkipField;
  }

  lemma UnknownTag(data: Bytes, i: nat, j: nat, u: Unknown) returns (k: nat)
    requires WellFormed(u) && Spans(data, i, j, FieldBytes(u))
    ensures ReadVarint(data, i, 0, 0) == Value(8 * u.n + WireTypeOf(u), k)
    ensures (8 * u.n + WireTypeOf(u)) % 8 == WireTypeOf(u) != 4 && AsInt32((8 * u.n + WireTypeOf(u)) / 8) == u.n
  {
    var rest := if u.Group? then FieldsBytes(u, 0) + Tag(u.n, 4) else ValueBytes(u);
    assert FieldBytes(u) == Tag(u.n, WireTypeOf(u)) + rest;
    hide FieldBytes, FieldsBytes, Tag;
    k := Split(data, i, j, Tag(u.n, WireTypeOf(u)), rest);
    TagReads(data, i, k, u.n, WireTypeOf(u));
  }

  /** Which tags the parser refuses, and with what error: the end of a group that was not begun, field
      numbers that are not positive, and known fields of the wrong wire type. */
  lemma RefusedTags(data: Bytes, i: nat, k: nat, n: nat, wireType: nat, info: Info)
    requires n < MAX_FIELD && wireType < 8 && Spans(data, i, k, Tag(n, wireType))
    ensures i < |data|
    ensures wireType == 4 ==> ParseField(data, i, info) == StepFailed(EndGroup, info)
    ensures wireType != 4 && n == 0 ==> ParseField(data, i, info) == StepFailed(IllegalTag, info)
    ensures wireType != 4 && ((n == 1 && wireType != 2) || (2 <= n <= 5 && wireType != 0)) ==>
              ParseField(data, i, info) == StepFailed(WrongWireType, info)
  {
    TagReads(data, i, k, n, wireType);
    hide Tag, ReadVarint, AsInt32, Spans, SkipUnknown, ReadLength, ParseEntry;
  }

  // ----- whole messages ---------------------------------------------------------------------------

  /** A field of a message: a map entry, a scalar, or one it does not know. */
  datatype Piece = EntryPiece(key: Bytes, value: uint64) | ScalarPiece(fieldNum: nat, v: uint64) | UnknownPiece(field: Unknown)

  predicate WellFormedPiece(p: Piece) {
    match p
    case EntryPiece(key, v) => |Entry(key, v)| < TWO_TO_63
    case ScalarPiece(fieldNum, _) => 2 <= fieldNum <= 5
    case UnknownPiece(u) => WellFormed(u) && u.n > 5
  }

  function PieceBytes(p: Piece): Bytes
    requires WellFormedPiece(p)
  {
    match p
    case EntryPiece(key, v) => EntryField(key, v)
    case ScalarPiece(fieldNum, v) => [8 * fieldNum] + Varint(v)
    case UnknownPiece(u) => FieldBytes(u)
  }

  predicate WellFormedMessage(pieces: seq<Piece>) {
    forall i :: 0 <= i < |pieces| ==> WellFormedPiece(pieces[i])
  }

  function MessageBytes(pieces: seq<Piece>): Bytes
    requires WellFormedMessage(pieces)
  {
    if pieces == [] then [] else PieceBytes(pieces[0]) + MessageBytes(pieces[1..])
  }

  /** What one field does to the message. */
  function Applied(p: Piece, info: Info): Info {
    match p
    case EntryPiece(key, v) => info.(txsByLane := info.txsByLane[key := v])
    case ScalarPiece(fieldNum, v) => WithScalar(info, fieldNum, v)
    case UnknownPiece(_) => info
  }

  /** What a message says: later fields win, and those it does not know say nothing. */
  function Meaning(pieces: seq<Piece>, info: Info): Info
    decreases |pieces|
  {
    if pieces == [] then info else Meaning(pieces[1..], Applied(pieces[0], info))
  }

  lemma PieceBack(data: Bytes, i: nat, j: nat, p: Piece, info: Info)
    requires WellFormedPiece(p) && |data| < TWO_TO_63 && Spans(data, i, j, PieceBytes(p))
    ensures ParseFrom(data, i, info) == ParseFrom(data, j, Applied(p, info))
  {
    match p
    case EntryPiece(key, v) =>
      hide ParseFrom, EntryField;
      EntryFieldBack(data, i, j, key, v, info);
    case ScalarPiece(fieldNum, v) =>
      PlainScalarBack(data, i, j, fieldNum, v, info);
      hide *;
      ParseStep(data, i, info, WithScalar(info, fieldNum, v), j);
    case UnknownPiece(u) =>
      UnknownIsPassedOver(data, i, j, u, info);
      hide *;
      ParseStep(data, i, info, info, j);
  }

  /** A scalar field, also one that says zero. */
  lemma PlainScalarBack(data: Bytes, i: nat, j: nat, fieldNum: nat, v: uint64, info: Info)
    requires 2 <= fieldNum <= 5 && Spans(data, i, j, [8 * fieldNum] + Varint(v))
    ensures i < |data| && ParseField(data, i, info) == Moved(WithScalar(info, fieldNum, v), j)
  {
    var tag := 8 * fieldNum;
    assert AsInt32(tag / 8) == fieldNum && tag % 8 == 0;
    hide ReadVarint, Varint, AsInt32, WithScalar, Spans, ParseMapField, SkipUnknown;
    var k := Split(data, i, j, [tag], Varint(v));
    TagBack(data, i, k, tag);
    VarintBack(data, k, j, v);
  }

  lemma {:induction false} PiecesBack(data: Bytes, i: nat, pieces: seq<Piece>, info: Info)
    requires WellFormedMessage(pieces) && |data| < TWO_TO_63 && Spans(data, i, |data|, MessageBytes(pieces))
    ensures ParseFrom(data, i, info) == Parsed(Meaning(pieces, info))
    decreases |pieces|
  {
    if pieces == [] {
      assert i == |data|;
      ParseEnd(data, info);
    } else {
      var first, rest := PieceBytes(pieces[0]), MessageBytes(pieces[1..]);
      assert MessageBytes(pieces) == first + rest;
      hide PieceBytes, MessageBytes, ParseFrom, Spans, WellFormedPiece, Applied;
      var k := Split(data, i, |data|, first, rest);
      PieceBack(data, i, k, pieces[0], info);
      PiecesBack(data, k, pieces[1..], Applied(pieces[0], info));
    }
  }

  /** Every message made of map entries, scalars and unknown fields, in any order and with repetitions,
      parses to what it says. */
  lemma MessageParses(pieces: seq<Piece>, info: Info)
    requires WellFormedMessage(pieces) && |MessageBytes(pieces)| < TWO_TO_63
    ensures ParseFrom(MessageBytes(pieces), 0, info) == Parsed(Meaning(pieces, info))
  {
    var data := MessageBytes(pieces);
    assert data[0..|data|] == data;
    hide ParseFrom, MessageBytes;
    PiecesBack(data, 0, pieces, info);
  }

  /** The message without its unknown fields. */
  function Known(pieces: seq<Piece>): seq<Piece> {
    if pieces == [] then [] else (if pieces[0].UnknownPiece? then [] else [pieces[0]]) + Known(pieces[1..])
  }

  lemma {:induction false} KnownMeansTheSame(pieces: seq<Piece>, info: Info)
    requires WellFormedMessage(pieces)
    ensures WellFormedMessage(Known(pieces)) && Meaning(Known(pieces), info) == Meaning(pieces, info)
    ensures |MessageBytes(Known(pieces))| <= |MessageBytes(pieces)|
    decreases |pieces|
  {
    if pieces != [] {
      assert WellFormedPiece(pieces[0]);
      hide PieceBytes, WellFormedPiece;
      KnownMeansTheSame(pieces[1..], Applied(pieces[0], info));
      var known := Known(pieces[1..]);
      if pieces[0].UnknownPiece? {
        assert [] + known == known;
      } else {
        assert Known(pieces) == [pieces[0]] + known;
        assert ([pieces[0]] + known)[1..] == known;
      }
    }
  }

  /** Unknown fields of every wire type, anywhere in a message, make no difference. */
  lemma UnknownFieldsAreIgnored(pieces: seq<Piece>, info: Info)
    requires WellFormedMessage(pieces) && |MessageBytes(pieces)| < TWO_TO_63
    ensures WellFormedMessage(Known(pieces))
    ensures ParseFrom(MessageBytes(pieces), 0, info) == ParseFrom(MessageBytes(Known(pieces)), 0, info)
  {
    KnownMeansTheSame(pieces, info);
    hide ParseFrom, MessageBytes, Meaning;
    MessageParses(pieces, info);
    MessageParses(Known(pieces), info);
  }
}
