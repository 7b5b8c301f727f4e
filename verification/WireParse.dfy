/** Parsing ProposalInfo: every branch of the generated parser. */
module WireParse {
  import opened Types
  import opened Varints
  import opened WireFormat

  /** `int32(x)` of a uint64. */
  function AsInt32(x: uint64): int {
    (x + 0x8000_0000) % 0x1_0000_0000 - 0x8000_0000
  }

  // ----- skipTypes ------------------------------------------------------------------------------

  datatype Skip = Skipped(next: nat) | SkipFailed(error: WireError)

  /** The position after one field of any type, groups included; it may lie past the end. */
  function SkipField(data: Bytes, start: nat, i: nat, depth: nat): Skip
    requires start <= i
    decreases |data| - i
  {
    if i >= |data| then SkipFailed(UnexpectedEof)
    else match ReadVarint(data, i, 0, 0)
      case ReadFailed(e, _) => SkipFailed(e)
      case Value(wire, next) =>
        match SkipValue(data, next, wire % 8, depth)
        case SkipFailed(e) => SkipFailed(e)
        case Skipped(after) =>
          if WrapInt64(after - start) < 0 then SkipFailed(InvalidLength)
          else if NewDepth(depth, wire % 8) == 0 then Skipped(after)
          else SkipField(data, start, after, NewDepth(depth, wire % 8))
  }

  function NewDepth(depth: nat, wireType: nat): nat {
    if wireType == 3 then depth + 1 else if wireType == 4 && depth > 0 then depth - 1 else depth
  }

  /** What follows a tag of this wire type. */
  function SkipValue(data: Bytes, i: nat, wireType: nat, depth: nat): (r: Skip)
    ensures r.Skipped? ==> i <= r.next
  {
    if wireType == 0 then SkipBytes(data, i, 0)
    else if wireType == 1 then Skipped(i + 8)
    else if wireType == 2 then
      match ReadVarint(data, i, 0, 0)
      case ReadFailed(e, _) => SkipFailed(e)
      case Value(length, next) => if WrapInt64(length) < 0 then SkipFailed(InvalidLength) else Skipped(next + length)
    else if wireType == 3 then Skipped(i)
    else if wireType == 4 then if depth == 0 then SkipFailed(UnexpectedEndOfGroup) else Skipped(i)
    else if wireType == 5 then Skipped(i + 4)
    else SkipFailed(IllegalWireType)
  }

  /** A varint whose value does not matter. */
  function SkipBytes(data: Bytes, i: nat, shift: nat): (r: Skip)
    ensures r.Skipped? ==> i < r.next <= |data|
    decreases 64 - shift
  {
    if shift >= 64 then SkipFailed(IntOverflow)
    else if i >= |data| then SkipFailed(UnexpectedEof)
    else if data[i] < 128 then Skipped(i + 1)
    else SkipBytes(data, i + 1, shift + 7)
  }

  // ----- Unmarshal ------------------------------------------------------------------------------

  datatype EntryRead = EntryRead(key: Bytes, value: uint64) | EntryFailed(error: WireError)

  /** The fields of a map entry up to `post`. A repeated key replaces the first, while the bits of
      a repeated value are or-ed together. */
  function ParseEntry(data: Bytes, i: nat, post: nat, key: Bytes, value: uint64): EntryRead
    requires post <= |data|
    decreases |data| - i
  {
    if i >= post then EntryRead(key, value)
    else match ReadVarint(data, i, 0, 0)
      case ReadFailed(e, _) => EntryFailed(e)
      case Value(wire, next) =>
        if AsInt32(wire / 8) == 1 then
          match ReadLength(data, next)
          case SkipFailed(e) => EntryFailed(e)
          case Skipped(end) => ParseEntry(data, end, post, data[StringStart(data, next)..end], value)
        else if AsInt32(wire / 8) == 2 then
          match ReadVarint(data, next, 0, value)
          case ReadFailed(e, _) => EntryFailed(e)
          case Value(v, after) => ParseEntry(data, after, post, key, v)
        else
          match SkipUnknown(data, i, post)
          case SkipFailed(e) => EntryFailed(e)
          case Skipped(after) => ParseEntry(data, after, post, key, value)
  }

  /** A length and the end of what it announces, checked as the parser does in 64-bit integers. */
  function ReadLength(data: Bytes, i: nat): (r: Skip)
    ensures r.Skipped? ==> ReadVarint(data, i, 0, 0).Value? && ReadVarint(data, i, 0, 0).next <= r.next <= |data|
  {
    match ReadVarint(data, i, 0, 0)
    case ReadFailed(e, _) => SkipFailed(e)
    case Value(length, next) =>
      if WrapInt64(length) < 0 || WrapInt64(next + WrapInt64(length)) < 0 then SkipFailed(InvalidLength)
      else if next + WrapInt64(length) > |data| then SkipFailed(UnexpectedEof)
      else Skipped(next + WrapInt64(length))
  }

  function StringStart(data: Bytes, i: nat): nat
    requires ReadVarint(data, i, 0, 0).Value?
  {
    ReadVarint(data, i, 0, 0).next
  }

  /** An unknown field is skipped, if it ends in time. */
  function SkipUnknown(data: Bytes, i: nat, limit: nat): (r: Skip)
    requires i < |data|
    ensures r.Skipped? ==> i < r.next <= limit
  {
    SkipMoves(data, i, i, 0);
    match SkipField(data, i, i, 0)
    case SkipFailed(e) => SkipFailed(e)
    case Skipped(after) =>
      if WrapInt64(after) < 0 then SkipFailed(InvalidLength)
      else if after > limit then SkipFailed(UnexpectedEof)
      else Skipped(after)
  }

  lemma {:induction false} SkipMoves(data: Bytes, start: nat, i: nat, depth: nat)
    requires start <= i
    ensures SkipField(data, start, i, depth).Skipped? ==> i < SkipField(data, start, i, depth).next
    decreases |data| - i
  {
    if i < |data| && ReadVarint(data, i, 0, 0).Value? {
      var r := ReadVarint(data, i, 0, 0);
      var s := SkipValue(data, r.next, r.value % 8, depth);
      if s.Skipped? { SkipMoves(data, start, s.next, NewDepth(depth, r.value % 8)); }
    }
  }

  /** One field read, or the first error with the message as the parser leaves it. */
  datatype Step = Moved(info: Info, next: nat) | StepFailed(error: WireError, info: Info)

  function ParseMapField(data: Bytes, i: nat, wireType: nat, info: Info): (r: Step)
    ensures r.Moved? ==> i < r.next <= |data|
  {
    if wireType != 2 then StepFailed(WrongWireType, info)
    else match ReadLength(data, i)
      case SkipFailed(e) => StepFailed(e, info)
      case Skipped(post) =>
        match ParseEntry(data, StringStart(data, i), post, [], 0)
        case EntryFailed(e) => StepFailed(e, info)
        case EntryRead(key, value) => Moved(info.(txsByLane := info.txsByLane[key := value]), post)
  }

  /** A scalar overwrites the field; signed fields take the same 64 bits. */
  function WithScalar(info: Info, fieldNum: int, v: uint64): Info {
    if fieldNum == 2 then info.(maxBlockSize := WrapInt64(v))
    else if fieldNum == 3 then info.(maxGasLimit := v)
    else if fieldNum == 4 then info.(blockSize := WrapInt64(v))
    else info.(gasLimit := v)
  }

  /** One field of the message. A scalar that ends too soon leaves the bits read so far in its field. */
  function ParseField(data: Bytes, i: nat, info: Info): (r: Step)
    requires i < |data|
    ensures r.Moved? ==> i < r.next <= |data|
  {
    match ReadVarint(data, i, 0, 0)
    case ReadFailed(e, _) => StepFailed(e, info)
    case Value(wire, next) =>
      var fieldNum, wireType := AsInt32(wire / 8), wire % 8;
      if wireType == 4 then StepFailed(EndGroup, info)
      else if fieldNum <= 0 then StepFailed(IllegalTag, info)
      else if fieldNum == 1 then ParseMapField(data, next, wireType, info)
      else if fieldNum <= 5 then
        if wireType != 0 then StepFailed(WrongWireType, info)
        else match ReadVarint(data, next, 0, 0)
          case ReadFailed(e, partial) => StepFailed(e, WithScalar(info, fieldNum, partial))
          case Value(v, after) => Moved(WithScalar(info, fieldNum, v), after)
      else match SkipUnknown(data, i, |data|)
        case SkipFailed(e) => StepFailed(e, info)
        case Skipped(after) => Moved(info, after)
  }

  datatype Parsed = Parsed(info: Info) | ParseFailed(error: WireError, info: Info)

  function ParseFrom(data: Bytes, i: nat, info: Info): Parsed
    decreases |data| - i
  {
    if i >= |data| then Parsed(info)
    else match ParseField(data, i, info)
      case StepFailed(e, left) => ParseFailed(e, left)
      case Moved(info', next) => ParseFrom(data, next, info')
  }
}
