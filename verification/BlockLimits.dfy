/** What the proposal accounting says of whole blocks: every block a chain builds or accepts is a
    sequence of UpdateProposal calls on a new proposal, so its counts and totals are the true ones. */
module BlockLimits {
  import opened Types
  import opened Proposals
  import opened LaneModel
  import opened Chain

  ghost predicate NoCustomLanes(lanes: seq<Lane>) {
    forall i :: 0 <= i < |lanes| ==> !lanes[i].cfg.handlers.CustomHandlers?
  }

  /** One more call, whether or not it contributes anything. */
  lemma OneMoreCall(p0: Prop, calls: seq<Call>, c: Call)
    requires Update(AfterCalls(p0, calls), c.lane, c.ratio, c.infos).Some?
    ensures AfterCalls(p0, calls + [c]) == Update(AfterCalls(p0, calls), c.lane, c.ratio, c.infos).value
    ensures AllInfos(Contributions(p0, calls + [c])) == AllInfos(Contributions(p0, calls)) + c.infos
  {
    var parts, calls' := Contributions(p0, calls), calls + [c];
    assert calls'[..|calls'| - 1] == calls;
    if c.infos == [] {
      assert Contributions(p0, calls') == parts + [];
      assert parts + [] == parts && AllInfos(parts) + [] == AllInfos(parts);
    } else {
      assert (parts + [c])[..|parts|] == parts;
    }
  }

  /** The proposal a chain builds is that of some calls, which contribute exactly what it included. */
  lemma {:induction false} BuiltByCalls(lanes: seq<Lane>, st: State, p0: Prop, calls: seq<Call>, codec: Codec) returns (calls': seq<Call>)
    requires SameCodec(lanes, codec)
    ensures var r := PrepareChain(lanes, st, AfterCalls(p0, calls));
            && r.prop == AfterCalls(p0, calls')
            && InfosOf(codec, r.included).Some?
            && AllInfos(Contributions(p0, calls')) == AllInfos(Contributions(p0, calls)) + InfosOf(codec, r.included).value
  {
    var p := AfterCalls(p0, calls);
    if lanes == [] {
      calls' := calls;
      assert AllInfos(Contributions(p0, calls)) + [] == AllInfos(Contributions(p0, calls));
    } else {
      TailCodec(lanes, codec);
      hide SameCodec, Update, InfosOf, Prepare, AfterCalls, Contributions, AllInfos;
      match PrepareLane(lanes[0], st, p)
      case LaneFailed =>
        calls' := BuiltByCalls(lanes[1..], st, p0, calls, codec);
      case Contributed(p', st', included) =>
        var c := Call(lanes[0].cfg.name, lanes[0].cfg.ratio, InfosOf(codec, included).value);
        OneMoreCall(p0, calls, c);
        calls' := BuiltByCalls(lanes[1..], st', p0, calls + [c], codec);
        var rest := PrepareChain(lanes[1..], st', p').included;
        InfosSplit(codec, included, rest);
        Append(AllInfos(Contributions(p0, calls)), c.infos, InfosOf(codec, rest).value);
    }
  }

  lemma Append(a: seq<TxWithInfo>, b: seq<TxWithInfo>, c: seq<TxWithInfo>)
    ensures (a + b) + c == a + (b + c)
  {
  }

  /** So is the proposal a chain of default and MEV lanes accepts. */
  lemma {:induction false} AcceptedByCalls(lanes: seq<Lane>, st: State, p0: Prop, calls: seq<Call>, txs: seq<Tx>, codec: Codec) returns (calls': seq<Call>)
    requires SameCodec(lanes, codec) && NoCustomLanes(lanes)
    requires ProcessChain(lanes, st, AfterCalls(p0, calls), txs).Accepted?
    ensures ProcessChain(lanes, st, AfterCalls(p0, calls), txs).prop == AfterCalls(p0, calls')
    ensures InfosOf(codec, txs).Some?
    ensures AllInfos(Contributions(p0, calls')) == AllInfos(Contributions(p0, calls)) + InfosOf(codec, txs).value
  {
    if lanes == [] {
      calls' := calls;
      assert AllInfos(Contributions(p0, calls)) + [] == AllInfos(Contributions(p0, calls));
    } else {
      TailCodec(lanes, codec);
      assert !lanes[0].cfg.handlers.CustomHandlers? && NoCustomLanes(lanes[1..]);
      hide SameCodec, NoCustomLanes, Update, InfosOf, Process, AfterCalls, Contributions, AllInfos;
      if txs == [] {
        calls' := AcceptedByCalls(lanes[1..], st, p0, calls, txs, codec);
      } else {
        var r := Process(lanes[0], txs, st);
        var c := Call(lanes[0].cfg.name, lanes[0].cfg.ratio, InfosOf(codec, r.fromLane).value);
        SplitsOff(lanes[0], txs, st);
        OneMoreCall(p0, calls, c);
        calls' := AcceptedByCalls(lanes[1..], r.state, p0, calls + [c], r.remaining, codec);
        InfosSplit(codec, r.fromLane, r.remaining);
        Append(AllInfos(Contributions(p0, calls)), c.infos, InfosOf(codec, r.remaining).value);
      }
    }
  }

  /** The proposal accounts for exactly these transactions: their counts by lane add up to their
      number, its totals are theirs as 64-bit integers and within the maxima, and so are the true
      totals when they fit their types. */
  ghost predicate AccountsFor(p: Prop, infos: seq<TxWithInfo>) {
    && p.txs == TxBytesOf(infos) && p.cache == Hashes(infos)
    && SumCounts(p.txsByLane) == |infos|
    && p.blockSize == WrapInt64(TotalSize(infos)) && p.gasLimit == WrapUint64(TotalGas(infos))
    && (infos != [] ==> p.blockSize <= p.maxBlockSize && p.gasLimit <= p.maxGasLimit)
    && (infos != [] && TotalSize(infos) < TWO_TO_63 ==> TotalSize(infos) <= p.maxBlockSize)
    && (infos != [] && TotalGas(infos) < TWO_TO_64 ==> TotalGas(infos) <= p.maxGasLimit)
  }

  lemma PartsAccount(p: Prop, parts: seq<Call>)
    requires Accounts(p, parts) && |p.txs| == SumCounts(p.txsByLane)
    requires parts != [] ==> p.blockSize <= p.maxBlockSize && p.gasLimit <= p.maxGasLimit
    ensures AccountsFor(p, AllInfos(parts))
  {
    assert parts == [] ==> AllInfos(parts) == [];
    hide TotalSize, TotalGas, Hashes, Lanes, DisjointHashes, SumCounts, AllInfos, TxBytesOf;
  }

  lemma CallsAccount(maxBlockSize: int64, maxGasLimit: uint64, calls: seq<Call>)
    ensures var p0 := NewProposal(maxBlockSize, maxGasLimit);
            AccountsFor(AfterCalls(p0, calls), AllInfos(Contributions(p0, calls)))
  {
    hide *;
    var p0 := NewProposal(maxBlockSize, maxGasLimit);
    AnyCallsAccount(maxBlockSize, maxGasLimit, calls);
    WithinMaxima(p0, calls);
    TxsAreCounted(maxBlockSize, maxGasLimit, calls);
    PartsAccount(AfterCalls(p0, calls), Contributions(p0, calls));
  }

  lemma NoCalls(p0: Prop, infos: seq<TxWithInfo>)
    ensures AfterCalls(p0, []) == p0 && AllInfos(Contributions(p0, [])) + infos == infos
  {
    assert [] + infos == infos;
  }

  /** Every block that is built, whatever its lanes do and however they fail. */
  lemma BuiltBlockAccounts(lanes: seq<Lane>, st: State, maxBlockSize: int64, maxGasLimit: uint64, codec: Codec)
    requires SameCodec(lanes, codec)
    ensures var r := PrepareChain(lanes, st, NewProposal(maxBlockSize, maxGasLimit));
            InfosOf(codec, r.included).Some? && AccountsFor(r.prop, InfosOf(codec, r.included).value)
  {
    var p0 := NewProposal(maxBlockSize, maxGasLimit);
    NoCalls(p0, []);
    var calls := BuiltByCalls(lanes, st, p0, [], codec);
    hide *;
    CallsAccount(maxBlockSize, maxGasLimit, calls);
    NoCalls(p0, InfosOf(codec, PrepareChain(lanes, st, p0).included).value);
  }

  /** Every block that is accepted. */
  lemma AcceptedBlockAccounts(lanes: seq<Lane>, st: State, maxBlockSize: int64, maxGasLimit: uint64, txs: seq<Tx>, codec: Codec)
    requires SameCodec(lanes, codec) && NoCustomLanes(lanes)
    requires ProcessChain(lanes, st, NewProposal(maxBlockSize, maxGasLimit), txs).Accepted?
    ensures InfosOf(codec, txs).Some?
    ensures AccountsFor(ProcessChain(lanes, st, NewProposal(maxBlockSize, maxGasLimit), txs).prop, InfosOf(codec, txs).value)
  {
    var p0 := NewProposal(maxBlockSize, maxGasLimit);
    NoCalls(p0, []);
    var calls := AcceptedByCalls(lanes, st, p0, [], txs, codec);
    hide *;
    CallsAccount(maxBlockSize, maxGasLimit, calls);
    NoCalls(p0, InfosOf(codec, txs).value);
  }
}
