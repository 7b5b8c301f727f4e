/** The chain of lanes: building a proposal lane by lane, verifying one, and the promises that
    relate the two. The terminator lane is the end of the list. */
module Chain {
  import opened Types
  import opened Proposals
  import opened LaneModel
  import opened BaseHandlers
  import opened MevHandlers
  import opened PoolSizes

  // ----- building -------------------------------------------------------------------------

  function Prepare(lane: Lane, p: Prop, st: State): PrepareResult {
    var limit := GetLaneLimits(p, lane.cfg.ratio);
    match lane.cfg.handlers
    case DefaultHandlers => PrepareBase(lane.cfg, p, limit, lane.pool, st)
    case MevHandlers => PrepareMev(lane.cfg, p, limit, lane.pool, st)
    case CustomHandlers(prepare, _) => prepare(st, p, limit, lane.pool)
  }

  datatype LaneStep = Contributed(prop: Prop, state: State, included: seq<Tx>) | LaneFailed

  /** BaseLane.PrepareLane up to the call of the next lane: it fails when the handler fails, a
      selected transaction has no info, or UpdateProposal rejects the selection. */
  function PrepareLane(lane: Lane, st: State, p: Prop): LaneStep {
    var r := Prepare(lane, p, st);
    if r.PrepareFailed? then LaneFailed
    else
      var infos := InfosOf(lane.cfg.codec, r.include_);
      if infos.None? then LaneFailed
      else
        var p' := Update(p, lane.cfg.name, lane.cfg.ratio, infos.value);
        if p'.None? then LaneFailed else Contributed(p'.value, r.state, r.include_)
  }

  datatype Built = Built(prop: Prop, state: State, included: seq<Tx>)

  /** The proposal the chain builds: a failing lane leaves proposal and state as it found them. */
  function PrepareChain(lanes: seq<Lane>, st: State, p: Prop): Built {
    if lanes == [] then Built(p, st, [])
    else match PrepareLane(lanes[0], st, p)
      case LaneFailed => PrepareChain(lanes[1..], st, p)
      case Contributed(p', st', included) =>
        var rest := PrepareChain(lanes[1..], st', p');
        rest.(included := included + rest.included)
  }

  // ----- failure isolation ----------------------------------------------------------------

  /** The lanes that did not fail when their turn came. */
  function Survivors(lanes: seq<Lane>, st: State, p: Prop): seq<Lane> {
    if lanes == [] then []
    else match PrepareLane(lanes[0], st, p)
      case LaneFailed => Survivors(lanes[1..], st, p)
      case Contributed(p', st', _) => [lanes[0]] + Survivors(lanes[1..], st', p')
  }

  /** Whatever the handlers do, the chain yields the proposal and state of the chain with the
      failing lanes deleted, and in that chain no lane fails; if every lane fails, the input
      proposal comes back. */
  lemma {:induction false} FailureIsolation(lanes: seq<Lane>, st: State, p: Prop)
    ensures PrepareChain(lanes, st, p) == PrepareChain(Survivors(lanes, st, p), st, p)
    ensures Survivors(Survivors(lanes, st, p), st, p) == Survivors(lanes, st, p)
    ensures Survivors(lanes, st, p) == [] ==> PrepareChain(lanes, st, p) == Built(p, st, [])
  {
    if lanes != [] {
      match PrepareLane(lanes[0], st, p)
      case LaneFailed => FailureIsolation(lanes[1..], st, p);
      case Contributed(p', st', _) =>
        FailureIsolation(lanes[1..], st', p');
        var rest := Survivors(lanes[1..], st', p');
        assert ([lanes[0]] + rest)[1..] == rest;
    }
  }

  /** Deleting any one lane that fails at its turn changes nothing. */
  lemma {:induction false} DeleteFailing(before: seq<Lane>, lane: Lane, after: seq<Lane>, st: State, p: Prop)
    requires var b := PrepareChain(before, st, p); PrepareLane(lane, b.state, b.prop).LaneFailed?
    ensures PrepareChain(before + [lane] + after, st, p) == PrepareChain(before + after, st, p)
  {
    if before == [] {
      assert before + [lane] + after == [lane] + after && before + after == after;
      assert ([lane] + after)[1..] == after;
    } else {
      assert (before + [lane] + after)[1..] == before[1..] + [lane] + after;
      assert (before + after)[1..] == before[1..] + after;
      match PrepareLane(before[0], st, p)
      case LaneFailed => DeleteFailing(before[1..], lane, after, st, p);
      case Contributed(p', st', _) => DeleteFailing(before[1..], lane, after, st', p');
    }
  }

  ghost predicate SameCodec(lanes: seq<Lane>, codec: Codec) {
    forall i :: 0 <= i < |lanes| ==> lanes[i].cfg.codec == codec
  }

  lemma TailCodec(lanes: seq<Lane>, codec: Codec)
    requires SameCodec(lanes, codec) && lanes != []
    ensures lanes[0].cfg.codec == codec && SameCodec(lanes[1..], codec)
  {
  }

  /** The proposal's transactions are the encodings of the included ones, in order. */
  lemma {:induction false} ChainAppends(lanes: seq<Lane>, st: State, p: Prop, codec: Codec)
    requires SameCodec(lanes, codec)
    ensures var r := PrepareChain(lanes, st, p);
            && InfosOf(codec, r.included).Some?
            && r.prop.txs == p.txs + TxBytesOf(InfosOf(codec, r.included).value)
            && r.prop.maxBlockSize == p.maxBlockSize && r.prop.maxGasLimit == p.maxGasLimit
  {
    if lanes == [] {
      assert p.txs + [] == p.txs;
    } else {
      TailCodec(lanes, codec);
      hide SameCodec, TxBytesOf, InfosOf, Update, Prepare;
      var s := PrepareLane(lanes[0], st, p);
      if s.LaneFailed? {
        ChainAppends(lanes[1..], st, p, codec);
      } else {
        ChainAppends(lanes[1..], s.state, s.prop, codec);
        var rest := PrepareChain(lanes[1..], s.state, s.prop);
        StepAppends(lanes[0], st, p, codec);
        JoinAppends(codec, p.txs, s.prop.txs, rest.prop.txs, s.included, rest.included);
      }
    }
  }

  lemma JoinAppends(codec: Codec, start: seq<Bytes>, middle: seq<Bytes>, end: seq<Bytes>, a: seq<Tx>, b: seq<Tx>)
    requires InfosOf(codec, a).Some? && middle == start + TxBytesOf(InfosOf(codec, a).value)
    requires InfosOf(codec, b).Some? && end == middle + TxBytesOf(InfosOf(codec, b).value)
    ensures InfosOf(codec, a + b).Some? && end == start + TxBytesOf(InfosOf(codec, a + b).value)
  {
    InfosJoin(codec, a, b);
    hide TxBytesOf, InfosOf;
  }

  lemma StepAppends(lane: Lane, st: State, p: Prop, codec: Codec)
    requires lane.cfg.codec == codec && PrepareLane(lane, st, p).Contributed?
    ensures var s := PrepareLane(lane, st, p);
            && InfosOf(codec, s.included).Some?
            && s.prop.txs == p.txs + TxBytesOf(InfosOf(codec, s.included).value)
            && s.prop.maxBlockSize == p.maxBlockSize && s.prop.maxGasLimit == p.maxGasLimit
  {
    hide Prepare;
  }

  lemma InfosJoin(codec: Codec, a: seq<Tx>, b: seq<Tx>)
    requires InfosOf(codec, a).Some? && InfosOf(codec, b).Some?
    ensures InfosOf(codec, a + b).Some?
    ensures TxBytesOf(InfosOf(codec, a + b).value) == TxBytesOf(InfosOf(codec, a).value) + TxBytesOf(InfosOf(codec, b).value)
    ensures TotalSize(InfosOf(codec, a + b).value) == TotalSize(InfosOf(codec, a).value) + TotalSize(InfosOf(codec, b).value)
  {
    InfosSplit(codec, a, b);
    TotalsAdd(InfosOf(codec, a).value, InfosOf(codec, b).value);
  }

  // ----- verifying ------------------------------------------------------------------------

  function Process(lane: Lane, txs: seq<Tx>, st: State): ProcessResult {
    match lane.cfg.handlers
    case DefaultHandlers => ProcessBase(lane.cfg, txs, st)
    case MevHandlers => ProcessMev(lane.cfg, txs, st)
    case CustomHandlers(_, process) => process(st, txs)
  }

  /** Default and MEV lanes hand on exactly what they did not take. */
  lemma SplitsOff(lane: Lane, txs: seq<Tx>, st: State)
    requires !lane.cfg.handlers.CustomHandlers? && Process(lane, txs, st).Processed?
    ensures Process(lane, txs, st).fromLane + Process(lane, txs, st).remaining == txs
  {
    if lane.cfg.handlers.MevHandlers? { ProcessMevSound(lane.cfg, txs, st); } else { ProcessSound(lane.cfg, txs, 0, st); }
  }

  datatype Verified = Accepted(prop: Prop, state: State) | Refused

  /** ChainProcessLanes over BaseLane.ProcessLane, ending in the terminator lane, which refuses
      any transaction left over. */
  function ProcessChain(lanes: seq<Lane>, st: State, p: Prop, txs: seq<Tx>): Verified {
    if lanes == [] then if txs == [] then Accepted(p, st) else Refused
    else if txs == [] then ProcessChain(lanes[1..], st, p, txs)
    else
      var r := Process(lanes[0], txs, st);
      if r.Rejected? then Refused
      else
        var infos := InfosOf(lanes[0].cfg.codec, r.fromLane);
        if infos.None? then Refused
        else
          var p' := Update(p, lanes[0].cfg.name, lanes[0].cfg.ratio, infos.value);
          if p'.None? then Refused else ProcessChain(lanes[1..], r.state, p'.value, r.remaining)
  }

  // ----- parity ---------------------------------------------------------------------------

  /** LanedMempool.Insert's choice: the first lane that matches, or the number of lanes. */
  function Route(lanes: seq<Lane>, tx: Tx): (r: nat)
    ensures r <= |lanes|
    ensures r < |lanes| ==> lanes[r].cfg.matches(tx)
    ensures forall i :: 0 <= i < r ==> !lanes[i].cfg.matches(tx)
  {
    if lanes == [] || lanes[0].cfg.matches(tx) then 0 else 1 + Route(lanes[1..], tx)
  }

  /** Every pool holds only transactions routed to its lane. */
  ghost predicate Routed(lanes: seq<Lane>) {
    forall i, k :: 0 <= i < |lanes| && 0 <= k < |lanes[i].pool| ==> Route(lanes, lanes[i].pool[k]) == i
  }

  /** The registries parity is promised for: default lanes with constant priorities, so that any
      pair of a selection is in order, with an optional MEV lane in front. */
  ghost predicate Standard(lanes: seq<Lane>) {
    forall i :: 0 <= i < |lanes| ==>
      (lanes[i].cfg.handlers.MevHandlers? && i == 0)
      || (lanes[i].cfg.handlers.DefaultHandlers? && AnyPairInOrder(lanes[i].cfg, lanes[i].pool))
  }

  /** The same proposal, under a block size limit that is no smaller. */
  ghost predicate SameBuild(p: Prop, q: Prop) {
    q == p.(maxBlockSize := q.maxBlockSize) && p.maxBlockSize <= q.maxBlockSize
  }

  lemma ShareMonotone(ratio: Ratio, a: int, b: int)
    requires a <= b
    ensures Share(ratio, a) <= Share(ratio, b)
  {
    if 0 <= a {
      assert ratio * a <= ratio * b;
    } else if b < 0 {
      assert ratio * -b <= ratio * -a;
    }
  }

  /** What an unlimited lane may still take, under this block size limit. */
  function Room(p: Prop, maxBlockSize: int64): int64 {
    GetLaneLimits(p.(maxBlockSize := maxBlockSize), 0).maxTxBytes
  }

  /** A larger block size limit accepts whatever a smaller one does, with the same effect, as long as
      it leaves an unlimited lane no less room. */
  lemma UpdateMonotone(p: Prop, q: Prop, lane: string, ratio: Ratio, infos: seq<TxWithInfo>)
    requires SameBuild(p, q) && Update(p, lane, ratio, infos).Some?
    requires ratio == 0 ==> Room(p, p.maxBlockSize) <= Room(p, q.maxBlockSize)
    ensures Update(q, lane, ratio, infos).Some?
    ensures SameBuild(Update(p, lane, ratio, infos).value, Update(q, lane, ratio, infos).value)
  {
    ShareMonotone(ratio, p.maxBlockSize, q.maxBlockSize);
    assert p.(maxBlockSize := p.maxBlockSize) == p && p.(maxBlockSize := q.maxBlockSize) == q;
    hide Share, TotalSize, TotalGas, Hashes, TxBytesOf, WrapInt64, WrapUint64;
  }

  /** The larger limit accepts this contribution if the smaller one does. */
  ghost predicate StillAccepted(p: Prop, q: Prop, lane: string, ratio: Ratio, infos: seq<TxWithInfo>) {
    Update(p, lane, ratio, infos).Some? ==>
      Update(q, lane, ratio, infos).Some? && SameBuild(Update(p, lane, ratio, infos).value, Update(q, lane, ratio, infos).value)
  }

  /** Exactly when it accepts everything the smaller limit does. The room is a wrapping difference, so
      with a block size that wrapped below zero a larger limit can leave less of it. */
  lemma MonotoneExactly(p: Prop, q: Prop, lane: string, hash: string)
    requires SameBuild(p, q) && p.gasLimit <= p.maxGasLimit && lane !in p.txsByLane && hash !in p.cache
    ensures (forall ratio: Ratio, infos: seq<TxWithInfo> :: StillAccepted(p, q, lane, ratio, infos))
            <==> Room(p, p.maxBlockSize) <= Room(p, q.maxBlockSize)
  {
    if Room(p, p.maxBlockSize) <= Room(p, q.maxBlockSize) {
      forall ratio: Ratio, infos: seq<TxWithInfo> ensures StillAccepted(p, q, lane, ratio, infos) {
        if Update(p, lane, ratio, infos).Some? { UpdateMonotone(p, q, lane, ratio, infos); }
      }
    } else {
      FillsTheRoom(p, q, lane, hash);
    }
  }

  lemma FillsTheRoom(p: Prop, q: Prop, lane: string, hash: string)
    requires SameBuild(p, q) && p.gasLimit <= p.maxGasLimit && lane !in p.txsByLane && hash !in p.cache
    requires Room(p, p.maxBlockSize) > Room(p, q.maxBlockSize)
    ensures !StillAccepted(p, q, lane, 0, [TxWithInfo(hash, Room(p, p.maxBlockSize), 0, [])])
  {
    var room := Room(p, p.maxBlockSize);
    var info := TxWithInfo(hash, room, 0, []);
    TotalsOne(info);
    WrapInt64Adds(p.maxBlockSize - p.blockSize, p.blockSize);
    assert p.(maxBlockSize := p.maxBlockSize) == p && p.(maxBlockSize := q.maxBlockSize) == q;
    assert WrapInt64(p.blockSize + room) == p.maxBlockSize;
    assert Hashes([info]) == {hash};
    assert FitsLane(p, 0, room, 0) && FitsBlock(p, room, 0) && !FitsLane(q, 0, room, 0);
  }

  /** A block size of -1 leaves more room under the limit 0 than under the largest one. */
  lemma LargerLimitLessRoom()
    ensures var p := NewProposal(0, 0).(blockSize := -1);
            Room(p, 0) == 1 && Room(p, TWO_TO_63 - 1) == 0
  {
  }

  /** Nothing a tail of default lanes includes matches a lane whose transactions are routed
      elsewhere. */
  lemma {:induction false} IncludedAvoid(lanes: seq<Lane>, st: State, p: Prop, cfg: LaneConfig)
    requires forall i :: 0 <= i < |lanes| ==> lanes[i].cfg.handlers.DefaultHandlers?
    requires forall i, k :: 0 <= i < |lanes| && 0 <= k < |lanes[i].pool| ==> !cfg.matches(lanes[i].pool[k])
    ensures NoneMatch(cfg, PrepareChain(lanes, st, p).included)
  {
    if lanes != [] {
      match PrepareLane(lanes[0], st, p)
      case LaneFailed => IncludedAvoid(lanes[1..], st, p, cfg);
      case Contributed(p', st', included) =>
        IncludedAvoid(lanes[1..], st', p', cfg);
        var marks := GreedyPartitions(lanes[0].cfg, p, GetLaneLimits(p, lanes[0].cfg.ratio), lanes[0].pool, 0, 0, st);
        forall i | 0 <= i < |included| ensures !cfg.matches(included[i]) {
          var k := PickedFrom(lanes[0].pool, marks, Included, i);
        }
    }
  }

  ghost predicate StandardLane(lane: Lane) {
    lane.cfg.handlers.MevHandlers? || (lane.cfg.handlers.DefaultHandlers? && AnyPairInOrder(lane.cfg, lane.pool))
  }

  lemma TailRouted(lanes: seq<Lane>)
    requires lanes != [] && Routed(lanes) && Standard(lanes)
    ensures Routed(lanes[1..]) && Standard(lanes[1..])
    ensures StandardLane(lanes[0])
    ensures forall i :: 0 <= i < |lanes[1..]| ==> lanes[1..][i].cfg.handlers.DefaultHandlers?
    ensures forall i, k :: 0 <= i < |lanes[1..]| && 0 <= k < |lanes[1..][i].pool| ==> !lanes[0].cfg.matches(lanes[1..][i].pool[k])
  {
    forall i, k | 0 <= i < |lanes[1..]| && 0 <= k < |lanes[1..][i].pool|
      ensures Route(lanes[1..], lanes[1..][i].pool[k]) == i && !lanes[0].cfg.matches(lanes[1..][i].pool[k])
    {
      assert Route(lanes, lanes[i + 1].pool[k]) == i + 1;
    }
  }

  /** What one lane of a standard registry contributed, followed by transactions that do not match
      it, is processed by it from the same state to the same state. */
  lemma ContributionIsProcessed(lane: Lane, st: State, p: Prop, rest: seq<Tx>)
    requires StandardLane(lane) && PrepareLane(lane, st, p).Contributed?
    requires NoneMatch(lane.cfg, rest)
    ensures var r := PrepareLane(lane, st, p);
            Process(lane, r.included + rest, st) == Processed(r.included, rest, r.state)
  {
    var limit := GetLaneLimits(p, lane.cfg.ratio);
    if lane.cfg.handlers.MevHandlers? {
      MevPreparedIsProcessed(lane.cfg, p, limit, lane.pool, st, rest);
    } else {
      PreparedIsProcessed(lane.cfg, p, limit, lane.pool, st, rest);
    }
  }

  /** A lane none of whose transactions are in the list hands the list on unchanged. */
  lemma NothingToProcess(lane: Lane, st: State, txs: seq<Tx>)
    requires !lane.cfg.handlers.CustomHandlers?
    requires txs != [] && NoneMatch(lane.cfg, txs)
    ensures Process(lane, txs, st) == Processed([], txs, st)
  {
    assert forall i :: 0 <= i < |txs[1..]| ==> txs[1..][i] == txs[i + 1];
    assert txs[..0] == [] && txs[0..] == txs;
  }

  /** Parity. What the chain builds, the chain accepts from the same state and rebuilds
      identically: same transactions, cache, lane counts, size, gas and final state. Lanes may fail
      while building. */
  lemma {:induction false} Parity(lanes: seq<Lane>, st: State, p: Prop, q: Prop)
    requires Routed(lanes) && Standard(lanes) && SameBuild(p, q)
    requires lanes != [] ==> SameCodec(lanes, lanes[0].cfg.codec)
    requires RoomKept(lanes, st, p, q.maxBlockSize)
    ensures var r := PrepareChain(lanes, st, p);
            var v := ProcessChain(lanes, st, q, r.included);
            v.Accepted? && v.state == r.state && SameBuild(r.prop, v.prop)
  {
    if lanes != [] {
      TailRouted(lanes);
      TailCodec(lanes, lanes[0].cfg.codec);
      hide Routed, Standard, SameCodec, Update, InfosOf, Prepare, Process;
      match PrepareLane(lanes[0], st, p)
      case LaneFailed =>
        IncludedAvoid(lanes[1..], st, p, lanes[0].cfg);
        Parity(lanes[1..], st, p, q);
        if PrepareChain(lanes[1..], st, p).included != [] {
          NothingToProcess(lanes[0], st, PrepareChain(lanes[1..], st, p).included);
        }
      case Contributed(p', st', included) =>
        IncludedAvoid(lanes[1..], st', p', lanes[0].cfg);
        UpdateMonotone(p, q, lanes[0].cfg.name, lanes[0].cfg.ratio, InfosOf(lanes[0].cfg.codec, included).value);
        var q' := Update(q, lanes[0].cfg.name, lanes[0].cfg.ratio, InfosOf(lanes[0].cfg.codec, included).value).value;
        Parity(lanes[1..], st', p', q');
        ContributionIsRebuilt(lanes, st, p, q);
    }
  }

  /** The step of Parity for a lane that contributed. */
  lemma ContributionIsRebuilt(lanes: seq<Lane>, st: State, p: Prop, q: Prop)
    requires lanes != [] && StandardLane(lanes[0]) && PrepareLane(lanes[0], st, p).Contributed?
    requires var s := PrepareLane(lanes[0], st, p);
             var q' := Update(q, lanes[0].cfg.name, lanes[0].cfg.ratio, InfosOf(lanes[0].cfg.codec, s.included).value);
             var rest := PrepareChain(lanes[1..], s.state, s.prop);
             && NoneMatch(lanes[0].cfg, rest.included)
             && q'.Some?
             && var v := ProcessChain(lanes[1..], s.state, q'.value, rest.included);
                v.Accepted? && v.state == rest.state && SameBuild(rest.prop, v.prop)
    ensures var r := PrepareChain(lanes, st, p);
            var v := ProcessChain(lanes, st, q, r.included);
            v.Accepted? && v.state == r.state && SameBuild(r.prop, v.prop)
  {
    var lane, included := lanes[0], PrepareLane(lanes[0], st, p).included;
    var s := PrepareLane(lane, st, p);
    var rest := PrepareChain(lanes[1..], s.state, s.prop);
    ContributionIsProcessed(lane, st, p, rest.included);
    if included == [] {
      EmptyContribution(lane, st, p);
      assert Update(q, lane.cfg.name, lane.cfg.ratio, InfosOf(lane.cfg.codec, included).value) == Some(q);
    }
    hide Update, InfosOf, Prepare, Process, SameBuild, StandardLane, NoneMatch;
  }

  /** While the chain builds, this limit never leaves an unlimited lane less room than the proposal's. */
  ghost predicate RoomKept(lanes: seq<Lane>, st: State, p: Prop, maxBlockSize: int64) {
    lanes == [] || match PrepareLane(lanes[0], st, p)
      case LaneFailed => RoomKept(lanes[1..], st, p, maxBlockSize)
      case Contributed(p', st', _) =>
        && (lanes[0].cfg.ratio == 0 ==> Room(p, p.maxBlockSize) <= Room(p, maxBlockSize))
        && RoomKept(lanes[1..], st', p', maxBlockSize)
  }

  lemma {:induction false} NoUnlimitedLaneKeepsRoom(lanes: seq<Lane>, st: State, p: Prop, maxBlockSize: int64)
    requires (forall i :: 0 <= i < |lanes| ==> lanes[i].cfg.ratio != 0) || p.maxBlockSize == maxBlockSize
    ensures RoomKept(lanes, st, p, maxBlockSize)
  {
    if lanes != [] {
      match PrepareLane(lanes[0], st, p)
      case LaneFailed => NoUnlimitedLaneKeepsRoom(lanes[1..], st, p, maxBlockSize);
      case Contributed(p', st', _) =>
        ContributionAdds(lanes[0], st, p);
        NoUnlimitedLaneKeepsRoom(lanes[1..], st', p', maxBlockSize);
    }
  }

  /** The size has not wrapped. */
  predicate Unwrapped(p: Prop) {
    0 <= p.blockSize && (p.blockSize == 0 || p.blockSize <= p.maxBlockSize)
  }

  lemma UnwrappedRoom(p: Prop, maxBlockSize: int64)
    requires Unwrapped(p) && p.maxBlockSize <= maxBlockSize
    ensures Room(p, p.maxBlockSize) <= Room(p, maxBlockSize)
  {
  }

  /** No lane can put more into a block than its pool holds; an MEV lane puts in one bid's worth. */
  lemma SelectionSize(lane: Lane, st: State, p: Prop)
    requires !lane.cfg.handlers.CustomHandlers? && Prepare(lane, p, st).Selected?
    ensures var size := EncodedSize(Prepare(lane, p, st).include_);
            && size <= PoolSize(lane)
            && (lane.cfg.handlers.MevHandlers? && BidsFit(lane) ==> size < TWO_TO_63)
  {
    var limit := GetLaneLimits(p, lane.cfg.ratio);
    if lane.cfg.handlers.MevHandlers? {
      var at := MevSize(lane.cfg, p, limit, lane.pool, st);
    } else {
      GreedySize(lane.cfg, p, limit, lane.pool, 0, 0, st);
    }
  }

  /** What a contribution does to the block's size. */
  lemma ContributionAdds(lane: Lane, st: State, p: Prop)
    requires PrepareLane(lane, st, p).Contributed?
    ensures var s := PrepareLane(lane, st, p);
            && s.included == Prepare(lane, p, st).include_
            && s.prop.blockSize == WrapInt64(p.blockSize + EncodedSize(s.included))
            && s.prop.maxBlockSize == p.maxBlockSize
            && (s.included != [] ==> WrapInt64(EncodedSize(s.included)) <= GetLaneLimits(p, lane.cfg.ratio).maxTxBytes
                                     && s.prop.blockSize <= p.maxBlockSize)
  {
    hide *;
    var included := PrepareLane(lane, st, p).included;
    ContributionIs(lane, st, p);
    SizeIsEncoded(lane.cfg.codec, included);
    InfosLength(lane.cfg.codec, included);
    UpdateAdds(p, lane.cfg.name, lane.cfg.ratio, InfosOf(lane.cfg.codec, included).value);
  }

  lemma ContributionIs(lane: Lane, st: State, p: Prop)
    requires PrepareLane(lane, st, p).Contributed?
    ensures var r, s := Prepare(lane, p, st), PrepareLane(lane, st, p);
            && r.Selected? && s.included == r.include_ && InfosOf(lane.cfg.codec, r.include_).Some?
            && Update(p, lane.cfg.name, lane.cfg.ratio, InfosOf(lane.cfg.codec, r.include_).value) == Some(s.prop)
  {
    hide Prepare, InfosOf, Update;
  }

  lemma UpdateAdds(p: Prop, lane: string, ratio: Ratio, infos: seq<TxWithInfo>)
    requires Update(p, lane, ratio, infos).Some?
    ensures var p' := Update(p, lane, ratio, infos).value;
            && p'.blockSize == WrapInt64(p.blockSize + TotalSize(infos)) && p'.maxBlockSize == p.maxBlockSize
            && (infos != [] ==> WrapInt64(TotalSize(infos)) <= GetLaneLimits(p, ratio).maxTxBytes && p'.blockSize <= p.maxBlockSize)
  {
    WrapsAdd(p.blockSize, TotalSize(infos), 0, 0);
    assert infos == [] ==> TotalSize(infos) == 0;
    hide TotalSize, TotalGas, WrapUint64, GetLaneLimits, Hashes, TxBytesOf;
  }

  /** While the pools' bytes fit an int64 on top of the block, no lane can wrap the size. */
  lemma {:induction false} RoomyPoolsKeepRoom(lanes: seq<Lane>, st: State, p: Prop, maxBlockSize: int64)
    requires Standard(lanes) && p.maxBlockSize <= maxBlockSize
    requires Unwrapped(p) && p.blockSize + PoolsSize(lanes) < TWO_TO_63
    ensures RoomKept(lanes, st, p, maxBlockSize)
  {
    if lanes != [] {
      assert Standard(lanes[1..]);
      assert !lanes[0].cfg.handlers.CustomHandlers?;
      UnwrappedRoom(p, maxBlockSize);
      hide PoolSize, PrepareLane, Standard, Room, Unwrapped;
      match PrepareLane(lanes[0], st, p)
      case LaneFailed => RoomyPoolsKeepRoom(lanes[1..], st, p, maxBlockSize);
      case Contributed(p', st', included) =>
        StaysUnwrapped(lanes[0], st, p);
        RoomyPoolsKeepRoom(lanes[1..], st', p', maxBlockSize);
    }
  }

  lemma StaysUnwrapped(lane: Lane, st: State, p: Prop)
    requires !lane.cfg.handlers.CustomHandlers? && PrepareLane(lane, st, p).Contributed?
    requires Unwrapped(p) && p.blockSize + PoolSize(lane) < TWO_TO_63
    ensures var p' := PrepareLane(lane, st, p).prop;
            Unwrapped(p') && p'.blockSize <= p.blockSize + PoolSize(lane) && p'.maxBlockSize == p.maxBlockSize
  {
    ContributionAdds(lane, st, p);
    ContributionIs(lane, st, p);
    SelectionSize(lane, st, p);
    assert EncodedSize([]) == 0;
    hide PrepareLane, Prepare, EncodedSize, PoolSize, BidsFit, GetLaneLimits, Update, InfosOf;
  }

  /** In a block of fewer than 2^62 bytes no default lane can wrap the size, and no MEV lane whose bids
      fit an int64. */
  lemma {:induction false} SmallBlocksKeepRoom(lanes: seq<Lane>, st: State, p: Prop, maxBlockSize: int64)
    requires Standard(lanes) && (forall i :: 0 <= i < |lanes| ==> BidsFit(lanes[i])) && p.maxBlockSize <= maxBlockSize
    requires 0 <= p.blockSize <= p.maxBlockSize < TWO_TO_63 / 2
    ensures RoomKept(lanes, st, p, maxBlockSize)
  {
    if lanes != [] {
      assert Standard(lanes[1..]) && BidsFit(lanes[0]);
      assert !lanes[0].cfg.handlers.CustomHandlers?;
      UnwrappedRoom(p, maxBlockSize);
      hide Standard, BidsFit, Room;
      match PrepareLane(lanes[0], st, p)
      case LaneFailed => SmallBlocksKeepRoom(lanes[1..], st, p, maxBlockSize);
      case Contributed(p', st', _) =>
        ContributionStaysSmall(lanes[0], st, p);
        SmallBlocksKeepRoom(lanes[1..], st', p', maxBlockSize);
    }
  }

  lemma ContributionStaysSmall(lane: Lane, st: State, p: Prop)
    requires !lane.cfg.handlers.CustomHandlers? && BidsFit(lane) && PrepareLane(lane, st, p).Contributed?
    requires 0 <= p.blockSize <= p.maxBlockSize < TWO_TO_63 / 2
    ensures var p' := PrepareLane(lane, st, p).prop;
            0 <= p'.blockSize <= p'.maxBlockSize == p.maxBlockSize
  {
    ContributionAdds(lane, st, p);
    SelectionIsSmall(lane, st, p);
    assert PrepareLane(lane, st, p).included == [] ==> EncodedSize([]) == 0;
    hide PrepareLane, EncodedSize, GetLaneLimits, BidsFit;
  }

  /** The true size of a selection is within the block's limit. */
  lemma SelectionIsSmall(lane: Lane, st: State, p: Prop)
    requires !lane.cfg.handlers.CustomHandlers? && BidsFit(lane) && Prepare(lane, p, st).Selected?
    requires 0 <= p.blockSize <= p.maxBlockSize < TWO_TO_63 / 2
    ensures EncodedSize(Prepare(lane, p, st).include_) < TWO_TO_63
    ensures PrepareLane(lane, st, p).Contributed? ==> EncodedSize(Prepare(lane, p, st).include_) <= p.maxBlockSize
  {
    if lane.cfg.handlers.DefaultHandlers? {
      IncludedSizeIsExact(lane.cfg, p, lane.pool, st);
      SizeIsEncoded(lane.cfg.codec, Prepare(lane, p, st).include_);
    } else {
      SelectionSize(lane, st, p);
      LimitIsWithinBlock(p, lane.cfg.ratio);
      if PrepareLane(lane, st, p).Contributed? { ContributionAdds(lane, st, p); }
      assert EncodedSize([]) == 0;
    }
    hide PrepareMev, PrepareBase, InfosOf, GetLaneLimits, BidsFit, EncodedSize, TotalSize, Update;
  }

  lemma LimitIsWithinBlock(p: Prop, ratio: Ratio)
    requires 0 <= p.blockSize && 0 <= p.maxBlockSize
    ensures GetLaneLimits(p, ratio).maxTxBytes <= p.maxBlockSize
  {
  }

  lemma EmptyContribution(lane: Lane, st: State, p: Prop)
    requires !lane.cfg.handlers.CustomHandlers?
    requires PrepareLane(lane, st, p).Contributed? && PrepareLane(lane, st, p).included == []
    ensures PrepareLane(lane, st, p).state == st && PrepareLane(lane, st, p).prop == p
  {
    var limit := GetLaneLimits(p, lane.cfg.ratio);
    if lane.cfg.handlers.MevHandlers? {
      var _ := FirstValidBidWins(lane.cfg, p, limit, lane.pool, st);
    } else {
      GreedyIncludes(lane.cfg, p, limit, lane.pool, 0, 0, st);
    }
  }

  /** GetDecodedTxs. */
  function DecodeAll(codec: Codec, raw: seq<Bytes>): Option<seq<Tx>> {
    Unwrap(codec, raw)
  }

  ghost predicate AllRoundTrip(codec: Codec, txs: seq<Tx>) {
    forall i :: 0 <= i < |txs| ==> RoundTrips(codec, txs[i])
  }

  lemma {:induction false} DecodesIncluded(codec: Codec, txs: seq<Tx>)
    requires InfosOf(codec, txs).Some? && AllRoundTrip(codec, txs)
    ensures DecodeAll(codec, TxBytesOf(InfosOf(codec, txs).value)) == Some(txs)
  {
    if txs != [] {
      var front, last := txs[..|txs| - 1], txs[|txs| - 1];
      assert RoundTrips(codec, last);
      DecodesIncluded(codec, front);
      var infos := InfosOf(codec, txs).value;
      var raw := TxBytesOf(infos);
      assert infos[..|infos| - 1] == InfosOf(codec, front).value;
      assert raw[..|raw| - 1] == TxBytesOf(InfosOf(codec, front).value);
      assert raw[|raw| - 1] == last.bytes.value;
      assert txs == front + [last];
    }
  }

  /** Every pool holds transactions that came out of the decoder. */
  ghost predicate PoolsDecoded(lanes: seq<Lane>, codec: Codec) {
    forall i :: 0 <= i < |lanes| ==> AllRoundTrip(codec, lanes[i].pool)
  }

  /** Whatever a default or MEV lane includes decodes back from its encoding, the bundled
      transactions of a bid included. */
  lemma IncludedByLane(lane: Lane, st: State, p: Prop)
    requires !lane.cfg.handlers.CustomHandlers? && PrepareLane(lane, st, p).Contributed?
    requires DecoderUndoesEncoder(lane.cfg.codec)
    requires AllRoundTrip(lane.cfg.codec, lane.pool)
    ensures AllRoundTrip(lane.cfg.codec, PrepareLane(lane, st, p).included)
  {
    var limit, txs := GetLaneLimits(p, lane.cfg.ratio), PrepareLane(lane, st, p).included;
    hide RoundTrips, Update;
    if lane.cfg.handlers.DefaultHandlers? {
      var marks := GreedyPartitions(lane.cfg, p, limit, lane.pool, 0, 0, st);
      forall i | 0 <= i < |txs| ensures RoundTrips(lane.cfg.codec, txs[i]) {
        var k := PickedFrom(lane.pool, marks, Included, i);
      }
    } else {
      var at := FirstValidBidWins(lane.cfg, p, limit, lane.pool, st);
      if at < |lane.pool| {
        UnwrapEach(lane.cfg.codec, BidOf(lane.pool[at]).value.transactions);
      }
    }
  }

  lemma {:induction false} IncludedDecodes(lanes: seq<Lane>, st: State, p: Prop, codec: Codec)
    requires Standard(lanes) && SameCodec(lanes, codec) && DecoderUndoesEncoder(codec) && PoolsDecoded(lanes, codec)
    ensures AllRoundTrip(codec, PrepareChain(lanes, st, p).included)
  {
    if lanes != [] {
      TailDecoded(lanes, codec);
      hide Standard, SameCodec, PoolsDecoded, AllRoundTrip, DecoderUndoesEncoder, PrepareLane;
      match PrepareLane(lanes[0], st, p)
      case LaneFailed => IncludedDecodes(lanes[1..], st, p, codec);
      case Contributed(p', st', included) =>
        IncludedByLane(lanes[0], st, p);
        IncludedDecodes(lanes[1..], st', p', codec);
        JoinRoundTrip(codec, included, PrepareChain(lanes[1..], st', p').included);
    }
  }

  lemma TailDecoded(lanes: seq<Lane>, codec: Codec)
    requires lanes != [] && Standard(lanes) && SameCodec(lanes, codec) && PoolsDecoded(lanes, codec)
    ensures lanes[0].cfg.codec == codec && !lanes[0].cfg.handlers.CustomHandlers? && AllRoundTrip(codec, lanes[0].pool)
    ensures Standard(lanes[1..]) && SameCodec(lanes[1..], codec) && PoolsDecoded(lanes[1..], codec)
  {
    hide AllRoundTrip, AnyPairInOrder;
  }

  lemma JoinRoundTrip(codec: Codec, a: seq<Tx>, b: seq<Tx>)
    requires AllRoundTrip(codec, a) && AllRoundTrip(codec, b)
    ensures AllRoundTrip(codec, a + b)
  {
    hide RoundTrips;
  }

  /** Enough for a larger limit on the process side to be harmless: no lane is unlimited, or the bytes in
      the pools fit an int64, or the request is for fewer than 2^62 bytes and each bid with its bundle
      fits an int64. */
  ghost predicate SizesAreSafe(lanes: seq<Lane>, prepareMaxBytes: int64, processMaxBytes: int64) {
    || prepareMaxBytes == processMaxBytes
    || (forall i :: 0 <= i < |lanes| ==> lanes[i].cfg.ratio != 0)
    || PoolsSize(lanes) < TWO_TO_63
    || (0 <= prepareMaxBytes < TWO_TO_63 / 2 && forall i :: 0 <= i < |lanes| ==> BidsFit(lanes[i]))
  }

  lemma SafeSizesKeepRoom(lanes: seq<Lane>, st: State, p: Prop, maxBlockSize: int64)
    requires Standard(lanes) && SizesAreSafe(lanes, p.maxBlockSize, maxBlockSize)
    requires p.blockSize == 0 && p.maxBlockSize <= maxBlockSize
    ensures RoomKept(lanes, st, p, maxBlockSize)
  {
    hide Standard, BidsFit, PoolsSize, RoomKept;
    if p.maxBlockSize == maxBlockSize || forall i :: 0 <= i < |lanes| ==> lanes[i].cfg.ratio != 0 {
      NoUnlimitedLaneKeepsRoom(lanes, st, p, maxBlockSize);
    } else if PoolsSize(lanes) < TWO_TO_63 {
      RoomyPoolsKeepRoom(lanes, st, p, maxBlockSize);
    } else {
      SmallBlocksKeepRoom(lanes, st, p, maxBlockSize);
    }
  }

  /** The headline: the bytes PrepareProposal returns decode to transactions ProcessProposal
      accepts, whatever lanes failed while building, and the verified proposal is the built one. */
  lemma PreparedProposalIsAccepted(lanes: seq<Lane>, st: State, prepareMaxBytes: int64, processMaxBytes: int64, maxGas: uint64)
    requires lanes != [] && Routed(lanes) && Standard(lanes)
    requires lanes != [] ==> SameCodec(lanes, lanes[0].cfg.codec) && PoolsDecoded(lanes, lanes[0].cfg.codec)
    requires DecoderUndoesEncoder(lanes[0].cfg.codec)
    requires prepareMaxBytes <= processMaxBytes && SizesAreSafe(lanes, prepareMaxBytes, processMaxBytes)
    ensures var built := PrepareChain(lanes, st, NewProposal(prepareMaxBytes, maxGas));
            var txs := DecodeAll(lanes[0].cfg.codec, built.prop.txs);
            && txs.Some?
            && var v := ProcessChain(lanes, st, NewProposal(processMaxBytes, maxGas), txs.value);
               && v.Accepted? && v.state == built.state
               && v.prop == built.prop.(maxBlockSize := processMaxBytes)
  {
    var p, q := NewProposal(prepareMaxBytes, maxGas), NewProposal(processMaxBytes, maxGas);
    var built := PrepareChain(lanes, st, p);
    var codec := lanes[0].cfg.codec;
    ChainAppends(lanes, st, p, codec);
    assert [] + TxBytesOf(InfosOf(codec, built.included).value) == TxBytesOf(InfosOf(codec, built.included).value);
    IncludedDecodes(lanes, st, p, codec);
    DecodesIncluded(codec, built.included);
    SafeSizesKeepRoom(lanes, st, p, processMaxBytes);
    Parity(lanes, st, p, q);
    ProcessKeepsLimits(lanes, st, q, built.included);
  }

  lemma {:induction false} ProcessKeepsLimits(lanes: seq<Lane>, st: State, p: Prop, txs: seq<Tx>)
    ensures var v := ProcessChain(lanes, st, p, txs); v.Accepted? ==> v.prop.maxBlockSize == p.maxBlockSize
  {
    if lanes != [] {
      if txs == [] {
        ProcessKeepsLimits(lanes[1..], st, p, txs);
      } else {
        var r := Process(lanes[0], txs, st);
        if r.Processed? && InfosOf(lanes[0].cfg.codec, r.fromLane).Some? {
          var p' := Update(p, lanes[0].cfg.name, lanes[0].cfg.ratio, InfosOf(lanes[0].cfg.codec, r.fromLane).value);
          if p'.Some? { ProcessKeepsLimits(lanes[1..], r.state, p'.value, r.remaining); }
        }
      }
    }
  }
}
