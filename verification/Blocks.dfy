/** What a block is made of: the lanes' turns one after the other, and everything in the pools when there
    is room for it. */
module Blocks {
  import opened Types
  import opened Proposals
  import opened LaneModel
  import opened BaseHandlers
  import opened PoolSizes
  import opened Chain
  import opened Acceptance
  import opened SpacePartition

  // ----- the turns --------------------------------------------------------------------------------

  /** The proposal and the chain state between two lanes. */
  datatype Moment = Moment(prop: Prop, state: State)

  /** The lane's handler succeeds, everything it includes has an info, and the update accepts them. */
  ghost predicate Contributes(lane: Lane, at: Moment, segment: seq<Tx>, after: Moment) {
    && Prepare(lane, at.prop, at.state).Selected?
    && segment == Prepare(lane, at.prop, at.state).include_ && after.state == Prepare(lane, at.prop, at.state).state
    && InfosOf(lane.cfg.codec, segment).Some?
    && Update(at.prop, lane.cfg.name, lane.cfg.ratio, InfosOf(lane.cfg.codec, segment).value) == Some(after.prop)
  }

  /** A lane that cannot contribute adds nothing and changes nothing. */
  ghost predicate Turn(lane: Lane, at: Moment, segment: seq<Tx>, after: Moment) {
    || Contributes(lane, at, segment, after)
    || (segment == [] && after == at && forall s, m :: !Contributes(lane, at, s, m))
  }

  ghost predicate Turns(lanes: seq<Lane>, moments: seq<Moment>, segments: seq<seq<Tx>>) {
    && |segments| == |lanes| && |moments| == |lanes| + 1
    && forall i :: 0 <= i < |lanes| ==> Turn(lanes[i], moments[i], segments[i], moments[i + 1])
  }

  lemma OneTurn(lane: Lane, at: Moment) returns (segment: seq<Tx>, after: Moment)
    ensures Turn(lane, at, segment, after)
    ensures match PrepareLane(lane, at.state, at.prop)
            case LaneFailed => segment == [] && after == at
            case Contributed(p', st', included) => segment == included && after == Moment(p', st')
  {
    PrepareLaneIs(lane, at.state, at.prop);
    hide Prepare, Update, InfosOf;
    match PrepareLane(lane, at.state, at.prop)
    case LaneFailed => segment, after := [], at;
    case Contributed(p', st', included) =>
      segment, after := included, Moment(p', st');
      assert Contributes(lane, at, segment, after);
  }

  /** The chain builds what its lanes contribute, each from where the one before it left off. */
  lemma {:induction false} BuiltByTurns(lanes: seq<Lane>, st: State, p: Prop) returns (moments: seq<Moment>, segments: seq<seq<Tx>>)
    ensures Turns(lanes, moments, segments) && moments[0] == Moment(p, st)
    ensures PrepareChain(lanes, st, p) == Built(moments[|lanes|].prop, moments[|lanes|].state, Concat(segments))
  {
    if lanes == [] {
      moments, segments := [Moment(p, st)], [];
    } else {
      var segment, after := OneTurn(lanes[0], Moment(p, st));
      hide PrepareLane, Turn;
      var later, rest := BuiltByTurns(lanes[1..], after.state, after.prop);
      moments, segments := [Moment(p, st)] + later, [segment] + rest;
      assert segments[1..] == rest && segments[0] == segment;
      ConsTurns(lanes, Moment(p, st), segment, later, rest);
      if PrepareLane(lanes[0], st, p).LaneFailed? { assert [] + Concat(rest) == Concat(rest); }
    }
  }

  lemma ConsTurns(lanes: seq<Lane>, at: Moment, segment: seq<Tx>, later: seq<Moment>, rest: seq<seq<Tx>>)
    requires lanes != [] && Turns(lanes[1..], later, rest) && Turn(lanes[0], at, segment, later[0])
    ensures Turns(lanes, [at] + later, [segment] + rest)
  {
    hide Turn;
    var moments, segments := [at] + later, [segment] + rest;
    forall i | 0 <= i < |lanes| ensures Turn(lanes[i], moments[i], segments[i], moments[i + 1]) {
      if i > 0 { assert Turn(lanes[1..][i - 1], later[i - 1], rest[i - 1], later[i]); }
    }
  }

  // ----- checking turn by turn --------------------------------------------------------------------

  /** A lane takes its segment off the front of the list, and the update accepts it; an empty list leaves
      everything as it is. */
  ghost predicate Checks(lane: Lane, at: Moment, txs: seq<Tx>, segment: seq<Tx>, rest: seq<Tx>, after: Moment) {
    if txs == [] then segment == [] && rest == [] && after == at
    else && Process(lane, txs, at.state) == Processed(segment, rest, after.state)
         && InfosOf(lane.cfg.codec, segment).Some?
         && Update(at.prop, lane.cfg.name, lane.cfg.ratio, InfosOf(lane.cfg.codec, segment).value) == Some(after.prop)
  }

  /** Each lane checks what the lanes before it left, and nothing is left at the end. */
  ghost predicate ChecksAll(lanes: seq<Lane>, moments: seq<Moment>, segments: seq<seq<Tx>>, rests: seq<seq<Tx>>) {
    && |segments| == |lanes| && |moments| == |rests| == |lanes| + 1 && rests[|lanes|] == []
    && forall i :: 0 <= i < |lanes| ==> Checks(lanes[i], moments[i], rests[i], segments[i], rests[i + 1], moments[i + 1])
  }

  lemma ConsChecks(lanes: seq<Lane>, at: Moment, txs: seq<Tx>, segment: seq<Tx>, later: seq<Moment>, more: seq<seq<Tx>>, rests: seq<seq<Tx>>)
    requires lanes != [] && ChecksAll(lanes[1..], later, more, rests) && Checks(lanes[0], at, txs, segment, rests[0], later[0])
    ensures ChecksAll(lanes, [at] + later, [segment] + more, [txs] + rests)
  {
    hide Checks;
    var moments, segments, all := [at] + later, [segment] + more, [txs] + rests;
    forall i | 0 <= i < |lanes| ensures Checks(lanes[i], moments[i], all[i], segments[i], all[i + 1], moments[i + 1]) {
      if i > 0 { assert Checks(lanes[1..][i - 1], later[i - 1], rests[i - 1], more[i - 1], rests[i], later[i]); }
    }
  }

  lemma {:induction false} AcceptedChecksAll(lanes: seq<Lane>, st: State, p: Prop, txs: seq<Tx>)
      returns (moments: seq<Moment>, segments: seq<seq<Tx>>, rests: seq<seq<Tx>>)
    requires ProcessChain(lanes, st, p, txs).Accepted?
    ensures ChecksAll(lanes, moments, segments, rests) && moments[0] == Moment(p, st) && rests[0] == txs
    ensures var v := ProcessChain(lanes, st, p, txs); moments[|lanes|] == Moment(v.prop, v.state)
  {
    if lanes == [] {
      moments, segments, rests := [Moment(p, st)], [], [[]];
    } else {
      hide Process, Update, InfosOf;
      var after, rest, segment := Moment(p, st), txs, [];
      if txs != [] {
        var r := Process(lanes[0], txs, st);
        segment, rest := r.fromLane, r.remaining;
        after := Moment(Update(p, lanes[0].cfg.name, lanes[0].cfg.ratio, InfosOf(lanes[0].cfg.codec, segment).value).value, r.state);
      }
      assert Checks(lanes[0], Moment(p, st), txs, segment, rest, after);
      hide Checks, ChecksAll;
      var later, more, left := AcceptedChecksAll(lanes[1..], after.state, after.prop, rest);
      ConsChecks(lanes, Moment(p, st), txs, segment, later, more, left);
      moments, segments, rests := [Moment(p, st)] + later, [segment] + more, [txs] + left;
    }
  }

  lemma {:induction false} ChecksAllAccepts(lanes: seq<Lane>, moments: seq<Moment>, segments: seq<seq<Tx>>, rests: seq<seq<Tx>>)
    requires ChecksAll(lanes, moments, segments, rests)
    ensures ProcessChain(lanes, moments[0].state, moments[0].prop, rests[0]) == Accepted(moments[|lanes|].prop, moments[|lanes|].state)
  {
    if lanes != [] {
      assert Checks(lanes[0], moments[0], rests[0], segments[0], rests[1], moments[1]);
      TailChecks(lanes, moments, segments, rests);
      hide Process, Update, InfosOf, ChecksAll;
      ChecksAllAccepts(lanes[1..], moments[1..], segments[1..], rests[1..]);
    }
  }

  lemma TailChecks(lanes: seq<Lane>, moments: seq<Moment>, segments: seq<seq<Tx>>, rests: seq<seq<Tx>>)
    requires lanes != [] && ChecksAll(lanes, moments, segments, rests)
    ensures ChecksAll(lanes[1..], moments[1..], segments[1..], rests[1..])
  {
    hide Checks;
    forall i | 0 <= i < |lanes[1..]|
      ensures Checks(lanes[1..][i], moments[1..][i], rests[1..][i], segments[1..][i], rests[1..][i + 1], moments[1..][i + 1])
    {
      assert Checks(lanes[i + 1], moments[i + 1], rests[i + 1], segments[i + 1], rests[i + 2], moments[i + 2]);
    }
  }

  // ----- the bytes --------------------------------------------------------------------------------

  /** These bytes are the encodings of these transactions, in order. */
  ghost predicate Encodes(raw: seq<Bytes>, txs: seq<Tx>) {
    |raw| == |txs| && forall i :: 0 <= i < |txs| ==> txs[i].bytes == Some(raw[i])
  }

  lemma {:induction false} InfosEncode(codec: Codec, txs: seq<Tx>)
    requires InfosOf(codec, txs).Some?
    ensures Encodes(TxBytesOf(InfosOf(codec, txs).value), txs)
  {
    if txs != [] {
      InfosEncode(codec, txs[..|txs| - 1]);
      var infos := InfosOf(codec, txs).value;
      assert infos[..|infos| - 1] == InfosOf(codec, txs[..|txs| - 1]).value;
    }
  }

  lemma EncodesBoth(a: seq<Bytes>, b: seq<Bytes>, s: seq<Tx>, t: seq<Tx>)
    requires Encodes(a, s) && Encodes(b, t)
    ensures Encodes(a + b, s + t)
  {
  }

  /** The proposal the chain builds holds the encodings of what it included. */
  lemma {:induction false} ChainEncodes(lanes: seq<Lane>, st: State, p: Prop, before: seq<Tx>)
    requires Encodes(p.txs, before)
    ensures Encodes(PrepareChain(lanes, st, p).prop.txs, before + PrepareChain(lanes, st, p).included)
  {
    if lanes == [] {
      assert before + [] == before;
    } else {
      PrepareLaneIs(lanes[0], st, p);
      ContributedIs(lanes[0], st, p);
      hide Prepare, Update, InfosOf, Encodes;
      match PrepareLane(lanes[0], st, p)
      case LaneFailed => ChainEncodes(lanes[1..], st, p, before);
      case Contributed(p', st', included) =>
        InfosEncode(lanes[0].cfg.codec, included);
        UpdateAppends(p, lanes[0].cfg.name, lanes[0].cfg.ratio, InfosOf(lanes[0].cfg.codec, included).value);
        EncodesBoth(p.txs, TxBytesOf(InfosOf(lanes[0].cfg.codec, included).value), before, included);
        ChainEncodes(lanes[1..], st', p', before + included);
        var rest := PrepareChain(lanes[1..], st', p').included;
        assert (before + included) + rest == before + (included + rest);
    }
  }

  lemma UpdateAppends(p: Prop, lane: string, ratio: Ratio, infos: seq<TxWithInfo>)
    requires Update(p, lane, ratio, infos).Some?
    ensures Update(p, lane, ratio, infos).value.txs == p.txs + TxBytesOf(infos)
  {
  }

  // ----- everything fits --------------------------------------------------------------------------

  ghost predicate CanPass(cfg: LaneConfig, st: State, tx: Tx) {
    exists after :: Passes(cfg, st, tx, after)
  }

  ghost predicate AlwaysPasses(cfg: LaneConfig) {
    forall st: State, tx: Tx :: CanPass(cfg, st, tx)
  }

  /** The gas of all transactions in the pool. */
  function PoolGas(lane: Lane): nat {
    var infos := InfosOf(lane.cfg.codec, lane.pool);
    if infos.Some? then TotalGas(infos.value) else 0
  }

  function PoolsGas(lanes: seq<Lane>): nat {
    if lanes == [] then 0 else PoolGas(lanes[0]) + PoolsGas(lanes[1..])
  }

  /** A default lane whose whole pool is readable, its own, passes its ante handler, and is within the
      lane's share of the block when it has one. */
  ghost predicate LaneHasRoom(lane: Lane, maxBlockSize: int64, maxGasLimit: uint64) {
    && lane.cfg.handlers.DefaultHandlers? && AlwaysPasses(lane.cfg)
    && (forall k :: 0 <= k < |lane.pool| ==> GetTxInfo(lane.cfg.codec, lane.pool[k]).Some? && lane.cfg.matches(lane.pool[k]))
    && (lane.cfg.ratio != 0 ==>
          && PoolSize(lane) * PRECISION <= lane.cfg.ratio * maxBlockSize
          && PoolGas(lane) * PRECISION <= lane.cfg.ratio * maxGasLimit)
  }

  ghost predicate SameHash(a: Lane, b: Lane, k: nat, l: nat)
    requires k < |a.pool| && l < |b.pool|
  {
    a.cfg.codec == b.cfg.codec
    && GetTxInfo(a.cfg.codec, a.pool[k]).Some? && GetTxInfo(b.cfg.codec, b.pool[l]).Some?
    && GetTxInfo(a.cfg.codec, a.pool[k]).value.hash == GetTxInfo(b.cfg.codec, b.pool[l]).value.hash
  }

  /** No two lanes hold transactions with the same hash. */
  ghost predicate OwnHashes(lanes: seq<Lane>) {
    forall i, j, k: nat, l: nat :: 0 <= i < j < |lanes| && k < |lanes[i].pool| && l < |lanes[j].pool| ==> !SameHash(lanes[i], lanes[j], k, l)
  }

  /** Everything in the pools fits the block, lane by lane and all together. */
  ghost predicate EverythingFits(lanes: seq<Lane>, maxBlockSize: int64, maxGasLimit: uint64) {
    && OwnNames(lanes) && OwnHashes(lanes)
    && (forall i :: 0 <= i < |lanes| ==> LaneHasRoom(lanes[i], maxBlockSize, maxGasLimit))
    && PoolsSize(lanes) <= maxBlockSize && PoolsGas(lanes) <= maxGasLimit
  }

  /** What is left to do fits what is left of the block. */
  ghost predicate RestFits(lanes: seq<Lane>, p: Prop) {
    && 0 <= p.blockSize && p.blockSize + PoolsSize(lanes) <= p.maxBlockSize && p.gasLimit + PoolsGas(lanes) <= p.maxGasLimit
    && (forall i :: 0 <= i < |lanes| ==> LaneHasRoom(lanes[i], p.maxBlockSize, p.maxGasLimit) && lanes[i].cfg.name !in p.txsByLane)
    && (forall i, k :: 0 <= i < |lanes| && 0 <= k < |lanes[i].pool| ==> NewTo(lanes[i].cfg.codec, p, lanes[i].pool[k]))
  }

  ghost predicate NewTo(codec: Codec, p: Prop, tx: Tx) {
    GetTxInfo(codec, tx).Some? ==> GetTxInfo(codec, tx).value.hash !in p.cache
  }

  function AllPools(lanes: seq<Lane>): seq<Tx> {
    if lanes == [] then [] else lanes[0].pool + AllPools(lanes[1..])
  }

  /** A pool that fits is included whole when the ante handler lets everything pass. */
  lemma {:induction false} GreedyTakesAll(cfg: LaneConfig, p: Prop, limit: LaneLimits, pool: seq<Tx>, size: int64, gas: uint64, st: State)
    requires 0 <= size && PoolFits(cfg, p, limit, pool, size, gas) && AlwaysPasses(cfg)
    ensures Greedy(cfg, p, limit, pool, size, gas, st).Selected? && Greedy(cfg, p, limit, pool, size, gas, st).include_ == pool
  {
    hide *;
    GreedyStep(cfg, p, limit, pool, size, gas, st);
    if pool != [] {
      FirstFits(cfg, p, limit, pool, size, gas);
      var info := GetTxInfo(cfg.codec, pool[0]).value;
      var after := FirstPasses(cfg, p, limit, pool, size, gas, st);
      GreedyTakesAll(cfg, p, limit, pool[1..], size + info.size, gas + info.gasLimit, after);
      assert pool == [pool[0]] + pool[1..];
    }
  }

  lemma FirstPasses(cfg: LaneConfig, p: Prop, limit: LaneLimits, pool: seq<Tx>, size: int64, gas: uint64, st: State) returns (after: State)
    requires pool != [] && 0 <= size && PoolFits(cfg, p, limit, pool, size, gas) && AlwaysPasses(cfg)
    ensures GetTxInfo(cfg.codec, pool[0]).Some?
    ensures var info := GetTxInfo(cfg.codec, pool[0]).value;
            && Judge(cfg, p, limit, pool[0], size, gas, st) == Take(info, after)
            && size + info.size == WrapInt64(size + info.size) && gas + info.gasLimit == WrapUint64(gas + info.gasLimit)
  {
    FirstFits(cfg, p, limit, pool, size, gas);
    assert Admissible(cfg, p, limit, pool[0]);
    hide PoolFits, AlwaysPasses, VerifyTx;
    after := AnteTakes(cfg, st, pool[0]);
  }

  lemma AnteTakes(cfg: LaneConfig, st: State, tx: Tx) returns (after: State)
    requires AlwaysPasses(cfg)
    ensures VerifyTx(cfg, st, tx) == Passed(after)
  {
    assert CanPass(cfg, st, tx);
    after :| Passes(cfg, st, tx, after);
  }

  lemma {:induction false} AllReadable(codec: Codec, txs: seq<Tx>)
    requires forall k :: 0 <= k < |txs| ==> GetTxInfo(codec, txs[k]).Some?
    ensures InfosOf(codec, txs).Some?
  {
    if txs != [] { AllReadable(codec, txs[..|txs| - 1]); }
  }

  /** Sizes and gas of the lane's pool, within what the lane may take at its turn. */
  lemma WithinLimit(lane: Lane, p: Prop, others: nat, otherGas: nat)
    requires LaneHasRoom(lane, p.maxBlockSize, p.maxGasLimit) && 0 <= p.blockSize
    requires p.blockSize + PoolSize(lane) + others <= p.maxBlockSize && p.gasLimit + PoolGas(lane) + otherGas <= p.maxGasLimit
    ensures PoolSize(lane) <= GetLaneLimits(p, lane.cfg.ratio).maxTxBytes && PoolGas(lane) <= GetLaneLimits(p, lane.cfg.ratio).maxGasLimit
  {
    hide PoolSize, PoolGas, AlwaysPasses;
    if lane.cfg.ratio != 0 {
      BelowShare(lane.cfg.ratio, p.maxBlockSize, PoolSize(lane));
      BelowShare(lane.cfg.ratio, p.maxGasLimit, PoolGas(lane));
    }
  }

  /** A lane's turn when everything fits: its whole pool goes in. */
  lemma TakesItsPool(lane: Lane, st: State, p: Prop, others: nat, otherGas: nat)
    requires LaneHasRoom(lane, p.maxBlockSize, p.maxGasLimit) && 0 <= p.blockSize && lane.cfg.name !in p.txsByLane
    requires p.blockSize + PoolSize(lane) + others <= p.maxBlockSize && p.gasLimit + PoolGas(lane) + otherGas <= p.maxGasLimit
    requires forall k :: 0 <= k < |lane.pool| ==> NewTo(lane.cfg.codec, p, lane.pool[k])
    ensures InfosOf(lane.cfg.codec, lane.pool).Some?
    ensures PrepareLane(lane, st, p).Contributed? && PrepareLane(lane, st, p).included == lane.pool
    ensures Some(PrepareLane(lane, st, p).prop) == Update(p, lane.cfg.name, lane.cfg.ratio, InfosOf(lane.cfg.codec, lane.pool).value)
    ensures var p' := PrepareLane(lane, st, p).prop;
            && p'.blockSize == p.blockSize + PoolSize(lane) && p'.gasLimit == p.gasLimit + PoolGas(lane)
  {
    var cfg, limit := lane.cfg, GetLaneLimits(p, lane.cfg.ratio);
    AllReadable(cfg.codec, lane.pool);
    SizeIsEncoded(cfg.codec, lane.pool);
    WithinLimit(lane, p, others, otherGas);
    var infos := InfosOf(cfg.codec, lane.pool).value;
    PoolIsAdmissible(lane, p);
    assert PoolFits(cfg, p, limit, lane.pool, 0, 0);
    GreedyTakesAll(cfg, p, limit, lane.pool, 0, 0, st);
    assert Prepare(lane, p, st) == PrepareBase(cfg, p, limit, lane.pool, st);
    PrepareLaneIs(lane, st, p);
    GreedyPassesLaneChecks(cfg, p, st, lane.pool);
    UpdateOfAll(lane, p, infos);
    ContributedIs(lane, st, p);
  }

  lemma ContributedIs(lane: Lane, st: State, p: Prop)
    ensures PrepareLane(lane, st, p).Contributed? ==> PrepareLane(lane, st, p).included == Prepare(lane, p, st).include_
  {
    hide Prepare;
  }

  lemma PoolIsAdmissible(lane: Lane, p: Prop)
    requires LaneHasRoom(lane, p.maxBlockSize, p.maxGasLimit) && InfosOf(lane.cfg.codec, lane.pool).Some?
    requires PoolSize(lane) <= GetLaneLimits(p, lane.cfg.ratio).maxTxBytes && PoolGas(lane) <= GetLaneLimits(p, lane.cfg.ratio).maxGasLimit
    requires forall k :: 0 <= k < |lane.pool| ==> NewTo(lane.cfg.codec, p, lane.pool[k])
    ensures forall k :: 0 <= k < |lane.pool| ==> Admissible(lane.cfg, p, GetLaneLimits(p, lane.cfg.ratio), lane.pool[k])
  {
    SizeIsEncoded(lane.cfg.codec, lane.pool);
    forall k | 0 <= k < |lane.pool| ensures Admissible(lane.cfg, p, GetLaneLimits(p, lane.cfg.ratio), lane.pool[k]) {
      assert NewTo(lane.cfg.codec, p, lane.pool[k]);
      PartOfTotals(lane.cfg.codec, lane.pool, k);
      hide GetLaneLimits, InfosOf, TotalSize, TotalGas, EncodedSize, AlwaysPasses;
    }
  }

  lemma {:induction false} PartOfTotals(codec: Codec, txs: seq<Tx>, k: nat)
    requires InfosOf(codec, txs).Some? && k < |txs|
    ensures GetTxInfo(codec, txs[k]).Some?
    ensures GetTxInfo(codec, txs[k]).value.size <= TotalSize(InfosOf(codec, txs).value)
    ensures GetTxInfo(codec, txs[k]).value.gasLimit <= TotalGas(InfosOf(codec, txs).value)
  {
    var infos, front := InfosOf(codec, txs).value, txs[..|txs| - 1];
    assert infos[..|infos| - 1] == InfosOf(codec, front).value;
    if k < |front| { PartOfTotals(codec, front, k); }
  }

  lemma UpdateOfAll(lane: Lane, p: Prop, infos: seq<TxWithInfo>)
    requires InfosOf(lane.cfg.codec, lane.pool) == Some(infos) && lane.cfg.handlers.DefaultHandlers?
    requires 0 <= p.blockSize && p.blockSize + PoolSize(lane) <= p.maxBlockSize && p.gasLimit + PoolGas(lane) <= p.maxGasLimit
    requires Update(p, lane.cfg.name, lane.cfg.ratio, infos).None?
             ==> infos != [] && !FitsBlock(p, WrapInt64(TotalSize(infos)), WrapUint64(TotalGas(infos)))
    ensures var r := Update(p, lane.cfg.name, lane.cfg.ratio, infos);
            && r.Some? && r.value.blockSize == p.blockSize + PoolSize(lane) && r.value.gasLimit == p.gasLimit + PoolGas(lane)
  {
    SizeIsEncoded(lane.cfg.codec, lane.pool);
    assert PoolSize(lane) == TotalSize(infos) && PoolGas(lane) == TotalGas(infos);
    hide *;
    UpdateOfInfos(p, lane.cfg.name, lane.cfg.ratio, infos);
  }

  lemma UpdateOfInfos(p: Prop, name: string, ratio: Ratio, infos: seq<TxWithInfo>)
    requires 0 <= p.blockSize && p.blockSize + TotalSize(infos) <= p.maxBlockSize && p.gasLimit + TotalGas(infos) <= p.maxGasLimit
    requires Update(p, name, ratio, infos).None? ==> infos != [] && !FitsBlock(p, WrapInt64(TotalSize(infos)), WrapUint64(TotalGas(infos)))
    ensures var r := Update(p, name, ratio, infos);
            && r.Some? && r.value.blockSize == p.blockSize + TotalSize(infos) && r.value.gasLimit == p.gasLimit + TotalGas(infos)
  {
    assert infos == [] ==> TotalSize(infos) == 0 && TotalGas(infos) == 0;
    hide TotalSize, TotalGas, FitsLane, Hashes, WrapInt64, WrapUint64, TxBytesOf;
    NoWrap(p, TotalSize(infos), TotalGas(infos));
  }

  lemma NoWrap(p: Prop, size: nat, gas: nat)
    requires 0 <= p.blockSize && p.blockSize + size <= p.maxBlockSize && p.gasLimit + gas <= p.maxGasLimit
    ensures WrapInt64(size) == size && WrapInt64(p.blockSize + WrapInt64(size)) == p.blockSize + size
    ensures WrapUint64(gas) == gas && WrapUint64(p.gasLimit + WrapUint64(gas)) == p.gasLimit + gas
  {
  }

  /** The later lanes' transactions are still new. */
  lemma StillNew(lanes: seq<Lane>, p: Prop, p': Prop)
    requires lanes != [] && RestFits(lanes, p) && OwnNames(lanes) && OwnHashes(lanes)
    requires InfosOf(lanes[0].cfg.codec, lanes[0].pool).Some?
    requires forall i :: 0 < i < |lanes| ==> lanes[i].cfg.codec == lanes[0].cfg.codec
    requires Update(p, lanes[0].cfg.name, lanes[0].cfg.ratio, InfosOf(lanes[0].cfg.codec, lanes[0].pool).value) == Some(p')
    requires p'.blockSize == p.blockSize + PoolSize(lanes[0]) && p'.gasLimit == p.gasLimit + PoolGas(lanes[0])
    ensures RestFits(lanes[1..], p')
  {
    var codec, infos := lanes[0].cfg.codec, InfosOf(lanes[0].cfg.codec, lanes[0].pool).value;
    UpdateAdds(p, lanes[0].cfg.name, lanes[0].cfg.ratio, infos);
    UpdateNames(p, p', lanes[0].cfg.name, lanes[0].cfg.ratio, infos);
    hide Update, LaneHasRoom, PoolSize, PoolGas, InfosOf;
    forall i, k | 0 <= i < |lanes[1..]| && 0 <= k < |lanes[1..][i].pool| ensures NewTo(lanes[1..][i].cfg.codec, p', lanes[1..][i].pool[k]) {
      var first, other := lanes[0], lanes[i + 1];
      assert NewTo(codec, p, other.pool[k]);
      forall at: nat | at < |first.pool| ensures !SameHash(first, other, at, k) {
      }
      hide NewTo, SameHash;
      NewBehind(first, other, k, p, p');
    }
    forall i | 0 <= i < |lanes[1..]|
      ensures LaneHasRoom(lanes[1..][i], p'.maxBlockSize, p'.maxGasLimit) && lanes[1..][i].cfg.name !in p'.txsByLane
    {
      assert lanes[1..][i] == lanes[i + 1] && lanes[i + 1].cfg.name != lanes[0].cfg.name;
    }
  }

  lemma NewBehind(first: Lane, other: Lane, k: nat, p: Prop, p': Prop)
    requires k < |other.pool| && first.cfg.codec == other.cfg.codec && InfosOf(first.cfg.codec, first.pool).Some?
    requires NewTo(other.cfg.codec, p, other.pool[k]) && forall at: nat :: at < |first.pool| ==> !SameHash(first, other, at, k)
    requires p'.cache == p.cache + Hashes(InfosOf(first.cfg.codec, first.pool).value)
    ensures NewTo(other.cfg.codec, p', other.pool[k])
  {
    var codec, tx := first.cfg.codec, other.pool[k];
    if GetTxInfo(codec, tx).Some? && GetTxInfo(codec, tx).value.hash in Hashes(InfosOf(codec, first.pool).value) {
      var at := HashAt(codec, first.pool, GetTxInfo(codec, tx).value.hash);
      assert SameHash(first, other, at, k);
    }
  }

  lemma UpdateNames(p: Prop, p': Prop, lane: string, ratio: Ratio, infos: seq<TxWithInfo>)
    requires Update(p, lane, ratio, infos) == Some(p')
    ensures p'.cache == p.cache + Hashes(infos) && p'.txsByLane.Keys <= p.txsByLane.Keys + {lane}
    ensures p'.maxGasLimit == p.maxGasLimit && p'.maxBlockSize == p.maxBlockSize
  {
  }

  lemma {:induction false} HashAt(codec: Codec, txs: seq<Tx>, hash: string) returns (at: nat)
    requires InfosOf(codec, txs).Some? && hash in Hashes(InfosOf(codec, txs).value)
    ensures at < |txs| && GetTxInfo(codec, txs[at]).Some? && GetTxInfo(codec, txs[at]).value.hash == hash
  {
    var infos, front, last := InfosOf(codec, txs).value, txs[..|txs| - 1], txs[|txs| - 1];
    assert infos == InfosOf(codec, front).value + [GetTxInfo(codec, last).value];
    HashesAdd(InfosOf(codec, front).value, [GetTxInfo(codec, last).value]);
    if GetTxInfo(codec, last).value.hash == hash {
      at := |txs| - 1;
    } else {
      at := HashAt(codec, front, hash);
    }
  }

  lemma {:induction false} RestIsIncluded(lanes: seq<Lane>, st: State, p: Prop)
    requires RestFits(lanes, p) && OwnNames(lanes) && OwnHashes(lanes)
    requires lanes != [] ==> SameCodec(lanes, lanes[0].cfg.codec)
    ensures PrepareChain(lanes, st, p).included == AllPools(lanes)
  {
    if lanes != [] {
      assert LaneHasRoom(lanes[0], p.maxBlockSize, p.maxGasLimit) && lanes[0].cfg.name !in p.txsByLane;
      TakesItsPool(lanes[0], st, p, PoolsSize(lanes[1..]), PoolsGas(lanes[1..]));
      var s := PrepareLane(lanes[0], st, p);
      StillNew(lanes, p, s.prop);
      TailOwn(lanes);
      hide PrepareLane, RestFits, OwnHashes, OwnNames, Update, InfosOf, LaneHasRoom, PoolSize, PoolGas;
      RestIsIncluded(lanes[1..], s.state, s.prop);
    }
  }

  lemma TailOwn(lanes: seq<Lane>)
    requires lanes != [] && OwnNames(lanes) && OwnHashes(lanes)
    ensures OwnNames(lanes[1..]) && OwnHashes(lanes[1..])
  {
    hide SameHash;
    forall i, j, k: nat, l: nat | 0 <= i < j < |lanes[1..]| && k < |lanes[1..][i].pool| && l < |lanes[1..][j].pool|
      ensures !SameHash(lanes[1..][i], lanes[1..][j], k, l)
    {
      assert !SameHash(lanes[i + 1], lanes[j + 1], k, l);
    }
  }

  /** When everything fits and the ante handlers let everything pass, the block is everything in the
      pools, in registry and selection order. */
  lemma EverythingIsIncluded(lanes: seq<Lane>, st: State, maxBlockSize: int64, maxGasLimit: uint64)
    requires EverythingFits(lanes, maxBlockSize, maxGasLimit)
    requires lanes != [] ==> SameCodec(lanes, lanes[0].cfg.codec)
    ensures PrepareChain(lanes, st, NewProposal(maxBlockSize, maxGasLimit)).included == AllPools(lanes)
  {
    assert RestFits(lanes, NewProposal(maxBlockSize, maxGasLimit)) by { hide LaneHasRoom, PoolsSize, PoolsGas; }
    hide EverythingFits, RestFits;
    RestIsIncluded(lanes, st, NewProposal(maxBlockSize, maxGasLimit));
  }
}
