/** The lanes an application creates: MEV, free and default lanes over one codec. Everything parity asks
    for holds of the mempool made from them. */
module AppLanes {
  import opened Types
  import opened Ranking
  import opened ConstantPriority
  import opened MempoolRuns
  import opened PriorityMempool
  import opened MevPriority
  import opened Proposals
  import opened LaneModel
  import opened MevHandlers
  import opened PoolSizes
  import opened Chain
  import opened SpacePartition
  import opened Lanes
  import opened LaneChain
  import opened LanedMempools
  import opened ProposalHandlers

  /** What the application supplies: its codec and ante handler, the free lane's matching, the coins
      library with the coin a transaction bids, and how the skip list treats equal keys. */
  datatype App = App(
    codec: Codec,
    ante: (State, Tx) -> AnteResult,
    isFree: Tx -> bool,
    syntax: CoinSyntax,
    coinOf: Tx -> Option<Coin>,
    replaceKey: bool)

  const FIFTH: Ratio := PRECISION / 5
  const MAX_TXS := 1000

  function MevLane(app: App): LaneConfig {
    LaneConfig("mev", FIFTH, tx => BidOf(tx).Some?, Some(app.ante), app.codec, MevTxPriority(app.syntax, app.coinOf), MevHandlers)
  }

  function FreeLane(app: App): LaneConfig {
    LaneConfig("free", FIFTH, app.isFree, Some(app.ante), app.codec, DefaultTxPriority(Priority.Constant(0)), DefaultHandlers)
  }

  function DefaultLane(app: App): LaneConfig {
    LaneConfig("default", 3 * FIFTH, _ => true, Some(app.ante), app.codec, DefaultTxPriority(Priority.Constant(0)), DefaultHandlers)
  }

  function PoolConfig(app: App, lane: LaneConfig): Config<Priority> {
    Config(lane.txPriority, MAX_TXS, None, app.replaceKey)
  }

  ghost predicate IsLane(lane: BaseLane, app: App, cfg: LaneConfig) {
    lane.cfg == cfg && lane.mempool.cfg == PoolConfig(app, cfg)
  }

  /** The registry, in the order the application lists its lanes. */
  ghost predicate IsAppRegistry(registry: seq<BaseLane>, app: App) {
    |registry| == 3 && IsLane(registry[0], app, MevLane(app)) && IsLane(registry[1], app, FreeLane(app)) && IsLane(registry[2], app, DefaultLane(app))
  }

  method NewLane(app: App, cfg: LaneConfig) returns (lane: BaseLane)
    requires PreorderOn(cfg.txPriority.compare, iset{cfg.txPriority.zeroValue, cfg.txPriority.minValue})
    ensures fresh(lane) && fresh(lane.mempool) && IsLane(lane, app, cfg)
    ensures lane.Valid() && lane.mempool.contents == map[]
  {
    var mempool := new PriorityNonceMempool(PoolConfig(app, cfg));
    lane := new BaseLane(cfg, mempool);
  }

  /** Names, shares, handlers and priorities of the three lanes are in order, and none is unlimited. */
  lemma AppShape(registry: seq<BaseLane>, app: App)
    requires IsAppRegistry(registry, app)
    ensures ValidRegistry(Names(Bare(registry)), Ratios(Bare(registry))) && StandardRegistry(registry)
    ensures forall i :: 0 <= i < |registry| ==>
              registry[i].cfg.codec == app.codec && registry[i].cfg.ratio != 0 && !registry[i].cfg.handlers.CustomHandlers?
  {
    hide StandardRegistry, ValidRegistry, Names, Ratios, Bare;
    AppIsStandard(registry, app);
    AppParts(registry, app);
    ThreeLanesAreValid();
  }

  lemma AppParts(registry: seq<BaseLane>, app: App)
    requires IsAppRegistry(registry, app)
    ensures Ratios(Bare(registry)) == [FIFTH, FIFTH, 3 * FIFTH] && Names(Bare(registry)) == ["mev", "free", "default"]
  {
    hide Names, Ratios, Bare;
  }

  lemma AppIsStandard(registry: seq<BaseLane>, app: App)
    requires IsAppRegistry(registry, app)
    ensures StandardRegistry(registry)
  {
    DefaultRanksAllTheSame(registry[1].mempool.cfg, iset{});
    DefaultRanksAllTheSame(registry[2].mempool.cfg, iset{});
    hide RanksAllTheSame;
  }

  lemma ThreeLanesAreValid()
    ensures ValidRegistry(["mev", "free", "default"], [FIFTH, FIFTH, 3 * FIFTH])
  {
    SharesOfTheBlock();
    NamesDiffer();
    hide SumRatios, DistinctNames;
  }

  lemma SharesOfTheBlock()
    ensures SumRatios([FIFTH, FIFTH, 3 * FIFTH]) == PRECISION
  {
    var one, two, three := [FIFTH], [FIFTH, FIFTH], [FIFTH, FIFTH, 3 * FIFTH];
    assert three[..2] == two && two[..1] == one && one[..0] == [];
    assert SumRatios(one) == FIFTH;
    assert SumRatios(two) == 2 * FIFTH;
    assert SumRatios(three) == 5 * FIFTH;
  }

  lemma NamesDiffer()
    ensures DistinctNames(["mev", "free", "default"])
  {
    var names := ["mev", "free", "default"];
    assert |names[0]| == 3 && |names[1]| == 4 && |names[2]| == 7;
    forall i, j | 0 <= i < j < |names| ensures names[i] != names[j] {
      assert |names[i]| < |names[j]|;
    }
  }

  lemma StartingPriorities(app: App)
    ensures forall cfg :: cfg in {MevLane(app), FreeLane(app), DefaultLane(app)} ==>
              PreorderOn(cfg.txPriority.compare, iset{cfg.txPriority.zeroValue, cfg.txPriority.minValue})
  {
    EmptyMempoolRanks(app.syntax, app.coinOf);
    DefaultIsConstant(Priority.Constant(0));
  }

  lemma ThreeReady(a: BaseLane, b: BaseLane, c: BaseLane)
    requires a.Valid() && b.Valid() && c.Valid()
    requires a.mempool != b.mempool && a.mempool != c.mempool && b.mempool != c.mempool
    ensures Ready([a, b, c])
  {
    hide BaseLane.Valid;
    assert [a, b, c][1..] == [b, c] && [b, c][1..] == [c] && [c][1..] == [];
    var none: seq<BaseLane> := [];
    assert Ready(none) && Pools(none) == {};
    assert Ready([c]) && Pools([c]) == {c.mempool};
    assert Ready([b, c]) && Pools([b, c]) == {b.mempool, c.mempool};
  }

  /** The application's mempool: validation accepts the three lanes, whose pools are empty. */
  method CreateMempool(app: App) returns (mempool: LanedMempool?)
    ensures mempool != null && fresh(mempool)
    ensures mempool.Valid() && IsAppRegistry(mempool.registry, app)
    ensures forall i :: 0 <= i < 3 ==> mempool.registry[i].mempool.contents == map[]
  {
    StartingPriorities(app);
    hide PreorderOn, MevLane, FreeLane, DefaultLane, PoolConfig, BaseLane.Valid, ValidRegistry, WellKept, StandardRegistry;
    var mev := NewLane(app, MevLane(app));
    var free := NewLane(app, FreeLane(app));
    var default_ := NewLane(app, DefaultLane(app));
    var registry := [mev, free, default_];
    AppShape(registry, app);
    EmptyIsKept(registry);
    ThreeReady(mev, free, default_);
    hide Ready, PoolContents;
    mempool := NewLanedMempool(registry);
  }

  /** What one node with these lanes answers to PrepareProposal, a node with the same pools and state
      accepts, for every request within what consensus allows: sizes need no further condition, because
      no lane is unlimited. */
  lemma AppNodesAgree(mempool: LanedMempool, app: App, custom: bool, st: State, height: int, txs: seq<Bytes>,
                      maxTxBytes: int64, consensusMaxBytes: int64, consensusMaxGas: int64)
    requires mempool.Valid() && IsAppRegistry(mempool.registry, app) && DecoderUndoesEncoder(app.codec)
    requires maxTxBytes <= consensusMaxBytes
    ensures ProcessResponse(custom, Views(mempool.registry), app.codec, st, height,
                            PrepareResponse(Views(mempool.registry), st, height, txs, maxTxBytes, consensusMaxGas),
                            consensusMaxBytes, consensusMaxGas)
  {
    AppShape(mempool.registry, app);
    ViewAt(mempool.registry);
    assert SizesAreSafe(Views(mempool.registry), maxTxBytes, consensusMaxBytes);
    hide Views, Ready, PoolContents, StandardRegistry, PrepareResponse, ProcessResponse, SizesAreSafe, DecoderUndoesEncoder;
    FilledRegistryAgrees(mempool, custom, st, height, txs, maxTxBytes, consensusMaxBytes, consensusMaxGas);
  }

  /** A decoded transaction can be inserted, the mempool keeping its invariant, whenever its bid, if it
      has one, is in the denomination of the bids already there. */
  lemma AppCanHold(mempool: LanedMempool, app: App, denom: string, tx: Tx)
    requires mempool.Valid() && IsAppRegistry(mempool.registry, app) && RoundTrips(app.codec, tx)
    requires var mev := mempool.registry[0].mempool; Occurring(mev.cfg.txPriority, mev.contents) <= BidsOver(app.syntax, {denom})
    requires BidOf(tx).Some? ==> Over(app.syntax, {denom}, BidText(app.syntax, app.coinOf, tx))
    ensures mempool.CanHold(tx)
  {
    var registry := mempool.registry;
    var at := Route(Bare(registry), tx);
    ReadyAll(registry);
    if at == 0 {
      assert BidOf(tx).Some?;
      BidCanBeRanked(registry[0].mempool, app.syntax, app.coinOf, denom, tx);
    } else if at < |registry| {
      var tp := registry[at].mempool.cfg.txPriority;
      DefaultRanksAllTheSame(registry[at].mempool.cfg, Mentioned(tp, registry[at].mempool.contents, Op.Insert(tx)));
    }
  }

  /** None of the three lanes is crowded out: when the ante handler does not panic and the pools' bytes
      fit an int64, each contributes to every new block. */
  lemma AppLanesContribute(mempool: LanedMempool, app: App, st: State, maxBlockSize: int64, maxGasLimit: uint64)
    requires IsAppRegistry(mempool.registry, app) && 0 <= maxBlockSize
    requires forall st': State, tx: Tx :: !app.ante(st', tx).Panicked?
    requires forall i :: 0 <= i < 3 ==> PoolSize(mempool.registry[i].View()) < TWO_TO_63
    ensures Survivors(Views(mempool.registry), st, NewProposal(maxBlockSize, maxGasLimit)) == Views(mempool.registry)
  {
    var lanes := Views(mempool.registry);
    ViewAt(mempool.registry);
    AppViews(mempool.registry, app, lanes);
    assert forall i :: 0 <= i < 3 ==> SelectionFits(lanes[i], maxBlockSize) by { hide PoolSize, Views; }
    UnlimitedLast(Ratios(lanes), maxBlockSize);
    UnlimitedLast(Ratios(lanes), maxGasLimit);
    assert NothingBehind(Ratios(lanes), NewProposal(maxBlockSize, maxGasLimit)) by { hide NothingBehindUnlimited; }
    hide *;
    EveryLaneContributes(lanes, st, maxBlockSize, maxGasLimit);
  }

  lemma AppViews(registry: seq<BaseLane>, app: App, lanes: seq<Lane>)
    requires IsAppRegistry(registry, app)
    requires |lanes| == 3 && forall i :: 0 <= i < 3 ==> lanes[i].cfg == registry[i].cfg
    requires forall st: State, tx: Tx :: !app.ante(st, tx).Panicked?
    ensures OwnNames(lanes) && Ratios(lanes) == [FIFTH, FIFTH, 3 * FIFTH] && SumRatios(Ratios(lanes)) <= PRECISION
    ensures forall i :: 0 <= i < 3 ==> !lanes[i].cfg.handlers.CustomHandlers? && NeverPanics(lanes[i].cfg)
  {
    SharesOfTheBlock();
    AppNames(lanes, ["mev", "free", "default"]);
    forall i | 0 <= i < 3 ensures !lanes[i].cfg.handlers.CustomHandlers? && NeverPanics(lanes[i].cfg) {
      AnteNeverPanics(app, lanes[i].cfg);
    }
    hide *;
    assert Ratios(lanes) == [FIFTH, FIFTH, 3 * FIFTH];
  }

  lemma AnteNeverPanics(app: App, cfg: LaneConfig)
    requires cfg.ante == Some(app.ante) && forall st: State, tx: Tx :: !app.ante(st, tx).Panicked?
    ensures NeverPanics(cfg)
  {
  }

  lemma AppNames(lanes: seq<Lane>, names: seq<string>)
    requires |lanes| == 3 && names == ["mev", "free", "default"]
    requires lanes[0].cfg.name == "mev" && lanes[1].cfg.name == "free" && lanes[2].cfg.name == "default"
    ensures OwnNames(lanes)
  {
    NamesDiffer();
    forall i, j | 0 <= i < j < |lanes| ensures lanes[i].cfg.name != lanes[j].cfg.name {
      assert lanes[i].cfg.name == names[i] && lanes[j].cfg.name == names[j];
    }
  }
}
