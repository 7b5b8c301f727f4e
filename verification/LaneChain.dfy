/** BaseLane's PrepareLane and ProcessLane and the chains built from them, with cached contexts,
    recovery from failing lanes, and a proposal whose maps are shared by every copy. */
module LaneChain {
  import opened Types
  import opened PriorityIndex
  import opened Iteration
  import opened Ranking
  import opened MempoolRuns
  import opened PriorityMempool
  import opened Proposals
  import opened LaneModel
  import opened BaseHandlers
  import opened Fates
  import opened Bids
  import opened MevHandlers
  import opened Chain
  import opened Lanes
  import DefaultHandler
  import MevHandler

  /** The lanes as their handlers see them now. */
  ghost function Views(chain: seq<BaseLane>): (r: seq<Lane>)
    reads Pools(chain)
    ensures |r| == |chain|
  {
    if chain == [] then []
    else
      PoolsSplit(chain);
      [chain[0].View()] + Views(chain[1..])
  }

  ghost function Pools(chain: seq<BaseLane>): set<PriorityNonceMempool<Priority>> {
    set i | 0 <= i < |chain| :: chain[i].mempool
  }

  /** Every lane is consistent, and no two lanes share a mempool. */
  ghost predicate Ready(chain: seq<BaseLane>)
    reads Pools(chain)
  {
    chain == [] || (
      PoolsSplit(chain);
      chain[0].Valid() && chain[0].mempool !in Pools(chain[1..]) && Ready(chain[1..]))
  }

  lemma PoolsSplit(chain: seq<BaseLane>)
    requires chain != []
    ensures Pools(chain) == {chain[0].mempool} + Pools(chain[1..])
  {
    forall o | o in {chain[0].mempool} + Pools(chain[1..]) ensures o in Pools(chain) {
      if o != chain[0].mempool {
        var i :| 0 <= i < |chain[1..]| && o == chain[1..][i].mempool;
        assert o == chain[i + 1].mempool;
      }
    }
    forall o | o in Pools(chain) ensures o in {chain[0].mempool} + Pools(chain[1..]) {
      var i :| 0 <= i < |chain| && o == chain[i].mempool;
      if i > 0 { assert o == chain[1..][i - 1].mempool; }
    }
  }

  /** What each lane stores, as plain maps in registry order. */
  ghost function PoolContents(chain: seq<BaseLane>): (r: seq<map<Id, Tx>>)
    reads Pools(chain)
    ensures |r| == |chain| && forall i :: 0 <= i < |r| ==> r[i] == chain[i].mempool.Pool()
  {
    if chain == [] then []
    else
      PoolsSplit(chain);
      [chain[0].mempool.Pool()] + PoolContents(chain[1..])
  }

  /** What a chain builds: its first lane's part, then the rest of the chain. */
  ghost function FirstThenRest(view: Lane, rest: seq<Lane>, st: State, p: Prop): Built {
    match PrepareLane(view, st, p)
    case LaneFailed => PrepareChain(rest, st, p)
    case Contributed(p', st', _) => PrepareChain(rest, st', p')
  }

  lemma ChainFirst(view: Lane, rest: seq<Lane>, st: State, p: Prop)
    ensures var all, r := PrepareChain([view] + rest, st, p), FirstThenRest(view, rest, st, p);
            all.prop == r.prop && all.state == r.state
  {
    assert ([view] + rest)[1..] == rest;
  }

  lemma AfterFirst(view: Lane, rest: seq<Lane>, pool: map<Id, Tx>, pools: seq<map<Id, Tx>>, st: State, p: Prop)
    requires |rest| == |pools|
    ensures PoolsAfter([view] + rest, [pool] + pools, st, p) == [OneAfter(view, pool, st, p)] + RestAfter(view, rest, pools, st, p)
  {
    assert ([view] + rest)[1..] == rest && ([pool] + pools)[1..] == pools;
    hide OneAfter, RestAfter;
  }

  // ----- building -------------------------------------------------------------------------

  /** The prepare handler the lane is configured with. */
  method RunPrepareHandler(lane: BaseLane, ctx: Context, p: Proposal, limit: LaneLimits) returns (include_: seq<Tx>, remove: seq<Tx>, failed: bool)
    requires lane.Valid() && limit == GetLaneLimits(p.Value(), lane.cfg.ratio)
    modifies ctx, lane.mempool
    ensures lane.Valid() && lane.mempool.Pool() == old(lane.mempool.Pool())
    ensures Prepare(old(lane.View()), old(p.Value()), old(ctx.state))
         == if failed then PrepareFailed else Selected(include_, remove, ctx.state)
  {
    match lane.cfg.handlers
    case DefaultHandlers => include_, remove, failed := DefaultHandler.PrepareLaneHandler(lane, ctx, p, limit);
    case MevHandlers => include_, remove, failed := MevHandler.PrepareLaneHandler(lane, ctx, p, limit);
    case CustomHandlers(prepare, _) =>
      var pool := CollectPool(lane);
      match prepare(ctx.state, p.Value(), limit, pool)
      case PrepareFailed => return [], [], true;
      case Selected(i, r, st) =>
        include_, remove, failed := i, r, false;
        ctx.state := st;
  }

  /** Everything the lane's mempool selects, for a handler supplied by the application. */
  method CollectPool(lane: BaseLane) returns (pool: seq<Tx>)
    requires lane.Valid()
    modifies lane.mempool
    ensures lane.Valid() && lane.mempool.Pool() == old(lane.mempool.Pool())
    ensures pool == old(lane.mempool.SelectedTxs())
  {
    hide Consistent, Yields, PriorityNonceMempool.Valid, PriorityNonceMempool.Pool, PriorityNonceMempool.SelectedTxs, Step, StepContents;
    pool := [];
    ghost var rest := lane.mempool.SelectedTxs();
    var it := lane.mempool.Select();
    while it != null
      invariant it != null ==> fresh(it)
      invariant lane.Valid() && lane.mempool.Pool() == old(lane.mempool.Pool()) && Yields(it, lane.mempool, rest)
      invariant pool + rest == old(lane.mempool.SelectedTxs())
      decreases |rest|
    {
      DefaultHandler.YieldsMempool(it, lane.mempool, rest);
      var tx := Read(it, rest);
      assert pool + rest == pool + [tx] + rest[1..];
      pool := pool + [tx];
      it := MoveOn(it, rest);
      rest := rest[1..];
    }
    DefaultHandler.YieldsNothing(lane.mempool, rest);
  }

  /** A plain pool after removing these transactions by sender and nonce, up to the first one without
      a signer. */
  function Without(pool: map<Id, Tx>, txs: seq<Tx>): map<Id, Tx> {
    if txs == [] || TxId(txs[0]).None? then pool else Without(pool - {TxId(txs[0]).value}, txs[1..])
  }

  /** When all are signed, exactly their senders and nonces are gone. */
  lemma {:induction false} WithoutAll(pool: map<Id, Tx>, txs: seq<Tx>)
    requires forall i :: 0 <= i < |txs| ==> TxId(txs[i]).Some?
    ensures Without(pool, txs) == pool - set i | 0 <= i < |txs| :: TxId(txs[i]).value
  {
    if txs != [] {
      var rest := txs[1..];
      WithoutAll(pool - {TxId(txs[0]).value}, rest);
      var gone, later := set i | 0 <= i < |txs| :: TxId(txs[i]).value, set i | 0 <= i < |rest| :: TxId(rest[i]).value;
      forall id ensures id in gone <==> id == TxId(txs[0]).value || id in later {
        if id in gone && id != TxId(txs[0]).value {
          var i :| 0 <= i < |txs| && id == TxId(txs[i]).value;
          assert rest[i - 1] == txs[i];
        }
        if id in later {
          var i :| 0 <= i < |rest| && id == TxId(rest[i]).value;
          assert txs[i + 1] == rest[i];
        }
      }
    }
  }

  /** Nothing was added, nothing was replaced. */
  ghost predicate Shrinks(before: map<Id, Tx>, after: map<Id, Tx>) {
    forall id :: id in after ==> id in before && after[id] == before[id]
  }

  ghost predicate AllShrink(before: seq<map<Id, Tx>>, after: seq<map<Id, Tx>>) {
    |before| == |after| && forall i :: 0 <= i < |before| ==> Shrinks(before[i], after[i])
  }

  lemma ShrinksCons(before: seq<map<Id, Tx>>, after: seq<map<Id, Tx>>)
    requires before != [] && after != [] && Shrinks(before[0], after[0]) && AllShrink(before[1..], after[1..])
    ensures AllShrink(before, after)
  {
    hide Shrinks;
    forall i | 0 <= i < |before| ensures Shrinks(before[i], after[i]) {
      if i > 0 { assert Shrinks(before[1..][i - 1], after[1..][i - 1]); }
    }
  }

  /** RemoveTxsFromLane: stops at a transaction without a signer, which no pool holds. */
  method RemoveTxsFromLane(lane: BaseLane, txs: seq<Tx>)
    requires lane.Valid()
    modifies lane.mempool
    ensures lane.Valid() && Shrinks(old(lane.mempool.Pool()), lane.mempool.Pool())
    ensures lane.mempool.Pool() == Without(old(lane.mempool.Pool()), txs)
  {
    hide Consistent;
    var i := 0;
    while i < |txs|
      invariant i <= |txs| && lane.Valid() && Shrinks(old(lane.mempool.Pool()), lane.mempool.Pool())
      invariant Without(lane.mempool.Pool(), txs[i..]) == Without(old(lane.mempool.Pool()), txs)
    {
      assert txs[i..][1..] == txs[i + 1..];
      if txs[i].signers.None? || |txs[i].signers.value| == 0 { return; }
      var _ := lane.mempool.Remove(txs[i]);
      i := i + 1;
    }
  }

  /** GetTxInfo of every transaction, stopping at the first failure. */
  method CollectInfos(lane: BaseLane, txs: seq<Tx>) returns (infos: Option<seq<TxWithInfo>>)
    ensures infos == InfosOf(lane.cfg.codec, txs)
  {
    var all: seq<TxWithInfo> := [];
    for i := 0 to |txs|
      invariant InfosOf(lane.cfg.codec, txs[..i]) == Some(all)
    {
      var info := GetTxInfo(lane.cfg.codec, txs[i]);
      assert txs[..i + 1][..i] == txs[..i];
      if info.None? {
        InfosSplit(lane.cfg.codec, txs[..i + 1], txs[i + 1..]);
        assert txs == txs[..i + 1] + txs[i + 1..];
        return None;
      }
      all := all + [info.value];
    }
    assert txs[..|txs|] == txs;
    infos := Some(all);
  }

  /** Everything a lane selects is stored in its pool. */
  lemma SelectsStored(lane: BaseLane, k: nat)
    requires lane.Valid() && k < |lane.mempool.SelectedTxs()|
    ensures exists id :: id in lane.mempool.Pool() && lane.mempool.Pool()[id] == lane.mempool.SelectedTxs()[k]
  {
    var tp, ix, m := lane.mempool.cfg.txPriority, lane.mempool.State(), lane.mempool.contents;
    SelectedOccurs(tp, ix, m, k);
    hide Agree, Selection;
    var id := IdOf(Selection(tp, ix)[k].key);
    assert id in lane.mempool.Pool() && lane.mempool.Pool()[id] == lane.mempool.SelectedTxs()[k];
  }

  /** What a default or MEV handler removes is stored in the lane's pool, so it has a signer and
      removing it never stops early: exactly the senders and nonces of what it removes are gone. */
  lemma RemovedAreSigned(lane: BaseLane, p: Prop, st: State)
    requires lane.Valid() && !lane.cfg.handlers.CustomHandlers? && Prepare(lane.View(), p, st).Selected?
    ensures var remove := Prepare(lane.View(), p, st).remove;
            && (forall i :: 0 <= i < |remove| ==> TxId(remove[i]).Some?)
            && Without(lane.mempool.Pool(), remove) == lane.mempool.Pool() - set i | 0 <= i < |remove| :: TxId(remove[i]).value
  {
    var pool, limit, remove := lane.mempool.SelectedTxs(), GetLaneLimits(p, lane.cfg.ratio), Prepare(lane.View(), p, st).remove;
    SelectedAreSigned(lane);
    hide Greedy, TxId, PriorityNonceMempool.SelectedTxs, BaseLane.Valid;
    if lane.cfg.handlers.DefaultHandlers? {
      var marks := GreedyPartitions(lane.cfg, p, limit, pool, 0, 0, st);
      forall i | 0 <= i < |remove| ensures TxId(remove[i]).Some? {
        var k := PickedFrom(pool, marks, Removed, i);
      }
    } else {
      var at := FirstValidBidWins(lane.cfg, p, limit, pool, st);
    }
    WithoutAll(lane.mempool.Pool(), remove);
  }

  lemma SelectedAreSigned(lane: BaseLane)
    requires lane.Valid()
    ensures forall k :: 0 <= k < |lane.mempool.SelectedTxs()| ==> TxId(lane.mempool.SelectedTxs()[k]).Some?
  {
    forall k | 0 <= k < |lane.mempool.SelectedTxs()| ensures TxId(lane.mempool.SelectedTxs()[k]).Some? {
      SelectsStored(lane, k);
      var id :| id in lane.mempool.Pool() && lane.mempool.Pool()[id] == lane.mempool.SelectedTxs()[k];
      assert NamedAt(lane.mempool.cfg.txPriority, lane.mempool.contents, id);
    }
  }

  // ----- what stays in the pool -----------------------------------------------------------------

  /** One of these transactions is signed first by this sender with this nonce. */
  ghost predicate SignedAmong(txs: seq<Tx>, id: Id) {
    exists k :: 0 <= k < |txs| && SignedFirstBy(txs[k], id)
  }

  ghost function WithoutThese(before: map<Id, Tx>, txs: seq<Tx>): map<Id, Tx> {
    map id | id in before && !SignedAmong(txs, id) :: before[id]
  }

  /** A default lane loses exactly what its handler discards, and nothing when the handler panics. */
  ghost predicate LosesDiscarded(cfg: LaneConfig, p: Prop, st: State, selected: seq<Tx>, before: map<Id, Tx>, after: map<Id, Tx>) {
    exists marks :: Decided(cfg, p, GetLaneLimits(p, cfg.ratio), st, selected, marks)
                    && after == if |marks| == |selected| then WithoutThese(before, Pick(selected, marks, Removed)) else before
  }

  /** An MEV lane loses exactly the bids ahead of the first valid one, and nothing when one panics first. */
  ghost predicate LosesInvalidBids(cfg: LaneConfig, p: Prop, st: State, selected: seq<Tx>, before: map<Id, Tx>, after: map<Id, Tx>) {
    exists at: nat :: FirstGoodBid(cfg, p, GetLaneLimits(p, cfg.ratio), st, selected, at)
                      && after == if at < |selected| && IsPanicking(cfg, p, GetLaneLimits(p, cfg.ratio), st, selected[at]) then before
                                  else WithoutThese(before, selected[..at])
  }

  ghost predicate FirstGoodBid(cfg: LaneConfig, p: Prop, limit: LaneLimits, st: State, selected: seq<Tx>, at: nat) {
    && at <= |selected|
    && (forall i :: 0 <= i < at ==> !IsValid(cfg, p, limit, st, selected[i]) && !IsPanicking(cfg, p, limit, st, selected[i]))
    && (at < |selected| ==> IsValid(cfg, p, limit, st, selected[at]) || IsPanicking(cfg, p, limit, st, selected[at]))
  }

  /** Removing signed transactions takes out exactly what is stored under their first signatures. */
  lemma WithoutSigned(before: map<Id, Tx>, remove: seq<Tx>)
    requires forall i :: 0 <= i < |remove| ==> TxId(remove[i]).Some?
    ensures Without(before, remove) == WithoutThese(before, remove)
  {
    WithoutAll(before, remove);
    forall id, k | 0 <= k < |remove| ensures SignedFirstBy(remove[k], id) <==> TxId(remove[k]) == Some(id) {
    }
  }

  lemma DefaultLoses(cfg: LaneConfig, p: Prop, st: State, selected: seq<Tx>, before: map<Id, Tx>)
    requires var r := PrepareBase(cfg, p, GetLaneLimits(p, cfg.ratio), selected, st);
             r.Selected? ==> forall i :: 0 <= i < |r.remove| ==> TxId(r.remove[i]).Some?
    ensures var r := PrepareBase(cfg, p, GetLaneLimits(p, cfg.ratio), selected, st);
            LosesDiscarded(cfg, p, st, selected, before, if r.PrepareFailed? then before else Without(before, r.remove))
  {
    hide Decided, Greedy, TxId, Without, WithoutThese, FitsAlone, UpToAnte;
    var r := PrepareBase(cfg, p, GetLaneLimits(p, cfg.ratio), selected, st);
    var marks := EveryFate(cfg, p, GetLaneLimits(p, cfg.ratio), selected, st);
    if r.Selected? { WithoutSigned(before, r.remove); }
  }

  lemma MevLoses(cfg: LaneConfig, p: Prop, st: State, selected: seq<Tx>, before: map<Id, Tx>)
    requires var r := PrepareMev(cfg, p, GetLaneLimits(p, cfg.ratio), selected, st);
             r.Selected? ==> forall i :: 0 <= i < |r.remove| ==> TxId(r.remove[i]).Some?
    ensures var r := PrepareMev(cfg, p, GetLaneLimits(p, cfg.ratio), selected, st);
            LosesInvalidBids(cfg, p, st, selected, before, if r.PrepareFailed? then before else Without(before, r.remove))
  {
    hide PrepareMev, IsValid, IsPanicking, ValidBid, TxId, Without, WithoutThese;
    var limit := GetLaneLimits(p, cfg.ratio);
    var r := PrepareMev(cfg, p, limit, selected, st);
    var at := FirstValidBidIsIncluded(cfg, p, limit, selected, st);
    assert FirstGoodBid(cfg, p, limit, st, selected, at);
    assert selected[..|selected|] == selected;
    hide FirstGoodBid;
    if r.Selected? { WithoutSigned(before, r.remove); }
  }

  /** What a lane's part leaves in its pool, by the kind of lane. */
  lemma PartLoses(lane: BaseLane, p: Prop, st: State)
    requires lane.Valid()
    ensures var r, before := Prepare(lane.View(), p, st), lane.mempool.Pool();
            var after := if r.PrepareFailed? then before else Without(before, r.remove);
            && (lane.cfg.handlers.DefaultHandlers? ==> LosesDiscarded(lane.cfg, p, st, lane.mempool.SelectedTxs(), before, after))
            && (lane.cfg.handlers.MevHandlers? ==> LosesInvalidBids(lane.cfg, p, st, lane.mempool.SelectedTxs(), before, after))
  {
    if !lane.cfg.handlers.CustomHandlers? && Prepare(lane.View(), p, st).Selected? { RemovedAreSigned(lane, p, st); }
    hide LosesDiscarded, LosesInvalidBids, BaseLane.Valid, PriorityNonceMempool.SelectedTxs, PriorityNonceMempool.Pool, PrepareBase, PrepareMev,
         TxId, Without;
    if lane.cfg.handlers.DefaultHandlers? { DefaultLoses(lane.cfg, p, st, lane.mempool.SelectedTxs(), lane.mempool.Pool()); }
    if lane.cfg.handlers.MevHandlers? { MevLoses(lane.cfg, p, st, lane.mempool.SelectedTxs(), lane.mempool.Pool()); }
  }

  /** After the handler the lane's pool is the old one minus what the handler removed; a failed
      handler removes nothing. */
  ghost predicate Cleaned(before: map<Id, Tx>, after: map<Id, Tx>, r: PrepareResult) {
    after == if r.PrepareFailed? then before else Without(before, r.remove)
  }

  /** A lane's pool after its handler. */
  ghost function OneAfter(view: Lane, pool: map<Id, Tx>, st: State, p: Prop): map<Id, Tx> {
    var r := Prepare(view, p, st);
    if r.PrepareFailed? then pool else Without(pool, r.remove)
  }

  /** All pools after the chain: each lane's handler has run from where the lanes before it left off. */
  ghost function PoolsAfter(views: seq<Lane>, pools: seq<map<Id, Tx>>, st: State, p: Prop): (r: seq<map<Id, Tx>>)
    requires |views| == |pools|
    ensures |r| == |pools|
    decreases |views|, 0
  {
    if views == [] then [] else [OneAfter(views[0], pools[0], st, p)] + RestAfter(views[0], views[1..], pools[1..], st, p)
  }

  ghost function RestAfter(view: Lane, rest: seq<Lane>, pools: seq<map<Id, Tx>>, st: State, p: Prop): (r: seq<map<Id, Tx>>)
    requires |rest| == |pools|
    ensures |r| == |pools|
    decreases |rest|, 1
  {
    match PrepareLane(view, st, p)
    case LaneFailed => PoolsAfter(rest, pools, st, p)
    case Contributed(p', st', _) => PoolsAfter(rest, pools, st', p')
  }

  /** One lane's own part of PrepareLane. When it fails, the proposal, its shared maps and the other
      lanes are as they were. */
  method PrepareOwnPart(lane: BaseLane, ctx: Context, p: Proposal) returns (r: Proposal, failed: bool)
    requires lane.Valid()
    modifies ctx, p.maps, lane.mempool
    ensures lane.Valid() && r.maps == p.maps && Shrinks(old(lane.mempool.Pool()), lane.mempool.Pool())
    ensures match PrepareLane(old(lane.View()), old(ctx.state), old(p.Value()))
            case LaneFailed => failed && r == p && p.Value() == old(p.Value())
            case Contributed(p', st', _) => !failed && r.Value() == p' && ctx.state == st'
    ensures Cleaned(old(lane.mempool.Pool()), lane.mempool.Pool(), Prepare(old(lane.View()), old(p.Value()), old(ctx.state)))
    ensures lane.cfg.handlers.DefaultHandlers? ==>
              LosesDiscarded(lane.cfg, old(p.Value()), old(ctx.state), old(lane.mempool.SelectedTxs()), old(lane.mempool.Pool()), lane.mempool.Pool())
    ensures lane.cfg.handlers.MevHandlers? ==>
              LosesInvalidBids(lane.cfg, old(p.Value()), old(ctx.state), old(lane.mempool.SelectedTxs()), old(lane.mempool.Pool()), lane.mempool.Pool())
  {
    PartLoses(lane, p.Value(), ctx.state);
    hide Consistent, Prepare, Update, InfosOf, PriorityNonceMempool.Pool, LosesDiscarded, LosesInvalidBids, Without, PriorityNonceMempool.SelectedTxs;
    var limit := GetLaneLimits(p.Value(), lane.cfg.ratio);
    var include_, remove, handlerFailed := RunPrepareHandler(lane, ctx, p, limit);
    if handlerFailed { return p, true; }
    RemoveTxsFromLane(lane, remove);
    var infos := CollectInfos(lane, include_);
    if infos.None? { return p, true; }
    var updated, ok := UpdateProposal(p, lane.cfg.name, lane.cfg.ratio, infos.value);
    return updated, !ok;
  }

  /** ChainPrepareLanes, with the terminator as the end of the chain. The lane runs on a cached
      context; if it fails the next lanes run on the untouched one, otherwise they run on the
      cached one, which is then written back. The chain itself never fails. */
  method ChainPrepareLanes(chain: seq<BaseLane>, ctx: Context, p: Proposal) returns (final: Proposal)
    requires Ready(chain)
    modifies ctx, p.maps, Pools(chain)
    ensures Ready(chain) && final.maps == p.maps && AllShrink(old(PoolContents(chain)), PoolContents(chain))
    ensures var built := PrepareChain(old(Views(chain)), old(ctx.state), old(p.Value()));
            final.Value() == built.prop && ctx.state == built.state
    ensures PoolContents(chain) == PoolsAfter(old(Views(chain)), old(PoolContents(chain)), old(ctx.state), old(p.Value()))
    decreases |chain|, 0
  {
    if |chain| == 0 { return p; }
    PoolsSplit(chain);
    ChainFirst(chain[0].View(), Views(chain[1..]), ctx.state, p.Value());
    AfterFirst(chain[0].View(), Views(chain[1..]), chain[0].mempool.Pool(), PoolContents(chain[1..]), ctx.state, p.Value());
    hide PrepareChain, PrepareLane, FirstThenRest, Consistent, Pools, BaseLane.View, PoolsAfter, OneAfter, RestAfter;
    ghost var pools := PoolContents(chain);
    final := FirstLane(chain[0], chain[1..], ctx, p);
    PoolsSplit(chain);
    ShrinksCons(pools, PoolContents(chain));
  }

  method FirstLane(lane: BaseLane, next: seq<BaseLane>, ctx: Context, p: Proposal) returns (final: Proposal)
    requires lane.Valid() && Ready(next) && lane.mempool !in Pools(next)
    modifies ctx, p.maps, lane.mempool, Pools(next)
    ensures lane.Valid() && Ready(next) && final.maps == p.maps
    ensures Shrinks(old(lane.mempool.Pool()), lane.mempool.Pool()) && AllShrink(old(PoolContents(next)), PoolContents(next))
    ensures var built := FirstThenRest(old(lane.View()), old(Views(next)), old(ctx.state), old(p.Value()));
            final.Value() == built.prop && ctx.state == built.state
    ensures lane.mempool.Pool() == OneAfter(old(lane.View()), old(lane.mempool.Pool()), old(ctx.state), old(p.Value()))
    ensures PoolContents(next) == RestAfter(old(lane.View()), old(Views(next)), old(PoolContents(next)), old(ctx.state), old(p.Value()))
    decreases |next|, 2
  {
    hide PrepareChain, PrepareLane, Consistent, Views, Ready, Prepare, PoolContents, Shrinks, AllShrink, PriorityNonceMempool.Pool, Without,
         LosesDiscarded, LosesInvalidBids, PoolsAfter;
    ghost var views, pools := Views(next), PoolContents(next);
    var cacheCtx := new Context(ctx.state);
    var updated, failed := PrepareOwnPart(lane, cacheCtx, p);
    assert Views(next) == views && PoolContents(next) == pools;
    final := NextLanes(next, ctx, cacheCtx, updated, failed);
  }

  /** The rest of the chain: on the untouched context after a failure, otherwise on the cached one,
      which is then written back. */
  method NextLanes(next: seq<BaseLane>, ctx: Context, cacheCtx: Context, p: Proposal, failed: bool) returns (final: Proposal)
    requires Ready(next) && ctx != cacheCtx
    modifies ctx, cacheCtx, p.maps, Pools(next)
    ensures Ready(next) && final.maps == p.maps && AllShrink(old(PoolContents(next)), PoolContents(next))
    ensures var built := PrepareChain(old(Views(next)), if failed then old(ctx.state) else old(cacheCtx.state), old(p.Value()));
            final.Value() == built.prop && ctx.state == built.state
    ensures PoolContents(next) == PoolsAfter(old(Views(next)), old(PoolContents(next)), if failed then old(ctx.state) else old(cacheCtx.state), old(p.Value()))
    decreases |next|, 1
  {
    hide *;
    if failed {
      final := ChainPrepareLanes(next, ctx, p);
    } else {
      final := ChainPrepareLanes(next, cacheCtx, p);
      ctx.state := cacheCtx.state;
    }
  }

  // ----- verifying ------------------------------------------------------------------------

  method RunProcessHandler(lane: BaseLane, ctx: Context, txs: seq<Tx>) returns (fromLane: seq<Tx>, remaining: seq<Tx>, ok: bool)
    modifies ctx
    ensures Process(old(lane.View()), txs, old(ctx.state)) == if ok then Processed(fromLane, remaining, ctx.state) else ProcessResult.Rejected
  {
    match lane.cfg.handlers
    case DefaultHandlers => fromLane, remaining, ok := DefaultHandler.ProcessLaneHandler(lane, ctx, txs);
    case MevHandlers => fromLane, remaining, ok := MevHandler.ProcessLaneHandler(lane, ctx, txs);
    case CustomHandlers(_, process) =>
      match process(ctx.state, txs)
      case Rejected => return [], [], false;
      case Processed(a, b, st) =>
        ctx.state := st;
        return a, b, true;
  }

  /** One lane's own part of ProcessLane: the proposal with the lane's transactions, the state after
      them, and what is left for the next lanes; nothing when the lane refuses. */
  ghost function ProcessOwn(view: Lane, st: State, p: Prop, txs: seq<Tx>): Option<(Prop, State, seq<Tx>)> {
    var r := Process(view, txs, st);
    if r.Rejected? then None
    else
      match InfosOf(view.cfg.codec, r.fromLane)
      case None => None
      case Some(infos) =>
        match Update(p, view.cfg.name, view.cfg.ratio, infos)
        case None => None
        case Some(p') => Some((p', r.state, r.remaining))
  }

  method ProcessOwnPart(lane: BaseLane, ctx: Context, p: Proposal, txs: seq<Tx>) returns (r: Proposal, remaining: seq<Tx>, ok: bool)
    modifies ctx, p.maps
    ensures r.maps == p.maps
    ensures match ProcessOwn(old(lane.View()), old(ctx.state), old(p.Value()), txs)
            case None => !ok
            case Some((p', st', left)) => ok && r.Value() == p' && ctx.state == st' && remaining == left
  {
    hide Process, InfosOf, Update;
    var fromLane, rest, handled := RunProcessHandler(lane, ctx, txs);
    if !handled { return p, [], false; }
    var infos := CollectInfos(lane, fromLane);
    if infos.None? { return p, [], false; }
    r, ok := UpdateProposal(p, lane.cfg.name, lane.cfg.ratio, infos.value);
    remaining := rest;
  }

  /** ChainProcessLanes over ProcessLane, with the terminator as the end of the chain. */
  method ChainProcessLanes(chain: seq<BaseLane>, ctx: Context, p: Proposal, txs: seq<Tx>) returns (final: Proposal, ok: bool)
    modifies ctx, p.maps
    ensures final.maps == p.maps
    ensures match ProcessChain(old(Views(chain)), old(ctx.state), old(p.Value()), txs)
            case Refused => !ok
            case Accepted(q, st) => ok && final.Value() == q && ctx.state == st
    decreases |chain|
  {
    if |chain| == 0 { return p, |txs| == 0; }
    PoolsSplit(chain);
    ProcessFirst(chain[0].View(), Views(chain[1..]), ctx.state, p.Value(), txs);
    hide *;
    var updated, remaining := p, txs;
    if |txs| > 0 {
      updated, remaining, ok := ProcessOwnPart(chain[0], ctx, p, txs);
      if !ok { return p, false; }
    }
    final, ok := ChainProcessLanes(chain[1..], ctx, updated, remaining);
  }

  lemma ProcessFirst(view: Lane, rest: seq<Lane>, st: State, p: Prop, txs: seq<Tx>)
    ensures ProcessChain([view] + rest, st, p, txs)
         == if txs == [] then ProcessChain(rest, st, p, txs)
            else match ProcessOwn(view, st, p, txs)
              case None => Refused
              case Some((p', st', left)) => ProcessChain(rest, st', p', left)
  {
    assert ([view] + rest)[1..] == rest;
  }
}
