/** The mempool made of lanes: routing of insertions, validation of the registry, and the step from
    its pools to what parity asks of them. */
module LanedMempools {
  import opened Types
  import opened PriorityIndex
  import opened Ranking
  import opened Iteration
  import opened ConstantPriority
  import opened MempoolRuns
  import opened PriorityMempool
  import opened LaneModel
  import opened BaseHandlers
  import opened Chain
  import opened SpacePartition
  import opened Lanes
  import opened LaneChain

  /** The lanes with empty pools: all that routing and validation look at. */
  function Bare(registry: seq<BaseLane>): (r: seq<Lane>)
    ensures |r| == |registry| && forall i :: 0 <= i < |r| ==> r[i] == Lane(registry[i].cfg, [])
  {
    if registry == [] then [] else [Lane(registry[0].cfg, [])] + Bare(registry[1..])
  }

  function Names(lanes: seq<Lane>): (r: seq<string>)
    ensures |r| == |lanes| && forall i :: 0 <= i < |r| ==> r[i] == lanes[i].cfg.name
  {
    if lanes == [] then [] else [lanes[0].cfg.name] + Names(lanes[1..])
  }

  // ----- the lanes' mempools, by position ---------------------------------------------------

  lemma {:induction false} ReadyAt(chain: seq<BaseLane>, i: nat, j: nat)
    requires Ready(chain) && i <= j < |chain|
    ensures chain[i].Valid() && (i < j ==> chain[i].mempool != chain[j].mempool)
  {
    if i > 0 {
      ReadyAt(chain[1..], i - 1, j - 1);
    } else if j > 0 {
      assert chain[1..][j - 1] == chain[j];
    }
  }

  ghost predicate AllValid(chain: seq<BaseLane>)
    reads Pools(chain)
  {
    forall i :: 0 <= i < |chain| ==> chain[i].Valid()
  }

  ghost predicate Distinct(chain: seq<BaseLane>) {
    forall i, j :: 0 <= i < j < |chain| ==> chain[i].mempool != chain[j].mempool
  }

  lemma ReadyAll(chain: seq<BaseLane>)
    requires Ready(chain)
    ensures AllValid(chain) && Distinct(chain)
  {
    forall i, j | 0 <= i <= j < |chain| ensures chain[i].Valid() && (i < j ==> chain[i].mempool != chain[j].mempool) {
      ReadyAt(chain, i, j);
    }
  }

  lemma {:induction false} ReadyFrom(chain: seq<BaseLane>)
    requires AllValid(chain) && Distinct(chain)
    ensures Ready(chain)
  {
    if chain != [] {
      ReadyFrom(chain[1..]);
      PoolsSplit(chain);
      forall i | 0 <= i < |chain[1..]| ensures chain[1..][i].mempool != chain[0].mempool {
        assert chain[1..][i] == chain[i + 1];
      }
    }
  }

  function MempoolConfigs(chain: seq<BaseLane>): (r: seq<Config<Priority>>)
    ensures |r| == |chain| && forall i :: 0 <= i < |r| ==> r[i] == chain[i].mempool.cfg
  {
    if chain == [] then [] else [chain[0].mempool.cfg] + MempoolConfigs(chain[1..])
  }

  lemma {:induction false} RouteIs(lanes: seq<Lane>, tx: Tx, i: nat)
    requires i <= |lanes|
    requires forall k :: 0 <= k < i ==> !lanes[k].cfg.matches(tx)
    requires i < |lanes| ==> lanes[i].cfg.matches(tx)
    ensures Route(lanes, tx) == i
  {
  }

  // ----- routing ----------------------------------------------------------------------------

  /** A transaction's place: the first lane that matches it, whose decoder gives it back. */
  ghost predicate Belongs(lanes: seq<Lane>, i: nat, tx: Tx)
    requires i < |lanes|
  {
    Route(lanes, tx) == i && RoundTrips(lanes[i].cfg.codec, tx)
  }

  /** Every stored transaction is in its place. */
  ghost predicate WellKept(lanes: seq<Lane>, pools: seq<map<Id, Tx>>)
    requires |lanes| == |pools|
  {
    forall i, id :: 0 <= i < |pools| && id in pools[i] ==> Belongs(lanes, i, pools[i][id])
  }

  /** The pools after an insertion: only the first matching lane is asked, and it may refuse. */
  function Placed(lanes: seq<Lane>, cfgs: seq<Config<Priority>>, pools: seq<map<Id, Tx>>, tx: Tx): (r: seq<map<Id, Tx>>)
    requires |lanes| == |pools| == |cfgs|
    ensures |r| == |pools|
  {
    var at := Route(lanes, tx);
    if at == |lanes| then pools else pools[at := PlainStep(cfgs[at], pools[at], Op.Insert(tx))]
  }

  /** The pools after a removal: only the first lane holding the sender and nonce is asked. */
  function Taken(pools: seq<map<Id, Tx>>, id: Id): (r: seq<map<Id, Tx>>)
    ensures |r| == |pools|
  {
    if pools == [] then []
    else if id in pools[0] then [pools[0] - {id}] + pools[1..]
    else [pools[0]] + Taken(pools[1..], id)
  }

  /** An insertion keeps every transaction in its place. */
  lemma PlacedKeeps(lanes: seq<Lane>, cfgs: seq<Config<Priority>>, pools: seq<map<Id, Tx>>, tx: Tx)
    requires |lanes| == |pools| == |cfgs| && WellKept(lanes, pools)
    requires Route(lanes, tx) < |lanes| ==> RoundTrips(lanes[Route(lanes, tx)].cfg.codec, tx)
    ensures WellKept(lanes, Placed(lanes, cfgs, pools, tx))
  {
    hide Admission, RoundTrips;
    var after := Placed(lanes, cfgs, pools, tx);
    forall i, id | 0 <= i < |after| && id in after[i] ensures Belongs(lanes, i, after[i][id]) {
      if i != Route(lanes, tx) || after[i][id] != tx { assert id in pools[i]; }
    }
  }

  /** Building proposals only removes transactions. */
  lemma ShrinkingKeeps(lanes: seq<Lane>, before: seq<map<Id, Tx>>, after: seq<map<Id, Tx>>)
    requires |lanes| == |before| && WellKept(lanes, before) && AllShrink(before, after)
    ensures WellKept(lanes, after)
  {
    forall i, id | 0 <= i < |after| && id in after[i] ensures Belongs(lanes, i, after[i][id]) {
      assert Shrinks(before[i], after[i]);
      assert id in before[i];
    }
  }

  lemma {:induction false} TakenShrinks(pools: seq<map<Id, Tx>>, id: Id, i: nat)
    requires i < |pools|
    ensures Taken(pools, id)[i] == pools[i] - {id} || Taken(pools, id)[i] == pools[i]
  {
    if i > 0 && id !in pools[0] { TakenShrinks(pools[1..], id, i - 1); }
  }

  /** Only the first lane holding the sender and nonce loses them. */
  lemma {:induction false} TakenAt(pools: seq<map<Id, Tx>>, id: Id, i: nat)
    requires i < |pools| && id in pools[i] && forall k :: 0 <= k < i ==> id !in pools[k]
    ensures Taken(pools, id) == pools[i := pools[i] - {id}]
  {
    if i > 0 { TakenAt(pools[1..], id, i - 1); }
  }

  lemma {:induction false} TakenNowhere(pools: seq<map<Id, Tx>>, id: Id)
    requires forall k :: 0 <= k < |pools| ==> id !in pools[k]
    ensures Taken(pools, id) == pools
  {
    if pools != [] { TakenNowhere(pools[1..], id); }
  }

  /** A transaction without a signer takes nothing. */
  function TakenBy(pools: seq<map<Id, Tx>>, id: Option<Id>): (r: seq<map<Id, Tx>>)
    ensures |r| == |pools|
  {
    if id.None? then pools else Taken(pools, id.value)
  }

  lemma TakenFrom(pools: seq<map<Id, Tx>>, id: Option<Id>, i: nat)
    requires i <= |pools| && (i < |pools| ==> id.Some? && id.value in pools[i])
    requires id.Some? ==> forall k :: 0 <= k < i ==> id.value !in pools[k]
    ensures TakenBy(pools, id) == if i < |pools| then pools[i := pools[i] - {id.value}] else pools
  {
    if id.Some? {
      if i < |pools| { TakenAt(pools, id.value, i); } else { TakenNowhere(pools, id.value); }
    }
  }

  /** So does a removal. */
  lemma TakenKeeps(lanes: seq<Lane>, pools: seq<map<Id, Tx>>, id: Option<Id>)
    requires |lanes| == |pools| && WellKept(lanes, pools)
    ensures WellKept(lanes, TakenBy(pools, id))
  {
    var after := TakenBy(pools, id);
    forall i, other | 0 <= i < |after| && other in after[i] ensures Belongs(lanes, i, after[i][other]) {
      if id.Some? { TakenShrinks(pools, id.value, i); }
      assert other in pools[i];
    }
  }

  // ----- what parity asks of the pools --------------------------------------------------------

  /** The lane ranks all its transactions the same, as DefaultTxPriority does. */
  ghost predicate RanksAllTheSame(cfg: Config<Priority>) {
    && ConstantPriority.Constant(cfg.txPriority.compare)
    && OnePriority(cfg.txPriority)
  }

  /** DefaultTxPriority does. */
  lemma DefaultRanksAllTheSame(cfg: Config<Priority>, dom: iset<Priority>)
    requires cfg.txPriority == DefaultTxPriority(Priority.Constant(0))
    ensures RanksAllTheSame(cfg) && PreorderOn(cfg.txPriority.compare, dom)
  {
    DefaultIsConstant(Priority.Constant(0));
  }

  /** With one priority for all, any two selected transactions pass the order check. */
  lemma SelectionStands(lane: BaseLane)
    requires lane.Valid() && RanksAllTheSame(lane.mempool.cfg)
    ensures AnyPairInOrder(lane.cfg, lane.mempool.SelectedTxs())
  {
    var tp, ix, m := lane.mempool.cfg.txPriority, lane.mempool.State(), lane.mempool.contents;
    var txs := lane.mempool.SelectedTxs();
    hide Agree, AcceptsPair, Selection;
    forall i, j | 0 <= i < j < |txs| ensures AcceptsPair(tp, txs[i], txs[j]) {
      AnyPairAccepted(tp, ix, m, i, j);
    }
  }

  /** The shape parity is promised for: an MEV lane only in front, every other lane a default one
      that ranks all its transactions the same. */
  ghost predicate StandardRegistry(registry: seq<BaseLane>) {
    forall i :: 0 <= i < |registry| ==>
      (registry[i].cfg.handlers.MevHandlers? && i == 0)
      || (registry[i].cfg.handlers.DefaultHandlers? && RanksAllTheSame(registry[i].mempool.cfg))
  }

  lemma {:induction false} ViewAt(chain: seq<BaseLane>)
    ensures |Views(chain)| == |chain|
    ensures forall i :: 0 <= i < |chain| ==> Views(chain)[i] == chain[i].View()
  {
    if chain != [] { ViewAt(chain[1..]); }
  }

  lemma {:induction false} RouteIgnoresPools(a: seq<Lane>, b: seq<Lane>, tx: Tx)
    requires |a| == |b| && forall i :: 0 <= i < |a| ==> a[i].cfg == b[i].cfg
    ensures Route(a, tx) == Route(b, tx)
  {
    if a != [] { RouteIgnoresPools(a[1..], b[1..], tx); }
  }

  /** A standard registry with every stored transaction in its place is one parity is promised for. */
  lemma ParityApplies(registry: seq<BaseLane>)
    requires Ready(registry) && StandardRegistry(registry)
    requires WellKept(Bare(registry), PoolContents(registry))
    ensures Routed(Views(registry)) && Standard(Views(registry))
    ensures |Views(registry)| == |registry|
    ensures forall i :: 0 <= i < |registry| ==> AllRoundTrip(registry[i].cfg.codec, Views(registry)[i].pool)
  {
    var lanes, pools := Views(registry), PoolContents(registry);
    ViewAt(registry);
    hide Views, PoolContents, AnyPairInOrder, Ready, Consistent, RanksAllTheSame, RoundTrips;
    forall i, k | 0 <= i < |lanes| && 0 <= k < |lanes[i].pool|
      ensures Route(lanes, lanes[i].pool[k]) == i && RoundTrips(registry[i].cfg.codec, lanes[i].pool[k])
    {
      ReadyAt(registry, i, i);
      SelectsStored(registry[i], k);
      var id :| id in registry[i].mempool.Pool() && registry[i].mempool.Pool()[id] == lanes[i].pool[k];
      assert id in pools[i];
      assert Belongs(Bare(registry), i, pools[i][id]);
      RouteIgnoresPools(lanes, Bare(registry), lanes[i].pool[k]);
    }
    forall i | 0 <= i < |lanes| && lanes[i].cfg.handlers.DefaultHandlers?
      ensures AnyPairInOrder(lanes[i].cfg, lanes[i].pool)
    {
      ReadyAt(registry, i, i);
      SelectionStands(registry[i]);
    }
  }

  /** What the registry's invariants say of one lane. */
  datatype Snapshot = Snapshot(valid: bool, pool: map<Id, Tx>)

  ghost function Snap(lane: BaseLane): Snapshot
    reads lane.mempool
  {
    Snapshot(lane.Valid(), lane.mempool.Pool())
  }

  ghost function Snaps(chain: seq<BaseLane>): (r: seq<Snapshot>)
    reads Pools(chain)
    ensures |r| == |chain| && forall i :: 0 <= i < |r| ==> r[i] == Snap(chain[i])
  {
    if chain == [] then []
    else
      PoolsSplit(chain);
      [Snap(chain[0])] + Snaps(chain[1..])
  }

  lemma SnapLane(lane: BaseLane)
    ensures Snap(lane).valid <==> lane.Valid()
    ensures Snap(lane).pool == lane.mempool.Pool()
  {
  }

  lemma SnapsHold(chain: seq<BaseLane>)
    requires Ready(chain)
    ensures Distinct(chain) && forall i :: 0 <= i < |chain| ==> Snap(chain[i]).valid && Snap(chain[i]).pool == PoolContents(chain)[i]
  {
    ReadyAll(chain);
    hide Ready, BaseLane.Valid, PriorityNonceMempool.Pool;
  }

  /** When only one lane's mempool has changed the pools differ only there; if it is consistent, so is
      the registry. */
  lemma OneLaneChanged(chain: seq<BaseLane>, i: nat, before: seq<Snapshot>, pools: seq<map<Id, Tx>>)
    requires i < |chain| == |before| == |pools| && Distinct(chain)
    requires forall k :: 0 <= k < |chain| ==> before[k].valid && before[k].pool == pools[k]
    requires forall k :: 0 <= k < |chain| && k != i ==> Snap(chain[k]) == before[k]
    ensures Snap(chain[i]).valid ==> Ready(chain)
    ensures PoolContents(chain) == pools[i := Snap(chain[i]).pool]
  {
    hide Ready, BaseLane.Valid, PriorityNonceMempool.Pool;
    if Snap(chain[i]).valid {
      forall k | 0 <= k < |chain| ensures chain[k].Valid() {
        assert Snap(chain[k]).valid;
      }
      ReadyFrom(chain);
    }
    forall k | 0 <= k < |chain| ensures PoolContents(chain)[k] == Snap(chain[k]).pool {
    }
    hide Snap;
  }

  // ----- the mempool object -------------------------------------------------------------------

  /** New lanes, whose pools are empty, keep everything in its place. */
  lemma EmptyIsKept(registry: seq<BaseLane>)
    requires forall i :: 0 <= i < |registry| ==> registry[i].mempool.Pool() == map[]
    ensures WellKept(Bare(registry), PoolContents(registry))
  {
  }

  class LanedMempool {
    const registry: seq<BaseLane>

    /** The lanes are consistent, share no mempool, and hold every transaction in its place. */
    ghost predicate Valid()
      reads Pools(registry)
    {
      Ready(registry) && WellKept(Bare(registry), PoolContents(registry))
    }

    constructor (registry: seq<BaseLane>)
      requires Ready(registry) && WellKept(Bare(registry), PoolContents(registry))
      ensures this.registry == registry && Valid()
    {
      ghost var pools := Pools(registry);
      this.registry := registry;
      new;
      hide Ready, PoolContents, WellKept;
    }

    /** The transaction's lane, if it has one, can rank it and decodes it back. */
    ghost predicate CanHold(tx: Tx)
      reads Pools(registry)
    {
      var at := Route(Bare(registry), tx);
      at < |registry| ==> registry[at].mempool.CanRank(tx) && RoundTrips(registry[at].cfg.codec, tx)
    }

    /** What the first matching lane answers to an insertion, if any lane matches. */
    ghost function Outcome(tx: Tx): Option<InsertResult>
      reads Pools(registry)
    {
      var at := Route(Bare(registry), tx);
      if at == |registry| then None else Some(InsertOutcome(registry[at].mempool.cfg, registry[at].mempool.State(), tx))
    }

    /** A transaction goes into the first lane that matches it, or nowhere. */
    method Insert(tx: Tx) returns (r: Option<InsertResult>)
      requires Valid()
      modifies Pools(registry)
      ensures old(CanHold(tx)) ==> Valid()
      ensures r == old(Outcome(tx))
      ensures PoolContents(registry) == Placed(Bare(registry), MempoolConfigs(registry), old(PoolContents(registry)), tx)
    {
      ghost var lent := Pools(registry);
      var i := FirstMatching(tx);
      InsertionPlaces(tx);
      hide Ready, PoolContents, WellKept, Placed, PlainStep, RoundTrips, PriorityNonceMempool.CanRank, Route, Bare, MempoolConfigs,
           InsertOutcome, CanHold, PriorityNonceMempool.State, Outcome;
      if i == |registry| { return None; }
      var result := InsertInto(i, tx);
      r := Some(result);
    }

    /** What Insert does to the pools, and that it keeps every transaction in its place. */
    lemma InsertionPlaces(tx: Tx)
      requires Valid()
      ensures var i, pools := Route(Bare(registry), tx), PoolContents(registry);
              Placed(Bare(registry), MempoolConfigs(registry), pools, tx)
              == if i == |registry| then pools else pools[i := PlainStep(registry[i].mempool.cfg, pools[i], Op.Insert(tx))]
      ensures CanHold(tx) ==> WellKept(Bare(registry), Placed(Bare(registry), MempoolConfigs(registry), PoolContents(registry), tx))
      ensures var i := Route(Bare(registry), tx);
              if i == |registry| then Outcome(tx) == None
              else && (CanHold(tx) ==> registry[i].mempool.CanRank(tx))
                   && Outcome(tx) == Some(InsertOutcome(registry[i].mempool.cfg, registry[i].mempool.State(), tx))
    {
      hide Ready, WellKept, PlainStep, RoundTrips, PriorityNonceMempool.CanRank, Route;
      if CanHold(tx) { PlacedKeeps(Bare(registry), MempoolConfigs(registry), PoolContents(registry), tx); }
    }

    /** The loop of Insert: the first lane that matches. */
    method FirstMatching(tx: Tx) returns (i: nat)
      ensures i == Route(Bare(registry), tx)
    {
      i := 0;
      while i < |registry| && !registry[i].cfg.matches(tx)
        invariant i <= |registry|
        invariant forall k :: 0 <= k < i ==> !registry[k].cfg.matches(tx)
      {
        i := i + 1;
      }
      RouteIs(Bare(registry), tx, i);
    }

    method InsertInto(i: nat, tx: Tx) returns (r: InsertResult)
      requires Ready(registry) && i < |registry|
      modifies registry[i].mempool
      ensures old(registry[i].mempool.CanRank(tx)) ==> Ready(registry)
      ensures r == InsertOutcome(registry[i].mempool.cfg, old(registry[i].mempool.State()), tx)
      ensures PoolContents(registry) == old(PoolContents(registry))[i := PlainStep(registry[i].mempool.cfg, old(registry[i].mempool.Pool()), Op.Insert(tx))]
    {
      SnapsHold(registry);
      ghost var before, pools := Snaps(registry), PoolContents(registry);
      assert Snap(registry[i]) == before[i];
      SnapLane(registry[i]);
      hide Ready, BaseLane.Valid, Consistent, PoolContents, Snap, Snaps, PlainStep, InsertOutcome, TxId,
           PriorityNonceMempool.Pool, PriorityNonceMempool.CanRank;
      r := InsertIntoLane(registry[i], tx);
      SnapLane(registry[i]);
      OneLaneChanged(registry, i, before, pools);
    }

    /** Removes the transaction stored under this sender and nonce from the first lane holding one. */
    method Remove(tx: Tx)
      requires Valid()
      modifies Pools(registry)
      ensures Valid()
      ensures PoolContents(registry) == TakenBy(old(PoolContents(registry)), TxId(tx))
    {
      ghost var pools, id := PoolContents(registry), TxId(tx);
      TakenKeeps(Bare(registry), pools, id);
      var i := FirstHolding(tx);
      hide Ready, PoolContents, WellKept, TakenBy, TxId, Bare;
      TakenFrom(pools, id, i);
      if i < |registry| { RemoveFrom(i, tx, id.value); }
    }

    /** The first lane that contains the transaction, or the number of lanes. */
    method FirstHolding(tx: Tx) returns (i: nat)
      requires Ready(registry)
      ensures Ready(registry) && PoolContents(registry) == old(PoolContents(registry))
      ensures i <= |registry|
      ensures i < |registry| ==> TxId(tx).Some? && TxId(tx).value in PoolContents(registry)[i]
      ensures TxId(tx).Some? ==> forall k :: 0 <= k < i ==> TxId(tx).value !in PoolContents(registry)[k]
    {
      hide Consistent, PoolContents;
      ghost var pools := PoolContents(registry);
      i := 0;
      while i < |registry|
        invariant i <= |registry| && Ready(registry) && PoolContents(registry) == pools
        invariant TxId(tx).Some? ==> forall k :: 0 <= k < i ==> TxId(tx).value !in pools[k]
      {
        ReadyAt(registry, i, i);
        var found := registry[i].mempool.Contains(tx);
        if found { return; }
        i := i + 1;
      }
    }

    method RemoveFrom(i: nat, tx: Tx, ghost id: Id)
      requires Ready(registry) && i < |registry| && TxId(tx) == Some(id)
      modifies registry[i].mempool
      ensures Ready(registry)
      ensures PoolContents(registry) == old(PoolContents(registry))[i := old(registry[i].mempool.Pool()) - {id}]
    {
      SnapsHold(registry);
      ghost var before, pools := Snaps(registry), PoolContents(registry);
      assert Snap(registry[i]) == before[i];
      SnapLane(registry[i]);
      hide Ready, BaseLane.Valid, Consistent, PoolContents, Snap, Snaps, PlainStep, InsertOutcome, TxId,
           PriorityNonceMempool.Pool;
      RemoveFromLane(registry[i], tx, id);
      SnapLane(registry[i]);
      OneLaneChanged(registry, i, before, pools);
    }
  }

  /** NewLanedMempool: no mempool for a registry that does not validate. */
  method NewLanedMempool(registry: seq<BaseLane>) returns (mempool: LanedMempool?)
    requires Ready(registry) && WellKept(Bare(registry), PoolContents(registry))
    ensures mempool != null <==> ValidRegistry(Names(Bare(registry)), Ratios(Bare(registry)))
    ensures mempool != null ==> fresh(mempool) && mempool.registry == registry && mempool.Valid()
  {
    hide Ready, PoolContents, WellKept, ValidRegistry;
    ghost var pools := Pools(registry);
    var verdict := ValidateBasic(Names(Bare(registry)), Ratios(Bare(registry)));
    mempool := null;
    if verdict.Valid? { mempool := new LanedMempool(registry); }
  }

  method RemoveFromLane(lane: BaseLane, tx: Tx, ghost id: Id)
    requires lane.Valid() && TxId(tx) == Some(id)
    modifies lane.mempool
    ensures lane.Valid()
    ensures lane.mempool.Pool() == old(lane.mempool.Pool()) - {id}
  {
    hide PriorityNonceMempool.Valid, PriorityNonceMempool.Pool, Consistent, Step, StepContents;
    var _ := lane.mempool.Remove(tx);
  }

  method InsertIntoLane(lane: BaseLane, tx: Tx) returns (r: InsertResult)
    requires lane.Valid()
    modifies lane.mempool
    ensures old(lane.mempool.CanRank(tx)) ==> lane.Valid()
    ensures r == InsertOutcome(lane.mempool.cfg, old(lane.mempool.State()), tx)
    ensures lane.mempool.Pool() == PlainStep(lane.mempool.cfg, old(lane.mempool.Pool()), Op.Insert(tx))
  {
    hide PriorityNonceMempool.Valid, PriorityNonceMempool.Pool, PriorityNonceMempool.CanRank, Consistent, Step, StepContents, PlainStep, InsertOutcome;
    r := lane.mempool.Insert(tx);
  }
}
