/** The ABCI++ handlers: a node's answer to PrepareProposal, and another node's verdict on it. */
module ProposalHandlers {
  import opened Types
  import opened PriorityIndex
  import opened Iteration
  import opened Ranking
  import opened MempoolRuns
  import opened Proposals
  import opened LaneModel
  import opened MevHandlers
  import opened Bids
  import MevHandler
  import opened Chain
  import opened Acceptance
  import opened Blocks
  import opened Lanes
  import opened LaneChain
  import opened LanedMempools

  /** What PrepareProposal answers: before the second block the request's transactions come back. */
  function PrepareResponse(lanes: seq<Lane>, st: State, height: int, txs: seq<Bytes>, maxTxBytes: int64, consensusMaxGas: int64): seq<Bytes> {
    if height <= 1 then txs
    else PrepareChain(lanes, st, NewProposal(maxTxBytes, BlockGasLimit(consensusMaxGas))).prop.txs
  }

  /** Whether ProcessProposal accepts; the standard handler accepts everything. */
  function ProcessResponse(custom: bool, lanes: seq<Lane>, codec: Codec, st: State, height: int, txs: seq<Bytes>,
                           consensusMaxBytes: int64, consensusMaxGas: int64): bool {
    !custom || height <= 1
    || (var decoded := DecodeAll(codec, txs);
        decoded.Some?
        && ProcessChain(lanes, st, NewProposal(consensusMaxBytes, BlockGasLimit(consensusMaxGas)), decoded.value).Accepted?)
  }

  /** Nodes agree: what one node answers to PrepareProposal, a node with the same lanes and state
      accepts in ProcessProposal, at every height, with either process handler, as long as the
      request asks for no more bytes than consensus allows. */
  lemma PreparedBlockIsAccepted(custom: bool, lanes: seq<Lane>, st: State, height: int, txs: seq<Bytes>,
                                maxTxBytes: int64, consensusMaxBytes: int64, consensusMaxGas: int64)
    requires lanes != [] && Routed(lanes) && Standard(lanes)
    requires lanes != [] ==> SameCodec(lanes, lanes[0].cfg.codec) && PoolsDecoded(lanes, lanes[0].cfg.codec)
    requires DecoderUndoesEncoder(lanes[0].cfg.codec)
    requires maxTxBytes <= consensusMaxBytes && SizesAreSafe(lanes, maxTxBytes, consensusMaxBytes)
    ensures ProcessResponse(custom, lanes, lanes[0].cfg.codec, st, height,
                            PrepareResponse(lanes, st, height, txs, maxTxBytes, consensusMaxGas), consensusMaxBytes, consensusMaxGas)
  {
    PreparedProposalIsAccepted(lanes, st, maxTxBytes, consensusMaxBytes, BlockGasLimit(consensusMaxGas));
  }

  /** The same on the mempool object, in every reachable state of a registry of the standard shape. */
  lemma FilledRegistryAgrees(mempool: LanedMempool, custom: bool, st: State, height: int, txs: seq<Bytes>,
                             maxTxBytes: int64, consensusMaxBytes: int64, consensusMaxGas: int64)
    requires mempool.Valid() && mempool.registry != [] && StandardRegistry(mempool.registry)
    requires var codec := mempool.registry[0].cfg.codec;
             DecoderUndoesEncoder(codec) && forall i :: 0 <= i < |mempool.registry| ==> mempool.registry[i].cfg.codec == codec
    requires maxTxBytes <= consensusMaxBytes && SizesAreSafe(Views(mempool.registry), maxTxBytes, consensusMaxBytes)
    ensures var lanes := Views(mempool.registry);
            ProcessResponse(custom, lanes, mempool.registry[0].cfg.codec, st, height,
                            PrepareResponse(lanes, st, height, txs, maxTxBytes, consensusMaxGas), consensusMaxBytes, consensusMaxGas)
  {
    ParityApplies(mempool.registry);
    ViewAt(mempool.registry);
    hide Views, Ready, PoolContents, Routed, Standard, PrepareResponse, ProcessResponse, SizesAreSafe, AllRoundTrip;
    PreparedBlockIsAccepted(custom, Views(mempool.registry), st, height, txs, maxTxBytes, consensusMaxBytes, consensusMaxGas);
  }

  /** Consensus may set MaxBytes to -1 for no limit; from the second block on, the custom process handler
      then refuses every block but the empty one. */
  lemma NegativeMaxBytesAcceptsOnlyEmpty(custom: bool, lanes: seq<Lane>, codec: Codec, st: State, height: int, txs: seq<Bytes>,
                                         consensusMaxBytes: int64, consensusMaxGas: int64)
    requires consensusMaxBytes < 0 && forall i :: 0 <= i < |lanes| ==> !lanes[i].cfg.handlers.CustomHandlers?
    requires DecodeAll(codec, txs).Some? ==> EncodedSize(DecodeAll(codec, txs).value) < TWO_TO_63
    ensures ProcessResponse(custom, lanes, codec, st, height, txs, consensusMaxBytes, consensusMaxGas)
            <==> !custom || height <= 1 || txs == []
  {
    var decoded := DecodeAll(codec, txs);
    if decoded.Some? {
      NegativeLimitAcceptsOnlyEmpty(lanes, st, NewProposal(consensusMaxBytes, BlockGasLimit(consensusMaxGas)), decoded.value);
    }
    hide ProcessChain;
  }

  /** What PrepareProposal has to answer: before the second block the request's transactions, and then the
      encodings of what the lanes contribute, turn by turn. */
  ghost predicate Answers(response: seq<Bytes>, lanes: seq<Lane>, st: State, height: int, txs: seq<Bytes>, maxTxBytes: int64, consensusMaxGas: int64) {
    if height <= 1 then response == txs
    else exists moments, segments :: BuildsTurns(response, lanes, st, maxTxBytes, consensusMaxGas, moments, segments)
  }

  ghost predicate BuildsTurns(response: seq<Bytes>, lanes: seq<Lane>, st: State, maxTxBytes: int64, consensusMaxGas: int64,
                              moments: seq<Moment>, segments: seq<seq<Tx>>) {
    && Turns(lanes, moments, segments)
    && moments[0] == Moment(NewProposal(maxTxBytes, BlockGasLimit(consensusMaxGas)), st)
    && Encodes(response, Concat(segments))
  }

  lemma ResponseAnswers(lanes: seq<Lane>, st: State, height: int, txs: seq<Bytes>, maxTxBytes: int64, consensusMaxGas: int64)
    ensures Answers(PrepareResponse(lanes, st, height, txs, maxTxBytes, consensusMaxGas), lanes, st, height, txs, maxTxBytes, consensusMaxGas)
  {
    if height > 1 {
      var p := NewProposal(maxTxBytes, BlockGasLimit(consensusMaxGas));
      var moments, segments := BuiltByTurns(lanes, st, p);
      ChainEncodes(lanes, st, p, []);
      assert [] + PrepareChain(lanes, st, p).included == Concat(segments);
      hide Turns, Encodes;
      assert BuildsTurns(PrepareResponse(lanes, st, height, txs, maxTxBytes, consensusMaxGas), lanes, st, maxTxBytes, consensusMaxGas, moments, segments);
    }
  }

  /** The bytes PrepareProposal answers decode to what the lanes contribute, turn by turn. */
  lemma ResponseDecodes(lanes: seq<Lane>, st: State, height: int, txs: seq<Bytes>, maxTxBytes: int64, consensusMaxGas: int64)
      returns (moments: seq<Moment>, segments: seq<seq<Tx>>)
    requires height > 1 && lanes != [] && Standard(lanes)
    requires lanes != [] ==> SameCodec(lanes, lanes[0].cfg.codec) && PoolsDecoded(lanes, lanes[0].cfg.codec)
    requires DecoderUndoesEncoder(lanes[0].cfg.codec)
    ensures Turns(lanes, moments, segments) && moments[0] == Moment(NewProposal(maxTxBytes, BlockGasLimit(consensusMaxGas)), st)
    ensures DecodeAll(lanes[0].cfg.codec, PrepareResponse(lanes, st, height, txs, maxTxBytes, consensusMaxGas)) == Some(Concat(segments))
  {
    var p, codec := NewProposal(maxTxBytes, BlockGasLimit(consensusMaxGas)), lanes[0].cfg.codec;
    moments, segments := BuiltByTurns(lanes, st, p);
    ChainAppends(lanes, st, p, codec);
    IncludedDecodes(lanes, st, p, codec);
    var included := PrepareChain(lanes, st, p).included;
    assert [] + TxBytesOf(InfosOf(codec, included).value) == TxBytesOf(InfosOf(codec, included).value);
    hide *;
    DecodesIncluded(codec, included);
  }

  /** The list decodes, transaction by transaction, and the lanes check all of it. */
  ghost predicate PassesChecks(lanes: seq<Lane>, codec: Codec, st: State, txs: seq<Bytes>, consensusMaxBytes: int64, consensusMaxGas: int64,
                               decoded: seq<Tx>) {
    && |decoded| == |txs| && (forall i :: 0 <= i < |txs| ==> codec.decode(txs[i]) == Some(decoded[i]))
    && exists moments, segments, rests :: CheckedFrom(lanes, st, consensusMaxBytes, consensusMaxGas, decoded, moments, segments, rests)
  }

  ghost predicate CheckedFrom(lanes: seq<Lane>, st: State, consensusMaxBytes: int64, consensusMaxGas: int64, decoded: seq<Tx>,
                              moments: seq<Moment>, segments: seq<seq<Tx>>, rests: seq<seq<Tx>>) {
    && ChecksAll(lanes, moments, segments, rests) && rests[0] == decoded
    && moments[0] == Moment(NewProposal(consensusMaxBytes, BlockGasLimit(consensusMaxGas)), st)
  }

  /** Exactly which proposals are accepted. */
  lemma AcceptedExactly(custom: bool, lanes: seq<Lane>, codec: Codec, st: State, height: int, txs: seq<Bytes>, consensusMaxBytes: int64, consensusMaxGas: int64)
    ensures ProcessResponse(custom, lanes, codec, st, height, txs, consensusMaxBytes, consensusMaxGas)
            <==> !custom || height <= 1 || exists decoded :: PassesChecks(lanes, codec, st, txs, consensusMaxBytes, consensusMaxGas, decoded)
  {
    var p := NewProposal(consensusMaxBytes, BlockGasLimit(consensusMaxGas));
    UnwrapsExactly(codec, txs);
    if DecodeAll(codec, txs).Some? { UnwrapEach(codec, txs); }
    var d := DecodeAll(codec, txs);
    hide ProcessChain, ChecksAll, Unwrap;
    if d.Some? && ProcessChain(lanes, st, p, d.value).Accepted? {
      var moments, segments, rests := AcceptedChecksAll(lanes, st, p, d.value);
      assert CheckedFrom(lanes, st, consensusMaxBytes, consensusMaxGas, d.value, moments, segments, rests);
      assert PassesChecks(lanes, codec, st, txs, consensusMaxBytes, consensusMaxGas, d.value);
    }
    if decoded :| PassesChecks(lanes, codec, st, txs, consensusMaxBytes, consensusMaxGas, decoded) {
      assert d.Some? && d.value == decoded;
      var moments, segments, rests :| CheckedFrom(lanes, st, consensusMaxBytes, consensusMaxGas, decoded, moments, segments, rests);
      ChecksAllAccepts(lanes, moments, segments, rests);
    }
  }

  /** From the second block on, when everything in the pools fits, it is all in the block. */
  lemma ResponseHoldsEverything(lanes: seq<Lane>, st: State, height: int, txs: seq<Bytes>, maxTxBytes: int64, consensusMaxGas: int64)
    requires height > 1 && EverythingFits(lanes, maxTxBytes, BlockGasLimit(consensusMaxGas))
    requires lanes != [] ==> SameCodec(lanes, lanes[0].cfg.codec)
    ensures Encodes(PrepareResponse(lanes, st, height, txs, maxTxBytes, consensusMaxGas), AllPools(lanes))
  {
    var p := NewProposal(maxTxBytes, BlockGasLimit(consensusMaxGas));
    EverythingIsIncluded(lanes, st, maxTxBytes, BlockGasLimit(consensusMaxGas));
    ChainEncodes(lanes, st, p, []);
    assert [] + AllPools(lanes) == AllPools(lanes);
    hide Encodes, EverythingFits;
  }

  /** Every stored transaction is in the response. */
  ghost predicate HoldsAllStored(response: seq<Bytes>, pools: seq<map<Id, Tx>>) {
    forall i, id :: 0 <= i < |pools| && id in pools[i] ==> pools[i][id].bytes.Some? && pools[i][id].bytes.value in response
  }

  /** Default lanes over one codec that rank all their transactions the same, with room for everything. */
  ghost predicate FitsWhole(registry: seq<BaseLane>, maxTxBytes: int64, consensusMaxGas: int64)
    reads Pools(registry)
  {
    && (forall i :: 0 <= i < |registry| ==> registry[i].cfg.handlers.DefaultHandlers? && registry[i].cfg.codec == registry[0].cfg.codec)
    && StandardRegistry(registry) && EverythingFits(Views(registry), maxTxBytes, BlockGasLimit(consensusMaxGas))
  }

  lemma {:induction false} PoolInAll(lanes: seq<Lane>, i: nat, tx: Tx)
    requires i < |lanes| && tx in lanes[i].pool
    ensures tx in AllPools(lanes)
  {
    if i > 0 { PoolInAll(lanes[1..], i - 1, tx); }
  }

  /** With one priority for all, whatever is stored is selected, so it is in a block it fits. */
  lemma StoredIsInResponse(registry: seq<BaseLane>, response: seq<Bytes>)
    requires Ready(registry) && StandardRegistry(registry)
    requires forall i :: 0 <= i < |registry| ==> registry[i].cfg.handlers.DefaultHandlers?
    requires Encodes(response, AllPools(Views(registry)))
    ensures HoldsAllStored(response, PoolContents(registry))
  {
    ViewAt(registry);
    ReadyAll(registry);
    var lanes := Views(registry);
    var pools: seq<map<Id, Tx>> := PoolContents(registry);
    hide Views, PoolContents, Ready, Consistent, RanksAllTheSame;
    forall i: nat, id: Id | i < |pools| && id in pools[i] ensures pools[i][id].bytes.Some? && pools[i][id].bytes.value in response {
      StoredIsSelected(registry[i], id);
      PoolInAll(lanes, i, pools[i][id]);
      var at :| 0 <= at < |AllPools(lanes)| && AllPools(lanes)[at] == pools[i][id];
    }
  }

  lemma WholeIsAnswered(registry: seq<BaseLane>, st: State, height: int, txs: seq<Bytes>, maxTxBytes: int64, consensusMaxGas: int64)
    requires height > 1 && Ready(registry) && FitsWhole(registry, maxTxBytes, consensusMaxGas)
    ensures HoldsAllStored(PrepareResponse(Views(registry), st, height, txs, maxTxBytes, consensusMaxGas), PoolContents(registry))
  {
    ViewAt(registry);
    hide Views, PoolContents, Ready, EverythingFits, PrepareResponse, HoldsAllStored, Encodes, RanksAllTheSame;
    ResponseHoldsEverything(Views(registry), st, height, txs, maxTxBytes, consensusMaxGas);
    StoredIsInResponse(registry, PrepareResponse(Views(registry), st, height, txs, maxTxBytes, consensusMaxGas));
  }

  lemma StoredIsSelected(lane: BaseLane, id: Id)
    requires lane.Valid() && RanksAllTheSame(lane.mempool.cfg) && id in lane.mempool.Pool()
    ensures lane.mempool.Pool()[id] in lane.mempool.SelectedTxs()
  {
    var tp, ix, m := lane.mempool.cfg.txPriority, lane.mempool.State(), lane.mempool.contents;
    RankedSelectionOnce(tp, ix, m);
    hide Agree, Selection;
    assert IsListed(tp, m, id.sender, ListedOf(tp, id, m[id]));
    var at :| 0 <= at < |Selection(tp, ix)| && Selection(tp, ix)[at] == ListedOf(tp, id, m[id]);
    assert lane.mempool.SelectedTxs()[at] == m[id].tx;
  }

  /** A lane's pool after its turn. */
  ghost predicate LaneLoses(view: Lane, at: Moment, before: map<Id, Tx>, after: map<Id, Tx>) {
    && (view.cfg.handlers.DefaultHandlers? ==> LosesDiscarded(view.cfg, at.prop, at.state, view.pool, before, after))
    && (view.cfg.handlers.MevHandlers? ==> LosesInvalidBids(view.cfg, at.prop, at.state, view.pool, before, after))
  }

  ghost predicate LosesAtTurns(lanes: seq<Lane>, moments: seq<Moment>, before: seq<map<Id, Tx>>, after: seq<map<Id, Tx>>) {
    && |before| == |after| == |lanes| && |moments| == |lanes| + 1
    && forall i :: 0 <= i < |lanes| ==> LaneLoses(lanes[i], moments[i], before[i], after[i])
  }

  /** Building a block takes out of each pool exactly what its lane discards at its turn. */
  ghost predicate PoolsLose(lanes: seq<Lane>, st: State, p: Prop, before: seq<map<Id, Tx>>, after: seq<map<Id, Tx>>) {
    exists moments, segments :: Turns(lanes, moments, segments) && moments[0] == Moment(p, st) && LosesAtTurns(lanes, moments, before, after)
  }

  ghost predicate AfterTurns(lanes: seq<Lane>, moments: seq<Moment>, before: seq<map<Id, Tx>>, after: seq<map<Id, Tx>>) {
    && |before| == |after| == |lanes| && |moments| == |lanes| + 1
    && forall i :: 0 <= i < |lanes| ==> after[i] == OneAfter(lanes[i], before[i], moments[i].state, moments[i].prop)
  }

  lemma ConsAfter(lanes: seq<Lane>, at: Moment, later: seq<Moment>, before: seq<map<Id, Tx>>, first: map<Id, Tx>, after: seq<map<Id, Tx>>)
    requires lanes != [] && before != [] && AfterTurns(lanes[1..], later, before[1..], after)
    requires first == OneAfter(lanes[0], before[0], at.state, at.prop)
    ensures AfterTurns(lanes, [at] + later, before, [first] + after)
  {
    hide OneAfter;
    var moments, all := [at] + later, [first] + after;
    forall i | 0 <= i < |lanes| ensures all[i] == OneAfter(lanes[i], before[i], moments[i].state, moments[i].prop) {
      if i > 0 { assert after[i - 1] == OneAfter(lanes[1..][i - 1], before[1..][i - 1], later[i - 1].state, later[i - 1].prop); }
    }
  }

  lemma {:induction false} AfterByTurns(lanes: seq<Lane>, pools: seq<map<Id, Tx>>, st: State, p: Prop) returns (moments: seq<Moment>, segments: seq<seq<Tx>>)
    requires |lanes| == |pools|
    ensures Turns(lanes, moments, segments) && moments[0] == Moment(p, st)
    ensures AfterTurns(lanes, moments, pools, PoolsAfter(lanes, pools, st, p))
  {
    if lanes == [] {
      moments, segments := [Moment(p, st)], [];
    } else {
      var segment, after := OneTurn(lanes[0], Moment(p, st));
      assert RestAfter(lanes[0], lanes[1..], pools[1..], st, p) == PoolsAfter(lanes[1..], pools[1..], after.state, after.prop);
      assert PoolsAfter(lanes, pools, st, p)
          == [OneAfter(lanes[0], pools[0], st, p)] + RestAfter(lanes[0], lanes[1..], pools[1..], st, p);
      hide PrepareLane, Turn, Turns, OneAfter, PoolsAfter, RestAfter, AfterTurns;
      var later, rest := AfterByTurns(lanes[1..], pools[1..], after.state, after.prop);
      moments, segments := [Moment(p, st)] + later, [segment] + rest;
      ConsTurns(lanes, Moment(p, st), segment, later, rest);
      ConsAfter(lanes, Moment(p, st), later, pools, OneAfter(lanes[0], pools[0], st, p), PoolsAfter(lanes[1..], pools[1..], after.state, after.prop));
    }
  }

  lemma ChainLoses(registry: seq<BaseLane>, st: State, p: Prop)
    requires Ready(registry)
    ensures PoolsLose(Views(registry), st, p, PoolContents(registry), PoolsAfter(Views(registry), PoolContents(registry), st, p))
  {
    ViewAt(registry);
    ReadyAll(registry);
    var lanes, pools := Views(registry), PoolContents(registry);
    var after := PoolsAfter(lanes, pools, st, p);
    var moments, segments := AfterByTurns(lanes, pools, st, p);
    hide Views, Ready, Turns, LosesDiscarded, LosesInvalidBids, BaseLane.Valid, PoolsAfter, Prepare, Without;
    forall i | 0 <= i < |lanes| ensures LaneLoses(lanes[i], moments[i], pools[i], after[i]) {
      PartLoses(registry[i], moments[i].prop, moments[i].state);
    }
    hide LaneLoses;
    assert LosesAtTurns(lanes, moments, pools, after);
  }

  class ProposalHandler {
    const txDecoder: Codec
    const mempool: LanedMempool
    const useCustomProcessProposal: bool

    constructor (txDecoder: Codec, mempool: LanedMempool, useCustomProcessProposal: bool)
      ensures this.txDecoder == txDecoder && this.mempool == mempool
      ensures this.useCustomProcessProposal == useCustomProcessProposal
    {
      this.txDecoder, this.mempool, this.useCustomProcessProposal := txDecoder, mempool, useCustomProcessProposal;
    }

    method PrepareProposal(ctx: Context, height: int, txs: seq<Bytes>, maxTxBytes: int64, consensusMaxGas: int64) returns (response: seq<Bytes>)
      requires mempool.Valid() && mempool.registry != []
      modifies ctx, Pools(mempool.registry)
      ensures mempool.Valid() && AllShrink(old(PoolContents(mempool.registry)), PoolContents(mempool.registry))
      ensures response == PrepareResponse(old(Views(mempool.registry)), old(ctx.state), height, txs, maxTxBytes, consensusMaxGas)
      ensures Answers(response, old(Views(mempool.registry)), old(ctx.state), height, txs, maxTxBytes, consensusMaxGas)
      ensures height <= 1 ==> PoolContents(mempool.registry) == old(PoolContents(mempool.registry))
      ensures height > 1 ==> PoolsLose(old(Views(mempool.registry)), old(ctx.state), NewProposal(maxTxBytes, BlockGasLimit(consensusMaxGas)),
                                       old(PoolContents(mempool.registry)), PoolContents(mempool.registry))
      ensures height > 1 && old(FitsWhole(mempool.registry, maxTxBytes, consensusMaxGas)) ==> HoldsAllStored(response, old(PoolContents(mempool.registry)))
    {
      ResponseAnswers(Views(mempool.registry), ctx.state, height, txs, maxTxBytes, consensusMaxGas);
      ChainLoses(mempool.registry, ctx.state, NewProposal(maxTxBytes, BlockGasLimit(consensusMaxGas)));
      if height > 1 && FitsWhole(mempool.registry, maxTxBytes, consensusMaxGas) {
        WholeIsAnswered(mempool.registry, ctx.state, height, txs, maxTxBytes, consensusMaxGas);
      }
      hide Answers, FitsWhole, HoldsAllStored, PrepareChain, Views, PoolContents, Ready, WellKept, PoolsLose, PoolsAfter, NewProposal;
      if height <= 1 { return txs; }
      var p := EmptyProposal(maxTxBytes, BlockGasLimit(consensusMaxGas));
      ghost var before := PoolContents(mempool.registry);
      var final := ChainPrepareLanes(mempool.registry, ctx, p);
      ShrinkingKeeps(Bare(mempool.registry), before, PoolContents(mempool.registry));
      response := final.Value().txs;
    }

    method ProcessProposal(ctx: Context, height: int, txs: seq<Bytes>, consensusMaxBytes: int64, consensusMaxGas: int64) returns (accepted: bool)
      requires mempool.registry != []
      modifies ctx
      ensures accepted == ProcessResponse(useCustomProcessProposal, old(Views(mempool.registry)), txDecoder, old(ctx.state), height, txs,
                                          consensusMaxBytes, consensusMaxGas)
    {
      ghost var views, pools := Views(mempool.registry), Pools(mempool.registry);
      if !useCustomProcessProposal { return true; }
      if height <= 1 { return true; }
      var decodedTxs := GetDecodedTxs(txDecoder, txs);
      if decodedTxs.None? { return false; }
      var p := EmptyProposal(consensusMaxBytes, BlockGasLimit(consensusMaxGas));
      assert Views(mempool.registry) == views;
      hide Views, ProcessChain;
      var _, ok := ChainProcessLanes(mempool.registry, ctx, p, decodedTxs.value);
      accepted := ok;
    }
  }

  method EmptyProposal(maxBlockSize: int64, maxGasLimit: uint64) returns (p: Proposal)
    ensures fresh(p.maps) && p.Value() == NewProposal(maxBlockSize, maxGasLimit)
  {
    var maps := new ProposalMaps();
    p := Proposal([], maps, 0, 0, maxBlockSize, maxGasLimit);
  }

  method GetDecodedTxs(codec: Codec, txs: seq<Bytes>) returns (r: Option<seq<Tx>>)
    ensures r == DecodeAll(codec, txs)
  {
    var decodedTxs: seq<Tx> := [];
    for i := 0 to |txs|
      invariant DecodeAll(codec, txs[..i]) == Some(decodedTxs)
    {
      var tx := codec.decode(txs[i]);
      assert txs[..i + 1][..i] == txs[..i];
      if tx.None? {
        if DecodeAll(codec, txs).Some? { MevHandler.UnwrapPrefix(codec, txs, i + 1); }
        return None;
      }
      decodedTxs := decodedTxs + [tx.value];
    }
    assert txs[..|txs|] == txs;
    r := Some(decodedTxs);
  }
}
