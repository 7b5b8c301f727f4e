/** The default handlers as loops over a lane's mempool and a block's transactions. */
module DefaultHandler {
  import opened Types
  import opened Iteration
  import opened MempoolRuns
  import opened PriorityMempool
  import opened Proposals
  import opened LaneModel
  import opened BaseHandlers
  import opened Lanes

  /** The accumulated lists in front of the result for the rest of the pool. */
  function After(include_: seq<Tx>, remove: seq<Tx>, r: PrepareResult): PrepareResult {
    if r.Selected? then Selected(include_ + r.include_, remove + r.remove, r.state) else r
  }

  /** One turn of the prepare loop, up to the update of the totals. */
  method JudgeTx(lane: BaseLane, ctx: Context, p: Proposal, limit: LaneLimits, tx: Tx, size: int64, gas: uint64) returns (v: Verdict)
    modifies ctx
    ensures v == Judge(lane.cfg, old(p.Value()), limit, tx, size, gas, old(ctx.state))
    ensures ctx.state == if v.Take? then v.state else old(ctx.state)
  {
    var info := GetTxInfo(lane.cfg.codec, tx);
    if info.None? { return Drop; }
    if info.value.gasLimit > limit.maxGasLimit { return Drop; }
    if info.value.size > limit.maxTxBytes { return Drop; }
    if !lane.cfg.matches(tx) { return Drop; }
    if info.value.hash in p.maps.cache { return Skip; }
    if WrapInt64(size + info.value.size) > limit.maxTxBytes { return Skip; }
    if WrapUint64(gas + info.value.gasLimit) > limit.maxGasLimit { return Skip; }
    var r := lane.VerifyTx(ctx, tx);
    match r
    case Err => v := Drop;
    case Panic => v := Crash;
    case Ok => v := Take(info.value, ctx.state);
  }

  /** One turn of the prepare loop on the head of `rest`. */
  method Turn(lane: BaseLane, ctx: Context, p: Proposal, limit: LaneLimits, tx: Tx, include_: seq<Tx>, remove: seq<Tx>, size: int64, gas: uint64, ghost rest: seq<Tx>)
    returns (included: seq<Tx>, removed: seq<Tx>, totalSize: int64, totalGas: uint64, panicked: bool)
    requires rest != [] && tx == rest[0]
    modifies ctx
    ensures After(include_, remove, Greedy(lane.cfg, old(p.Value()), limit, rest, size, gas, old(ctx.state)))
         == if panicked then PrepareFailed
            else After(included, removed, Greedy(lane.cfg, old(p.Value()), limit, rest[1..], totalSize, totalGas, ctx.state))
  {
    hide Judge, Greedy, After;
    GreedyTurn(lane.cfg, p.Value(), limit, rest, size, gas, ctx.state, include_, remove);
    included, removed, totalSize, totalGas, panicked := include_, remove, size, gas, false;
    var v := JudgeTx(lane, ctx, p, limit, tx, size, gas);
    match v
    case Crash => panicked := true;
    case Skip =>
    case Drop => removed := remove + [tx];
    case Take(info, _) =>
      totalSize := WrapInt64(size + info.size);
      totalGas := WrapUint64(gas + info.gasLimit);
      included := include_ + [tx];
  }

  method PrepareLaneHandler(lane: BaseLane, ctx: Context, p: Proposal, limit: LaneLimits) returns (include_: seq<Tx>, remove: seq<Tx>, panicked: bool)
    requires lane.Valid()
    modifies ctx, lane.mempool
    ensures lane.Valid() && lane.mempool.Pool() == old(lane.mempool.Pool())
    ensures PrepareBase(lane.cfg, old(p.Value()), limit, old(lane.mempool.SelectedTxs()), old(ctx.state))
         == if panicked then PrepareFailed else Selected(include_, remove, ctx.state)
  {
    hide Greedy, Consistent, Yields, After;
    include_, remove, panicked := [], [], false;
    var totalSize: int64, totalGas: uint64 := 0, 0;
    AfterNothing(PrepareBase(lane.cfg, p.Value(), limit, lane.mempool.SelectedTxs(), ctx.state));
    ghost var rest := lane.mempool.SelectedTxs();
    var it := lane.mempool.Select();
    while it != null
      invariant it != null ==> fresh(it)
      invariant lane.Valid() && lane.mempool.Pool() == old(lane.mempool.Pool()) && Yields(it, lane.mempool, rest)
      invariant After(include_, remove, Greedy(lane.cfg, p.Value(), limit, rest, totalSize, totalGas, ctx.state))
             == PrepareBase(lane.cfg, old(p.Value()), limit, old(lane.mempool.SelectedTxs()), old(ctx.state))
      decreases |rest|
    {
      YieldsMempool(it, lane.mempool, rest);
      var tx := Read(it, rest);
      include_, remove, totalSize, totalGas, panicked := Turn(lane, ctx, p, limit, tx, include_, remove, totalSize, totalGas, rest);
      if panicked { return; }
      it := MoveOn(it, rest);
      rest := rest[1..];
    }
    YieldsNothing(lane.mempool, rest);
    GreedyEnd(lane.cfg, p.Value(), limit, totalSize, totalGas, ctx.state, include_, remove);
  }

  /** VerifyNoMatches. */
  method VerifyNoMatches(lane: BaseLane, txs: seq<Tx>) returns (none: bool)
    ensures none <==> NoneMatch(lane.cfg, txs)
  {
    for i := 0 to |txs|
      invariant NoneMatch(lane.cfg, txs[..i])
    {
      if lane.cfg.matches(txs[i]) { return false; }
    }
    assert txs[..|txs|] == txs;
    none := true;
  }

  method ProcessLaneHandler(lane: BaseLane, ctx: Context, txs: seq<Tx>) returns (fromLane: seq<Tx>, remaining: seq<Tx>, ok: bool)
    modifies ctx
    ensures ProcessBase(lane.cfg, txs, old(ctx.state)) == if ok then Processed(fromLane, remaining, ctx.state) else ProcessResult.Rejected
  {
    if |txs| == 0 { return [], [], true; }
    hide NoneMatch, AcceptsPair;
    ghost var goal := ProcessBase(lane.cfg, txs, ctx.state);
    for i := 0 to |txs|
      invariant ProcessFrom(lane.cfg, txs, i, ctx.state) == goal
    {
      if !lane.cfg.matches(txs[i]) {
        var none := VerifyNoMatches(lane, txs[i + 1..]);
        if !none { return [], [], false; }
        return txs[..i], txs[i..], true;
      }
      if i > 0 {
        var c := CompareTxs(lane.cfg.txPriority, txs[i - 1], txs[i]);
        assert AcceptsPair(lane.cfg.txPriority, txs[i - 1], txs[i]) <==> c.Some? && c.value != -1 by {
          CompareDecides(lane, txs[i - 1], txs[i]);
        }
        if c.None? || c.value == -1 { return [], [], false; }
      }
      var r := lane.VerifyTx(ctx, txs[i]);
      if r != Ok { return [], [], false; }
    }
    return txs, [], true;
  }

  lemma CompareDecides(lane: BaseLane, a: Tx, b: Tx)
    ensures AcceptsPair(lane.cfg.txPriority, a, b)
            <==> CompareTxs(lane.cfg.txPriority, a, b).Some? && CompareTxs(lane.cfg.txPriority, a, b).value != -1
  {
  }

  lemma YieldsMempool(it: PriorityNonceIterator<Priority>, mempool: PriorityNonceMempool<Priority>, rest: seq<Tx>)
    requires Yields(it, mempool, rest)
    ensures it.mempool == mempool
  {
  }

  lemma YieldsNothing(mempool: PriorityNonceMempool<Priority>, rest: seq<Tx>)
    requires Yields(null, mempool, rest)
    ensures rest == []
  {
  }

  lemma AfterNothing(r: PrepareResult)
    ensures After([], [], r) == r
  {
    if r.Selected? { assert [] + r.include_ == r.include_ && [] + r.remove == r.remove; }
  }

  lemma GreedyEnd(cfg: LaneConfig, p: Prop, limit: LaneLimits, size: int64, gas: uint64, st: State, include_: seq<Tx>, remove: seq<Tx>)
    ensures After(include_, remove, Greedy(cfg, p, limit, [], size, gas, st)) == Selected(include_, remove, st)
  {
    assert include_ + [] == include_ && remove + [] == remove;
  }

  /** One turn of the prepare loop moves the head of the pool to where its verdict says. */
  lemma GreedyTurn(cfg: LaneConfig, p: Prop, limit: LaneLimits, rest: seq<Tx>, size: int64, gas: uint64, st: State, include_: seq<Tx>, remove: seq<Tx>)
    requires rest != []
    ensures var v := Judge(cfg, p, limit, rest[0], size, gas, st);
            After(include_, remove, Greedy(cfg, p, limit, rest, size, gas, st)) ==
            match v
              case Crash => PrepareFailed
              case Skip => After(include_, remove, Greedy(cfg, p, limit, rest[1..], size, gas, st))
              case Drop => After(include_, remove + [rest[0]], Greedy(cfg, p, limit, rest[1..], size, gas, st))
              case Take(info, st') =>
                After(include_ + [rest[0]], remove,
                      Greedy(cfg, p, limit, rest[1..], WrapInt64(size + info.size), WrapUint64(gas + info.gasLimit), st'))
  {
    hide Judge;
    var v := Judge(cfg, p, limit, rest[0], size, gas, st);
    match v
    case Crash =>
    case Skip =>
    case Drop =>
      var r := Greedy(cfg, p, limit, rest[1..], size, gas, st);
      if r.Selected? { assert remove + ([rest[0]] + r.remove) == remove + [rest[0]] + r.remove; }
    case Take(info, st') =>
      var r := Greedy(cfg, p, limit, rest[1..], WrapInt64(size + info.size), WrapUint64(gas + info.gasLimit), st');
      if r.Selected? { assert include_ + ([rest[0]] + r.include_) == include_ + [rest[0]] + r.include_; }
  }
}
