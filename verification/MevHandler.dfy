/** The MEV lane's handlers as loops over the auction pool, a bundle and a block. */
module MevHandler {
  import opened Types
  import opened MempoolRuns
  import opened PriorityMempool
  import opened Proposals
  import opened LaneModel
  import opened BaseHandlers
  import opened MevHandlers
  import opened Lanes
  import opened DefaultHandler

  /** VerifyBidBasic on the proposal's shared maps. */
  method CheckBidBasic(lane: BaseLane, bid: Tx, p: Proposal, limit: LaneLimits) returns (r: Option<seq<Tx>>)
    ensures r == VerifyBidBasic(lane.cfg, bid, p.Value(), limit)
  {
    if bid.bid.None? || bid.bid.value.None? { return None; }
    var raw := bid.bid.value.value.transactions;
    var info := GetTxInfo(lane.cfg.codec, bid);
    ghost var value := p.Value();
    var bundle: seq<Tx> := [];
    OneInfo(lane.cfg, bid);
    BidItself(lane.cfg, bid, value, limit);
    if info.None? { return None; }
    if info.value.hash in p.maps.cache { return None; }
    assert raw[..0] == [] && Unwrap(lane.cfg.codec, raw[..0]) == Some([]);
    hide WrapInt64, WrapUint64, VerifyBidBasic;
    var totalSize: int64, totalGas: uint64 := WrapInt64(info.value.size), info.value.gasLimit;
    for i := 0 to |raw|
      invariant Partial(lane.cfg, bid, value, raw, i, bundle, totalSize, totalGas)
    {
      var tx := lane.cfg.codec.decode(raw[i]);
      OneMoreBundled(lane.cfg, bid, value, limit, raw, i, bundle, totalSize, totalGas);
      if tx.None? { return None; }
      var txInfo := GetTxInfo(lane.cfg.codec, tx.value);
      if txInfo.None? { return None; }
      if txInfo.value.hash in p.maps.cache { return None; }
      totalSize := WrapInt64(totalSize + txInfo.value.size);
      totalGas := WrapUint64(totalGas + txInfo.value.gasLimit);
      bundle := bundle + [tx.value];
    }
    BidBasicEnds(lane.cfg, bid, value, limit, bundle, totalSize, totalGas);
    if totalSize > limit.maxTxBytes { return None; }
    if totalGas > limit.maxGasLimit { return None; }
    r := Some(bundle);
  }

  /** The first `i` bundled transactions are read, new to the proposal, and totalled. */
  ghost predicate Partial(cfg: LaneConfig, bid: Tx, p: Prop, raw: seq<Bytes>, i: nat, bundle: seq<Tx>, size: int64, gas: uint64)
    requires i <= |raw|
  {
    && Unwrap(cfg.codec, raw[..i]) == Some(bundle)
    && InfosOf(cfg.codec, [bid] + bundle).Some?
    && var infos := InfosOf(cfg.codec, [bid] + bundle).value;
       && Hashes(infos) * p.cache == {}
       && size == WrapInt64(TotalSize(infos)) && gas == WrapUint64(TotalGas(infos))
  }

  lemma OneInfo(cfg: LaneConfig, bid: Tx)
    ensures GetTxInfo(cfg.codec, bid).None? ==> InfosOf(cfg.codec, [bid] + []).None?
    ensures GetTxInfo(cfg.codec, bid).Some? ==>
              var info := GetTxInfo(cfg.codec, bid).value;
              && InfosOf(cfg.codec, [bid] + []) == Some([info])
              && Hashes([info]) == {info.hash} && TotalSize([info]) == info.size && TotalGas([info]) == info.gasLimit
  {
    assert [bid] + [] == [bid];
    InfosOne(cfg.codec, bid);
    if GetTxInfo(cfg.codec, bid).Some? { OneTotal(GetTxInfo(cfg.codec, bid).value); }
  }

  lemma OneTotal(info: TxWithInfo)
    ensures Hashes([info]) == {info.hash} && TotalSize([info]) == info.size && TotalGas([info]) == info.gasLimit
  {
    assert [info][0].hash in Hashes([info]);
    TotalsOne(info);
  }

  lemma {:induction false} UnwrapPrefix(codec: Codec, raw: seq<Bytes>, i: nat)
    requires i <= |raw| && Unwrap(codec, raw).Some?
    ensures |Unwrap(codec, raw).value| == |raw|
    ensures Unwrap(codec, raw[..i]) == Some(Unwrap(codec, raw).value[..i])
  {
    UnwrapEach(codec, raw);
    if i == |raw| {
      assert raw[..i] == raw && Unwrap(codec, raw).value[..i] == Unwrap(codec, raw).value;
    } else {
      UnwrapPrefix(codec, raw[..|raw| - 1], i);
      assert raw[..|raw| - 1][..i] == raw[..i];
      assert Unwrap(codec, raw).value[..i] == Unwrap(codec, raw[..|raw| - 1]).value[..i];
    }
  }

  /** If the bid or its first `i` bundled transactions are unreadable or not new, the bid fails. */
  lemma BidBasicStops(cfg: LaneConfig, bid: Tx, p: Prop, limit: LaneLimits, i: nat)
    requires BidOf(bid).Some? && i <= |BidOf(bid).value.transactions|
    requires var bundle := Unwrap(cfg.codec, BidOf(bid).value.transactions[..i]);
             bundle.None? || InfosOf(cfg.codec, [bid] + bundle.value).None?
             || Hashes(InfosOf(cfg.codec, [bid] + bundle.value).value) * p.cache != {}
    ensures VerifyBidBasic(cfg, bid, p, limit).None?
  {
    var raw := BidOf(bid).value.transactions;
    if Unwrap(cfg.codec, raw).Some? {
      UnwrapPrefix(cfg.codec, raw, i);
      var all := Unwrap(cfg.codec, raw).value;
      assert [bid] + all == ([bid] + all[..i]) + all[i..];
      InfosSplit(cfg.codec, [bid] + all[..i], all[i..]);
      if InfosOf(cfg.codec, [bid] + all).Some? {
        HashesAdd(InfosOf(cfg.codec, [bid] + all[..i]).value, InfosOf(cfg.codec, all[i..]).value);
      }
    }
  }

  lemma BidItself(cfg: LaneConfig, bid: Tx, p: Prop, limit: LaneLimits)
    requires BidOf(bid).Some?
    ensures GetTxInfo(cfg.codec, bid).None? || GetTxInfo(cfg.codec, bid).value.hash in p.cache
            ==> VerifyBidBasic(cfg, bid, p, limit).None?
  {
    var raw := BidOf(bid).value.transactions;
    OneInfo(cfg, bid);
    if Unwrap(cfg.codec, raw).Some? {
      var all := Unwrap(cfg.codec, raw).value;
      assert [bid] + [] == [bid];
      InfosSplit(cfg.codec, [bid], all);
      if InfosOf(cfg.codec, [bid] + all).Some? {
        var info := GetTxInfo(cfg.codec, bid).value;
        HashesAdd([info], InfosOf(cfg.codec, all).value);
        if info.hash in p.cache { assert info.hash in Hashes(InfosOf(cfg.codec, [bid] + all).value) * p.cache; }
      }
    }
  }

  /** One turn of the bundle loop either extends the prefix or shows that the bid fails. */
  lemma OneMoreBundled(cfg: LaneConfig, bid: Tx, p: Prop, limit: LaneLimits, raw: seq<Bytes>, i: nat, bundle: seq<Tx>, size: int64, gas: uint64)
    requires BidOf(bid) == Some(BidInfo(raw)) && i < |raw|
    requires Partial(cfg, bid, p, raw, i, bundle, size, gas)
    ensures var tx := cfg.codec.decode(raw[i]);
            if tx.None? || GetTxInfo(cfg.codec, tx.value).None? || GetTxInfo(cfg.codec, tx.value).value.hash in p.cache
            then VerifyBidBasic(cfg, bid, p, limit).None?
            else var info := GetTxInfo(cfg.codec, tx.value).value;
                 Partial(cfg, bid, p, raw, i + 1, bundle + [tx.value], WrapInt64(size + info.size), WrapUint64(gas + info.gasLimit))
  {
    hide VerifyBidBasic, WrapInt64, WrapUint64, Hashes, TotalSize, TotalGas;
    var tx := cfg.codec.decode(raw[i]);
    assert raw[..i + 1][..i] == raw[..i];
    if tx.None? {
      BidBasicStops(cfg, bid, p, limit, i + 1);
    } else {
      assert [bid] + (bundle + [tx.value]) == [bid] + bundle + [tx.value];
      InfosSplit(cfg.codec, [bid] + bundle, [tx.value]);
      InfosOne(cfg.codec, tx.value);
      hide InfosOf;
      if GetTxInfo(cfg.codec, tx.value).None? {
        BidBasicStops(cfg, bid, p, limit, i + 1);
      } else {
        OneMoreInfo(InfosOf(cfg.codec, [bid] + bundle).value, GetTxInfo(cfg.codec, tx.value).value, p);
        if GetTxInfo(cfg.codec, tx.value).value.hash in p.cache {
          BidBasicStops(cfg, bid, p, limit, i + 1);
        }
      }
    }
  }

  lemma OneMoreInfo(infos: seq<TxWithInfo>, info: TxWithInfo, p: Prop)
    requires Hashes(infos) * p.cache == {}
    ensures Hashes(infos + [info]) * p.cache == {} <==> info.hash !in p.cache
    ensures WrapInt64(TotalSize(infos + [info])) == WrapInt64(WrapInt64(TotalSize(infos)) + info.size)
    ensures WrapUint64(TotalGas(infos + [info])) == WrapUint64(WrapUint64(TotalGas(infos)) + info.gasLimit)
  {
    HashesAdd(infos, [info]);
    OneTotal(info);
    TotalsAdd(infos, [info]);
    WrapsAdd(TotalSize(infos), info.size, TotalGas(infos), info.gasLimit);
    if info.hash in p.cache { assert info.hash in Hashes(infos + [info]) * p.cache; }
  }

  lemma BidBasicEnds(cfg: LaneConfig, bid: Tx, p: Prop, limit: LaneLimits, bundle: seq<Tx>, size: int64, gas: uint64)
    requires BidOf(bid).Some?
    requires var raw := BidOf(bid).value.transactions; Partial(cfg, bid, p, raw, |raw|, bundle, size, gas)
    ensures VerifyBidBasic(cfg, bid, p, limit)
         == if size > limit.maxTxBytes || gas > limit.maxGasLimit then None else Some(bundle)
  {
    var raw := BidOf(bid).value.transactions;
    assert raw[..|raw|] == raw;
  }

  /** VerifyBidTx: the bid, then each bundled transaction, on the given context. */
  method CheckBidTx(lane: BaseLane, ctx: Context, bid: Tx, bundle: seq<Tx>) returns (r: Outcome)
    modifies ctx
    ensures match VerifyBidTx(lane.cfg, old(ctx.state), bid, bundle)
            case Passed(st) => r == Ok && ctx.state == st
            case Failed => r == Err
            case Panicked => r == Panic
  {
    if bid.bid.None? || bid.bid.value.None? { return Err; }
    r := lane.VerifyTx(ctx, bid);
    if r != Ok { return; }
    ghost var goal := VerifyBundle(lane.cfg, ctx.state, bundle);
    var i := 0;
    while i < |bundle|
      invariant i <= |bundle|
      invariant VerifyBundle(lane.cfg, ctx.state, bundle[i..]) == goal
    {
      assert bundle[i..][1..] == bundle[i + 1..];
      if lane.cfg.matches(bundle[i]) { return Err; }
      r := lane.VerifyTx(ctx, bundle[i]);
      if r != Ok { return; }
      i := i + 1;
    }
    r := Ok;
  }

  /** One candidate: verified on a cached context that is written back only if it wins. */
  method ConsiderBid(lane: BaseLane, ctx: Context, p: Proposal, limit: LaneLimits, tx: Tx) returns (r: Outcome, bundle: seq<Tx>)
    modifies ctx
    ensures Consider(lane.cfg, old(p.Value()), limit, old(ctx.state), tx)
         == match r case Ok => Winner(bundle, ctx.state) case Err => Invalid case Panic => Crashed
    ensures r != Ok ==> ctx.state == old(ctx.state)
  {
    hide VerifyBidBasic, VerifyBidTx;
    if !lane.cfg.matches(tx) { return Err, []; }
    var cacheCtx := new Context(ctx.state);
    var basic := CheckBidBasic(lane, tx, p, limit);
    if basic.None? { return Err, []; }
    bundle := basic.value;
    r := CheckBidTx(lane, cacheCtx, tx, bundle);
    if r == Ok { ctx.state := cacheCtx.state; }
  }

  method PrepareLaneHandler(lane: BaseLane, ctx: Context, p: Proposal, limit: LaneLimits) returns (include_: seq<Tx>, remove: seq<Tx>, panicked: bool)
    requires lane.Valid()
    modifies ctx, lane.mempool
    ensures lane.Valid() && lane.mempool.Pool() == old(lane.mempool.Pool())
    ensures PrepareMev(lane.cfg, old(p.Value()), limit, old(lane.mempool.SelectedTxs()), old(ctx.state))
         == if panicked then PrepareFailed else Selected(include_, remove, ctx.state)
  {
    hide PrepareMev, Consider, Consistent, Yields, After;
    include_, remove, panicked := [], [], false;
    ghost var rest := lane.mempool.SelectedTxs();
    AfterNothing(PrepareMev(lane.cfg, p.Value(), limit, rest, ctx.state));
    var it := lane.mempool.Select();
    while it != null
      invariant it != null ==> fresh(it)
      invariant lane.Valid() && lane.mempool.Pool() == old(lane.mempool.Pool()) && Yields(it, lane.mempool, rest)
      invariant ctx.state == old(ctx.state) && include_ == [] && !panicked
      invariant After([], remove, PrepareMev(lane.cfg, p.Value(), limit, rest, ctx.state))
             == PrepareMev(lane.cfg, old(p.Value()), limit, old(lane.mempool.SelectedTxs()), old(ctx.state))
      decreases |rest|
    {
      YieldsMempool(it, lane.mempool, rest);
      var bidTx := Read(it, rest);
      MevTurn(lane.cfg, p.Value(), limit, rest, ctx.state, remove);
      var r, bundle := ConsiderBid(lane, ctx, p, limit, bidTx);
      if r == Panic { panicked := true; return; }
      if r == Ok {
        include_ := [bidTx] + bundle;
        return;
      }
      remove := remove + [bidTx];
      it := MoveOn(it, rest);
      rest := rest[1..];
    }
    YieldsNothing(lane.mempool, rest);
    MevEnd(lane.cfg, p.Value(), limit, ctx.state, remove);
  }

  lemma MevTurn(cfg: LaneConfig, p: Prop, limit: LaneLimits, rest: seq<Tx>, st: State, remove: seq<Tx>)
    requires rest != []
    ensures After([], remove, PrepareMev(cfg, p, limit, rest, st)) ==
            match Consider(cfg, p, limit, st, rest[0])
            case Crashed => PrepareFailed
            case Winner(bundle, st') => Selected([rest[0]] + bundle, remove, st')
            case Invalid => After([], remove + [rest[0]], PrepareMev(cfg, p, limit, rest[1..], st))
  {
    hide Consider;
    match Consider(cfg, p, limit, st, rest[0])
    case Crashed =>
    case Winner(bundle, _) =>
      assert [] + ([rest[0]] + bundle) == [rest[0]] + bundle && remove + [] == remove;
    case Invalid =>
      var r := PrepareMev(cfg, p, limit, rest[1..], st);
      if r.Selected? { assert remove + ([rest[0]] + r.remove) == remove + [rest[0]] + r.remove; }
  }

  lemma MevEnd(cfg: LaneConfig, p: Prop, limit: LaneLimits, st: State, remove: seq<Tx>)
    ensures After([], remove, PrepareMev(cfg, p, limit, [], st)) == Selected([], remove, st)
  {
    assert remove + [] == remove;
  }

  method ProcessLaneHandler(lane: BaseLane, ctx: Context, txs: seq<Tx>) returns (fromLane: seq<Tx>, remaining: seq<Tx>, ok: bool)
    modifies ctx
    ensures ProcessMev(lane.cfg, txs, old(ctx.state)) == if ok then Processed(fromLane, remaining, ctx.state) else ProcessResult.Rejected
  {
    if |txs| == 0 { return [], [], true; }
    hide VerifyBidTx, NoneMatch;
    var bidTx := txs[0];
    if !lane.cfg.matches(bidTx) {
      var none := VerifyNoMatches(lane, txs[1..]);
      if !none { return [], [], false; }
      return [], txs, true;
    }
    if bidTx.bid.None? || bidTx.bid.value.None? { return [], [], false; }
    var raw := bidTx.bid.value.value.transactions;
    var bundleSize := |raw| + 1;
    if bundleSize > |txs| { return [], [], false; }
    var bundle := txs[1..bundleSize];
    for i := 0 to |raw|
      invariant forall k :: 0 <= k < i ==> SameEncoding(lane.cfg.codec, raw[k], bundle[k])
    {
      if !SameEncoding(lane.cfg.codec, raw[i], bundle[i]) { return [], [], false; }
    }
    var r := CheckBidTx(lane, ctx, bidTx, bundle);
    if r != Ok { return [], [], false; }
    return txs[..bundleSize], txs[bundleSize..], true;
  }
}
