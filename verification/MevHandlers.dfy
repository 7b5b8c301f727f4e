/** The MEV lane's PrepareLaneHandler and ProcessLaneHandler as functions: a bid and its bundle. */
module MevHandlers {
  import opened Types
  import opened Proposals
  import opened LaneModel

  /** GetAuctionBidInfo: `None` when it fails or the transaction carries no bid. */
  function BidOf(tx: Tx): Option<BidInfo> {
    if tx.bid.None? || tx.bid.value.None? then None else tx.bid.value
  }

  /** WrapBundleTransaction of every bundled transaction, or `None` at the first failure. */
  function Unwrap(codec: Codec, raw: seq<Bytes>): Option<seq<Tx>> {
    if raw == [] then Some([])
    else
      var front := Unwrap(codec, raw[..|raw| - 1]);
      var last := codec.decode(raw[|raw| - 1]);
      if front.Some? && last.Some? then Some(front.value + [last.value]) else None
  }

  /** VerifyBidBasic: the bundle, if the bid and its bundle are readable, new to the proposal and
      within the lane's limits; the totals wrap like Go's integers. */
  function VerifyBidBasic(cfg: LaneConfig, bid: Tx, p: Prop, limit: LaneLimits): Option<seq<Tx>> {
    var info := BidOf(bid);
    if info.None? then None
    else
      var bundle := Unwrap(cfg.codec, info.value.transactions);
      if bundle.None? then None
      else
        var infos := InfosOf(cfg.codec, [bid] + bundle.value);
        if infos.None? || Hashes(infos.value) * p.cache != {} then None
        else if WrapInt64(TotalSize(infos.value)) > limit.maxTxBytes then None
        else if WrapUint64(TotalGas(infos.value)) > limit.maxGasLimit then None
        else Some(bundle.value)
  }

  /** The bundled transactions of VerifyBidTx: none may match the lane, each must verify. */
  function VerifyBundle(cfg: LaneConfig, st: State, bundle: seq<Tx>): AnteResult {
    if bundle == [] then Passed(st)
    else if cfg.matches(bundle[0]) then Failed
    else
      var r := VerifyTx(cfg, st, bundle[0]);
      if r.Passed? then VerifyBundle(cfg, r.state, bundle[1..]) else r
  }

  function VerifyBidTx(cfg: LaneConfig, st: State, bid: Tx, bundle: seq<Tx>): AnteResult {
    if BidOf(bid).None? then Failed
    else
      var r := VerifyTx(cfg, st, bid);
      if r.Passed? then VerifyBundle(cfg, r.state, bundle) else r
  }

  /** One candidate of the prepare loop, judged from the entry state. */
  datatype Candidate = Invalid | Winner(bundle: seq<Tx>, state: State) | Crashed

  function Consider(cfg: LaneConfig, p: Prop, limit: LaneLimits, st: State, tx: Tx): Candidate {
    if !cfg.matches(tx) then Invalid
    else
      var bundle := VerifyBidBasic(cfg, tx, p, limit);
      if bundle.None? then Invalid
      else match VerifyBidTx(cfg, st, tx, bundle.value)
        case Passed(st') => Winner(bundle.value, st')
        case Failed => Invalid
        case Panicked => Crashed
  }

  /** The prepare loop: the first valid bid wins, the bids before it are removed. */
  function PrepareMev(cfg: LaneConfig, p: Prop, limit: LaneLimits, pool: seq<Tx>, st: State): PrepareResult {
    if pool == [] then Selected([], [], st)
    else match Consider(cfg, p, limit, st, pool[0])
      case Crashed => PrepareFailed
      case Winner(bundle, st') => Selected([pool[0]] + bundle, [], st')
      case Invalid =>
        var r := PrepareMev(cfg, p, limit, pool[1..], st);
        if r.Selected? then r.(remove := [pool[0]] + r.remove) else r
  }

  /** The winner is the first bid, in Select order, that is valid from the entry state; exactly the
      bids before it are removed, all of them when none is valid; and only the winner's writes
      reach the context. */
  lemma {:induction false} FirstValidBidWins(cfg: LaneConfig, p: Prop, limit: LaneLimits, pool: seq<Tx>, st: State) returns (at: nat)
    requires PrepareMev(cfg, p, limit, pool, st).Selected?
    ensures at <= |pool|
    ensures forall i :: 0 <= i < at ==> Consider(cfg, p, limit, st, pool[i]).Invalid?
    ensures var r := PrepareMev(cfg, p, limit, pool, st);
            && r.remove == pool[..at]
            && if at == |pool| then r.include_ == [] && r.state == st
               else var c := Consider(cfg, p, limit, st, pool[at]);
                    c.Winner? && r.include_ == [pool[at]] + c.bundle && r.state == c.state
  {
    if pool == [] || Consider(cfg, p, limit, st, pool[0]).Winner? {
      at := 0;
    } else {
      var k := FirstValidBidWins(cfg, p, limit, pool[1..], st);
      at := k + 1;
      assert pool[..at] == [pool[0]] + pool[1..][..k];
    }
  }

  /** A winner is the bid and its bundle, verified in order from the entry state. */
  lemma WinnerVerifies(cfg: LaneConfig, p: Prop, limit: LaneLimits, st: State, tx: Tx)
    requires Consider(cfg, p, limit, st, tx).Winner?
    ensures var c := Consider(cfg, p, limit, st, tx);
            && cfg.matches(tx) && NoneMatch(cfg, c.bundle)
            && VerifyAll(cfg, st, [tx] + c.bundle) == Some(c.state)
  {
    var c := Consider(cfg, p, limit, st, tx);
    var r := VerifyTx(cfg, st, tx);
    BundleVerifies(cfg, r.state, c.bundle);
    assert ([tx] + c.bundle)[1..] == c.bundle;
  }

  lemma {:induction false} BundleVerifies(cfg: LaneConfig, st: State, bundle: seq<Tx>)
    ensures VerifyBundle(cfg, st, bundle).Passed? <==> NoneMatch(cfg, bundle) && VerifyAll(cfg, st, bundle).Some?
    ensures VerifyBundle(cfg, st, bundle).Passed? ==> VerifyAll(cfg, st, bundle) == Some(VerifyBundle(cfg, st, bundle).state)
  {
    if bundle != [] && !cfg.matches(bundle[0]) {
      var r := VerifyTx(cfg, st, bundle[0]);
      if r.Passed? { BundleVerifies(cfg, r.state, bundle[1..]); }
      assert NoneMatch(cfg, bundle) <==> NoneMatch(cfg, bundle[1..]) by {
        assert forall i :: 0 < i < |bundle| ==> bundle[i] == bundle[1..][i - 1];
      }
    }
  }

  // ----- the process handler --------------------------------------------------------------

  /** Every bundled transaction re-encodes to the bytes of the proposal's transaction in its place. */
  predicate BundleMatches(codec: Codec, raw: seq<Bytes>, bundle: seq<Tx>)
    requires |raw| == |bundle|
  {
    forall i :: 0 <= i < |raw| ==> SameEncoding(codec, raw[i], bundle[i])
  }

  /** Decode, re-encode and compare. */
  predicate SameEncoding(codec: Codec, raw: Bytes, tx: Tx) {
    var decoded := codec.decode(raw);
    decoded.Some? && decoded.value.bytes.Some? && decoded.value.bytes == tx.bytes
  }

  function ProcessMev(cfg: LaneConfig, txs: seq<Tx>, st: State): ProcessResult {
    if txs == [] then Processed([], [], st)
    else if !cfg.matches(txs[0]) then
      if NoneMatch(cfg, txs[1..]) then Processed([], txs, st) else Rejected
    else
      var info := BidOf(txs[0]);
      if info.None? then Rejected
      else
        var raw := info.value.transactions;
        var size := |raw| + 1;
        if size > |txs| || !BundleMatches(cfg.codec, raw, txs[1..size]) then Rejected
        else
          var r := VerifyBidTx(cfg, st, txs[0], txs[1..size]);
          if r.Passed? then Processed(txs[..size], txs[size..], r.state) else Rejected
  }

  /** A bid of the lane followed by exactly the transactions it bundles, byte for byte, none of which
      match the lane. */
  ghost predicate BidWithBundle(cfg: LaneConfig, txs: seq<Tx>) {
    && txs != [] && cfg.matches(txs[0]) && BidOf(txs[0]).Some?
    && |txs| == 1 + |BidOf(txs[0]).value.transactions|
    && BundleMatches(cfg.codec, BidOf(txs[0]).value.transactions, txs[1..])
    && NoneMatch(cfg, txs[1..])
  }

  /** An accepted leading segment is empty, when nothing matches, or a bid with its bundle, verified
      from the entry state. */
  lemma ProcessMevSound(cfg: LaneConfig, txs: seq<Tx>, st: State)
    requires ProcessMev(cfg, txs, st).Processed?
    ensures var r := ProcessMev(cfg, txs, st);
            && r.fromLane + r.remaining == txs
            && VerifyAll(cfg, st, r.fromLane) == Some(r.state)
            && if r.fromLane == [] then NoneMatch(cfg, txs)
               else BidWithBundle(cfg, r.fromLane)
  {
    var r := ProcessMev(cfg, txs, st);
    if txs != [] && cfg.matches(txs[0]) {
      var bundle := r.fromLane[1..];
      assert bundle == txs[1..|r.fromLane|];
      var a := VerifyTx(cfg, st, txs[0]);
      BundleVerifies(cfg, a.state, bundle);
      assert r.fromLane == [txs[0]] + bundle;
    } else if txs != [] {
      assert forall i :: 0 < i < |txs| ==> txs[i] == txs[1..][i - 1];
    }
  }

  /** From the same state the process handler accepts what the prepare handler built, followed by
      anything, and splits it off exactly there; when nothing was selected, it hands on any list
      without a bid. */
  lemma MevPreparedIsProcessed(cfg: LaneConfig, p: Prop, limit: LaneLimits, pool: seq<Tx>, st: State, rest: seq<Tx>)
    requires PrepareMev(cfg, p, limit, pool, st).Selected?
    requires PrepareMev(cfg, p, limit, pool, st).include_ == [] ==> NoneMatch(cfg, rest)
    ensures var r := PrepareMev(cfg, p, limit, pool, st);
            ProcessMev(cfg, r.include_ + rest, st) == Processed(r.include_, rest, r.state)
  {
    var r := PrepareMev(cfg, p, limit, pool, st);
    var at := FirstValidBidWins(cfg, p, limit, pool, st);
    if at == |pool| {
      assert r.include_ + rest == rest;
    } else {
      var bid, bundle := pool[at], Consider(cfg, p, limit, st, pool[at]).bundle;
      var raw := BidOf(bid).value.transactions;
      var txs := r.include_ + rest;
      UnwrapMatches(cfg, bid, raw);
      assert txs[0] == bid && txs[1..|raw| + 1] == bundle;
      assert txs[..|raw| + 1] == r.include_ && txs[|raw| + 1..] == rest;
    }
  }

  lemma UnwrapMatches(cfg: LaneConfig, bid: Tx, raw: seq<Bytes>)
    requires Unwrap(cfg.codec, raw).Some? && InfosOf(cfg.codec, [bid] + Unwrap(cfg.codec, raw).value).Some?
    ensures |Unwrap(cfg.codec, raw).value| == |raw|
    ensures BundleMatches(cfg.codec, raw, Unwrap(cfg.codec, raw).value)
  {
    var bundle := Unwrap(cfg.codec, raw).value;
    UnwrapEach(cfg.codec, raw);
    forall i | 0 <= i < |raw| ensures SameEncoding(cfg.codec, raw[i], bundle[i]) {
      InfoOfEach(cfg.codec, [bid] + bundle, i + 1);
    }
  }

  lemma {:induction false} UnwrapEach(codec: Codec, raw: seq<Bytes>)
    requires Unwrap(codec, raw).Some?
    ensures |Unwrap(codec, raw).value| == |raw|
    ensures forall i :: 0 <= i < |raw| ==> codec.decode(raw[i]) == Some(Unwrap(codec, raw).value[i])
  {
    if raw != [] { UnwrapEach(codec, raw[..|raw| - 1]); }
  }

  lemma {:induction false} InfoOfEach(codec: Codec, txs: seq<Tx>, i: nat)
    requires InfosOf(codec, txs).Some? && i < |txs|
    ensures GetTxInfo(codec, txs[i]).Some?
  {
    if i < |txs| - 1 { InfoOfEach(codec, txs[..|txs| - 1], i); }
  }

  /** UpdateProposal's hash and lane-limit checks never reject a winning bid and its bundle. */
  lemma MevPassesLaneChecks(cfg: LaneConfig, p: Prop, st: State, pool: seq<Tx>)
    requires PrepareMev(cfg, p, GetLaneLimits(p, cfg.ratio), pool, st).Selected?
    ensures var r := PrepareMev(cfg, p, GetLaneLimits(p, cfg.ratio), pool, st);
            && InfosOf(cfg.codec, r.include_).Some?
            && var infos := InfosOf(cfg.codec, r.include_).value;
               && (infos != [] ==> FitsLane(p, cfg.ratio, WrapInt64(TotalSize(infos)), WrapUint64(TotalGas(infos))))
               && (Update(p, cfg.name, cfg.ratio, infos).None?
                   <==> infos != [] && (cfg.name in p.txsByLane
                                        || !FitsBlock(p, WrapInt64(TotalSize(infos)), WrapUint64(TotalGas(infos)))))
  {
    hide WrapInt64, WrapUint64;
    var _ := FirstValidBidWins(cfg, p, GetLaneLimits(p, cfg.ratio), pool, st);
  }
}
