/** How many bytes a lane can put into a block, read off its pool. */
module PoolSizes {
  import opened Types
  import opened Proposals
  import opened LaneModel
  import opened BaseHandlers
  import opened MevHandlers

  /** A bid with its bundle, as it would stand in a block. */
  function BidSize(codec: Codec, bid: Tx): nat {
    if BidOf(bid).None? || Unwrap(codec, BidOf(bid).value.transactions).None? then 0
    else EncodedSize([bid] + Unwrap(codec, BidOf(bid).value.transactions).value)
  }

  function BidsSize(codec: Codec, pool: seq<Tx>): nat {
    if pool == [] then 0 else BidSize(codec, pool[0]) + BidsSize(codec, pool[1..])
  }

  /** Everything the pool could contribute. */
  function PoolSize(lane: Lane): nat {
    if lane.cfg.handlers.MevHandlers? then BidsSize(lane.cfg.codec, lane.pool) else EncodedSize(lane.pool)
  }

  function PoolsSize(lanes: seq<Lane>): nat {
    if lanes == [] then 0 else PoolSize(lanes[0]) + PoolsSize(lanes[1..])
  }

  /** The size of every bid with its bundle fits an int64. */
  ghost predicate BidsFit(lane: Lane) {
    lane.cfg.handlers.MevHandlers? ==> forall k :: 0 <= k < |lane.pool| ==> BidSize(lane.cfg.codec, lane.pool[k]) < TWO_TO_63
  }

  lemma EncodedSizeCons(tx: Tx, rest: seq<Tx>)
    ensures EncodedSize([tx] + rest) == EncodedSize([tx]) + EncodedSize(rest)
  {
    EncodedSizeAdds([tx], rest);
  }

  /** The default handler includes no more than its pool holds. */
  lemma {:induction false} GreedySize(cfg: LaneConfig, p: Prop, limit: LaneLimits, pool: seq<Tx>, size: int64, gas: uint64, st: State)
    requires Greedy(cfg, p, limit, pool, size, gas, st).Selected?
    ensures EncodedSize(Greedy(cfg, p, limit, pool, size, gas, st).include_) <= EncodedSize(pool)
  {
    hide Judge, EncodedSize, WrapInt64, WrapUint64;
    if pool != [] {
      assert pool == [pool[0]] + pool[1..];
      EncodedSizeCons(pool[0], pool[1..]);
      match Judge(cfg, p, limit, pool[0], size, gas, st)
      case Skip => GreedySize(cfg, p, limit, pool[1..], size, gas, st);
      case Drop => GreedySize(cfg, p, limit, pool[1..], size, gas, st);
      case Take(info, st') =>
        GreedySize(cfg, p, limit, pool[1..], WrapInt64(size + info.size), WrapUint64(gas + info.gasLimit), st');
        EncodedSizeCons(pool[0], Greedy(cfg, p, limit, pool[1..], WrapInt64(size + info.size), WrapUint64(gas + info.gasLimit), st').include_);
    }
  }

  lemma {:induction false} OneOfTheBids(codec: Codec, pool: seq<Tx>, k: nat)
    requires k < |pool|
    ensures BidSize(codec, pool[k]) <= BidsSize(codec, pool)
  {
    if k > 0 { OneOfTheBids(codec, pool[1..], k - 1); }
  }

  /** The MEV handler includes nothing or one bid of its pool with its bundle. */
  lemma MevSize(cfg: LaneConfig, p: Prop, limit: LaneLimits, pool: seq<Tx>, st: State) returns (at: nat)
    requires PrepareMev(cfg, p, limit, pool, st).Selected?
    ensures at <= |pool|
    ensures var size := EncodedSize(PrepareMev(cfg, p, limit, pool, st).include_);
            && size <= BidsSize(cfg.codec, pool)
            && size == if at == |pool| then 0 else BidSize(cfg.codec, pool[at])
  {
    at := FirstValidBidWins(cfg, p, limit, pool, st);
    if at < |pool| { OneOfTheBids(cfg.codec, pool, at); }
  }
}
