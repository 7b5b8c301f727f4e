/** Proposal accounting: lane limits, the all-or-nothing update, and what any sequence of updates
    keeps. `Prop` is the value of a proposal, `Proposal` the Go struct whose two maps are shared
    by all of its copies. */
module Proposals {
  import opened Types

  /** LegacyDec: an integer scaled by 10^18. A lane's ratio is validated to lie in [0, 1]. */
  const PRECISION: int := 1_000_000_000_000_000_000

  type Ratio = r: int | 0 <= r <= PRECISION

  datatype LaneLimits = LaneLimits(maxTxBytes: int64, maxGasLimit: uint64)

  datatype Prop = Prop(
    txs: seq<Bytes>,
    cache: set<string>,
    txsByLane: map<string, nat>,
    blockSize: int64,
    gasLimit: uint64,
    maxBlockSize: int64,
    maxGasLimit: uint64)

  function NewProposal(maxBlockSize: int64, maxGasLimit: uint64): Prop {
    Prop([], {}, map[], 0, 0, maxBlockSize, maxGasLimit)
  }

  /** GetBlockLimits: a consensus gas limit that is not positive means no limit. */
  function BlockGasLimit(consensusMaxGas: int64): uint64 {
    if consensusMaxGas > 0 then consensusMaxGas else TWO_TO_64 - 1
  }

  /** `ratio.MulInt(max).TruncateInt()`: truncation is toward zero. */
  function Share(ratio: Ratio, max: int): (r: int)
    ensures max >= 0 ==> 0 <= r <= max
    ensures max < 0 ==> max <= r <= 0
  {
    ShareBounds(ratio, max);
    if max >= 0 then ratio * max / PRECISION else -(ratio * -max / PRECISION)
  }

  lemma ShareBounds(ratio: Ratio, max: int)
    ensures max >= 0 ==> 0 <= ratio * max / PRECISION <= max
    ensures max < 0 ==> 0 <= ratio * -max / PRECISION <= -max
  {
    var m := if max >= 0 then max else -max;
    assert 0 <= ratio * m <= PRECISION * m by {
      assert (PRECISION - ratio) * m >= 0;
    }
  }

  function GetLaneLimits(p: Prop, ratio: Ratio): LaneLimits {
    if ratio == 0 then
      var left := WrapInt64(p.maxBlockSize - p.blockSize);
      LaneLimits(if left < 0 then 0 else left,
                 if p.gasLimit >= p.maxGasLimit then 0 else p.maxGasLimit - p.gasLimit)
    else LaneLimits(Share(ratio, p.maxBlockSize), Share(ratio, p.maxGasLimit))
  }

  /** The share is the largest whole amount not above ratio times maximum; below zero, where truncation is
      upwards, the smallest one not below it. */
  lemma BelowShare(ratio: Ratio, max: int, amount: int)
    ensures max >= 0 ==> (amount <= Share(ratio, max) <==> amount * PRECISION <= ratio * max)
    ensures max < 0 ==> (amount <= Share(ratio, max) <==> (amount - 1) * PRECISION < ratio * max)
  {
    var product := if max >= 0 then ratio * max else ratio * -max;
    ShareBounds(ratio, max);
    assert max < 0 ==> ratio * -max == -(ratio * max);
    Quotient(product, amount);
    Quotient(product, -amount);
    Quotient(product, 1 - amount);
  }

  lemma Quotient(product: nat, amount: int)
    ensures amount <= product / PRECISION <==> amount * PRECISION <= product
  {
    var q := product / PRECISION;
    assert product == q * PRECISION + product % PRECISION;
    if amount <= q { assert amount * PRECISION <= q * PRECISION; }
    if amount > q { assert amount * PRECISION >= (q + 1) * PRECISION; }
  }

  /** A lane's limits, in whole bytes and gas: its share of the maxima, or what is left of the block. */
  ghost predicate WithinLane(p: Prop, ratio: Ratio, size: int, gas: nat) {
    if ratio == 0 then
      && (size <= 0 || size <= WrapInt64(p.maxBlockSize - p.blockSize))
      && (gas == 0 || p.gasLimit + gas <= p.maxGasLimit)
    else
      && (if p.maxBlockSize >= 0 then size * PRECISION <= ratio * p.maxBlockSize else (size - 1) * PRECISION < ratio * p.maxBlockSize)
      && gas * PRECISION <= ratio * p.maxGasLimit
  }

  lemma LimitsExactly(p: Prop, ratio: Ratio, size: int, gas: nat)
    ensures size <= GetLaneLimits(p, ratio).maxTxBytes && gas <= GetLaneLimits(p, ratio).maxGasLimit <==> WithinLane(p, ratio, size, gas)
  {
    BelowShare(ratio, p.maxBlockSize, size);
    BelowShare(ratio, p.maxGasLimit, gas);
    hide Share;
  }

  // ----- totals ---------------------------------------------------------------------------

  function TotalSize(infos: seq<TxWithInfo>): nat {
    if infos == [] then 0 else TotalSize(infos[..|infos| - 1]) + infos[|infos| - 1].size
  }

  function TotalGas(infos: seq<TxWithInfo>): nat {
    if infos == [] then 0 else TotalGas(infos[..|infos| - 1]) + infos[|infos| - 1].gasLimit
  }

  function Hashes(infos: seq<TxWithInfo>): set<string> {
    set i | 0 <= i < |infos| :: infos[i].hash
  }

  function TxBytesOf(infos: seq<TxWithInfo>): (r: seq<Bytes>)
    ensures |r| == |infos|
  {
    if infos == [] then [] else TxBytesOf(infos[..|infos| - 1]) + [infos[|infos| - 1].txBytes]
  }

  /** Adding a whole number of turns does not change a remainder. */
  lemma SameTurn(x: int, turns: int)
    ensures (x + turns * TWO_TO_64) % TWO_TO_64 == x % TWO_TO_64
  {
    var a, b := (x + turns * TWO_TO_64) / TWO_TO_64, x / TWO_TO_64;
    var r, s := (x + turns * TWO_TO_64) % TWO_TO_64, x % TWO_TO_64;
    assert r - s == (turns + b - a) * TWO_TO_64;
    assert turns + b - a == 0;
  }

  lemma WrapInt64Adds(a: int, b: int)
    ensures WrapInt64(WrapInt64(a) + b) == WrapInt64(a + b)
  {
    SameTurn(a + b + TWO_TO_63, -((a + TWO_TO_63) / TWO_TO_64));
  }

  lemma WrapUint64Adds(a: int, b: int)
    ensures WrapUint64(WrapUint64(a) + b) == WrapUint64(a + b)
  {
    SameTurn(a + b, -(a / TWO_TO_64));
  }

  /** A running total that wraps at every step is the wrapped total. */
  lemma WrapsAdd(size: int, moreSize: int, gas: int, moreGas: int)
    ensures WrapInt64(WrapInt64(size) + moreSize) == WrapInt64(size + moreSize)
    ensures WrapInt64(WrapInt64(size) + WrapInt64(moreSize)) == WrapInt64(size + moreSize)
    ensures WrapUint64(WrapUint64(gas) + moreGas) == WrapUint64(gas + moreGas)
    ensures WrapUint64(WrapUint64(gas) + WrapUint64(moreGas)) == WrapUint64(gas + moreGas)
  {
    WrapInt64Adds(size, moreSize);
    WrapInt64Adds(size, WrapInt64(moreSize));
    WrapInt64Adds(moreSize, size);
    WrapUint64Adds(gas, moreGas);
    WrapUint64Adds(gas, WrapUint64(moreGas));
    WrapUint64Adds(moreGas, gas);
  }

  // ----- UpdateProposal -------------------------------------------------------------------

  /** The block-level checks: the proposal with this much added stays within its maxima. */
  predicate FitsBlock(p: Prop, size: int64, gas: uint64) {
    WrapInt64(p.blockSize + size) <= p.maxBlockSize && WrapUint64(p.gasLimit + gas) <= p.maxGasLimit
  }

  predicate FitsLane(p: Prop, ratio: Ratio, size: int64, gas: uint64) {
    size <= GetLaneLimits(p, ratio).maxTxBytes && gas <= GetLaneLimits(p, ratio).maxGasLimit
  }

  /** UpdateProposal on values: `None` is an error. The order of the checks does not matter,
      because every one of them leaves the proposal untouched. */
  function Update(p: Prop, lane: string, ratio: Ratio, infos: seq<TxWithInfo>): Option<Prop> {
    var size, gas := WrapInt64(TotalSize(infos)), WrapUint64(TotalGas(infos));
    if infos == [] then Some(p)
    else if lane in p.txsByLane || Hashes(infos) * p.cache != {}
            || !FitsLane(p, ratio, size, gas) || !FitsBlock(p, size, gas) then None
    else Some(p.(txs := p.txs + TxBytesOf(infos),
                 cache := p.cache + Hashes(infos),
                 txsByLane := p.txsByLane[lane := |infos|],
                 blockSize := WrapInt64(p.blockSize + size),
                 gasLimit := WrapUint64(p.gasLimit + gas)))
  }

  /** Exactly when an update succeeds: it adds nothing, or the lane and all its hashes are new, and its
      wrapped totals are within the lane's limits and, added to the block's, within the maxima. */
  lemma UpdateSucceedsExactly(p: Prop, lane: string, ratio: Ratio, infos: seq<TxWithInfo>)
    ensures Update(p, lane, ratio, infos).Some?
            <==> || infos == []
                 || (&& lane !in p.txsByLane && (forall i :: 0 <= i < |infos| ==> infos[i].hash !in p.cache)
                     && WithinLane(p, ratio, WrapInt64(TotalSize(infos)), WrapUint64(TotalGas(infos)))
                     && WrapInt64(p.blockSize + TotalSize(infos)) <= p.maxBlockSize
                     && WrapUint64(p.gasLimit + TotalGas(infos)) <= p.maxGasLimit)
  {
    hide WithinLane, TxBytesOf, Hashes, TotalSize, TotalGas, WrapInt64, WrapUint64, FitsLane, FitsBlock;
    FitsExactly(p, ratio, TotalSize(infos), TotalGas(infos));
    NoneCached(infos, p.cache);
  }

  lemma FitsExactly(p: Prop, ratio: Ratio, size: nat, gas: nat)
    ensures FitsLane(p, ratio, WrapInt64(size), WrapUint64(gas)) <==> WithinLane(p, ratio, WrapInt64(size), WrapUint64(gas))
    ensures FitsBlock(p, WrapInt64(size), WrapUint64(gas))
            <==> WrapInt64(p.blockSize + size) <= p.maxBlockSize && WrapUint64(p.gasLimit + gas) <= p.maxGasLimit
  {
    LimitsExactly(p, ratio, WrapInt64(size), WrapUint64(gas));
    BlockTotals(p, size, gas);
    hide GetLaneLimits, WithinLane, WrapInt64, WrapUint64;
  }

  lemma BlockTotals(p: Prop, size: nat, gas: nat)
    ensures WrapInt64(p.blockSize + WrapInt64(size)) == WrapInt64(p.blockSize + size)
    ensures WrapUint64(p.gasLimit + WrapUint64(gas)) == WrapUint64(p.gasLimit + gas)
  {
    WrapInt64Adds(size, p.blockSize);
    WrapUint64Adds(gas, p.gasLimit);
    assert p.blockSize + WrapInt64(size) == WrapInt64(size) + p.blockSize;
    assert p.gasLimit + WrapUint64(gas) == WrapUint64(gas) + p.gasLimit;
  }

  lemma NoneCached(infos: seq<TxWithInfo>, cache: set<string>)
    ensures Hashes(infos) * cache == {} <==> forall i :: 0 <= i < |infos| ==> infos[i].hash !in cache
  {
    if Hashes(infos) * cache == {} {
      forall i | 0 <= i < |infos| ensures infos[i].hash !in cache {
        assert infos[i].hash in Hashes(infos);
        assert infos[i].hash !in Hashes(infos) * cache;
      }
    }
  }

  // ----- what any sequence of updates keeps -----------------------------------------------

  datatype Call = Call(lane: string, ratio: Ratio, infos: seq<TxWithInfo>)

  /** The state after a sequence of UpdateProposal calls; a failing call changes nothing. */
  function AfterCalls(p: Prop, calls: seq<Call>): Prop {
    if calls == [] then p
    else
      var before, c := AfterCalls(p, calls[..|calls| - 1]), calls[|calls| - 1];
      var r := Update(before, c.lane, c.ratio, c.infos);
      if r.Some? then r.value else before
  }

  /** The calls that contributed transactions. */
  function Contributions(p: Prop, calls: seq<Call>): seq<Call> {
    if calls == [] then []
    else
      var earlier, c := calls[..|calls| - 1], calls[|calls| - 1];
      Contributions(p, earlier)
      + if c.infos != [] && Update(AfterCalls(p, earlier), c.lane, c.ratio, c.infos).Some? then [c] else []
  }

  function AllInfos(calls: seq<Call>): seq<TxWithInfo> {
    if calls == [] then [] else AllInfos(calls[..|calls| - 1]) + calls[|calls| - 1].infos
  }

  /** TxsByLane has one entry per contribution, and no lane contributed twice. */
  ghost predicate Lanes(txsByLane: map<string, nat>, parts: seq<Call>) {
    && (forall lane :: lane in txsByLane ==> exists i :: 0 <= i < |parts| && parts[i].lane == lane)
    && (forall i :: 0 <= i < |parts| ==> parts[i].lane in txsByLane && txsByLane[parts[i].lane] == |parts[i].infos|)
    && (forall i, j :: 0 <= i < j < |parts| ==> parts[i].lane != parts[j].lane)
  }

  ghost predicate DisjointHashes(parts: seq<Call>) {
    forall i, j :: 0 <= i < j < |parts| ==> Hashes(parts[i].infos) * Hashes(parts[j].infos) == {}
  }

  /** The proposal is exactly the sum of its contributions, no lane contributed twice, and no
      transaction of one contribution has the hash of one in another. */
  ghost predicate Accounts(p: Prop, parts: seq<Call>) {
    && p.txs == TxBytesOf(AllInfos(parts))
    && p.cache == Hashes(AllInfos(parts))
    && Lanes(p.txsByLane, parts)
    && DisjointHashes(parts)
    && p.blockSize == WrapInt64(TotalSize(AllInfos(parts)))
    && p.gasLimit == WrapUint64(TotalGas(AllInfos(parts)))
  }

  lemma {:induction false} TotalsAdd(a: seq<TxWithInfo>, b: seq<TxWithInfo>)
    ensures TotalSize(a + b) == TotalSize(a) + TotalSize(b)
    ensures TotalGas(a + b) == TotalGas(a) + TotalGas(b)
    ensures TxBytesOf(a + b) == TxBytesOf(a) + TxBytesOf(b)
  {
    if b == [] {
      assert a + b == a;
    } else {
      assert (a + b)[..|a + b| - 1] == a + b[..|b| - 1];
      TotalsAdd(a, b[..|b| - 1]);
    }
  }

  lemma HashesAdd(a: seq<TxWithInfo>, b: seq<TxWithInfo>)
    ensures Hashes(a + b) == Hashes(a) + Hashes(b)
  {
    forall h | h in Hashes(a) + Hashes(b) ensures h in Hashes(a + b) {
      if h in Hashes(a) {
        var i :| 0 <= i < |a| && a[i].hash == h;
        assert (a + b)[i].hash == h;
      } else {
        var i :| 0 <= i < |b| && b[i].hash == h;
        assert (a + b)[|a| + i].hash == h;
      }
    }
  }

  lemma {:induction false} PartHashes(parts: seq<Call>, i: nat)
    requires i < |parts|
    ensures Hashes(parts[i].infos) <= Hashes(AllInfos(parts))
  {
    var front := parts[..|parts| - 1];
    HashesAdd(AllInfos(front), parts[|parts| - 1].infos);
    if i < |front| { PartHashes(front, i); }
  }

  /** One more contribution. */
  lemma UpdateAccounts(p: Prop, parts: seq<Call>, c: Call)
    requires Accounts(p, parts) && c.infos != []
    requires Update(p, c.lane, c.ratio, c.infos).Some?
    ensures Accounts(Update(p, c.lane, c.ratio, c.infos).value, parts + [c])
  {
    assert (parts + [c])[..|parts|] == parts;
    hide Lanes, DisjointHashes, Hashes, TotalSize, TotalGas, TxBytesOf, FitsLane, FitsBlock, WrapInt64, WrapUint64;
    UpdateDisjoint(parts, c);
    UpdateLanes(p, parts, c);
    UpdateTotals(p, AllInfos(parts), c);
  }

  /** The contribution is appended to the transactions, hashes and totals. */
  lemma UpdateTotals(p: Prop, a: seq<TxWithInfo>, c: Call)
    requires p.txs == TxBytesOf(a) && p.cache == Hashes(a)
    requires p.blockSize == WrapInt64(TotalSize(a)) && p.gasLimit == WrapUint64(TotalGas(a))
    requires c.infos != [] && Update(p, c.lane, c.ratio, c.infos).Some?
    ensures var p' := Update(p, c.lane, c.ratio, c.infos).value;
            && p'.txs == TxBytesOf(a + c.infos) && p'.cache == Hashes(a + c.infos)
            && p'.blockSize == WrapInt64(TotalSize(a + c.infos)) && p'.gasLimit == WrapUint64(TotalGas(a + c.infos))
  {
    TotalsAdd(a, c.infos);
    HashesAdd(a, c.infos);
    WrapsAdd(TotalSize(a), TotalSize(c.infos), TotalGas(a), TotalGas(c.infos));
    hide Hashes, TotalSize, TotalGas, TxBytesOf, FitsLane, FitsBlock, WrapInt64, WrapUint64;
  }

  lemma UpdateDisjoint(parts: seq<Call>, c: Call)
    requires DisjointHashes(parts) && Hashes(c.infos) * Hashes(AllInfos(parts)) == {}
    ensures DisjointHashes(parts + [c])
  {
    forall i | 0 <= i < |parts| ensures Hashes(parts[i].infos) * Hashes(c.infos) == {} {
      PartHashes(parts, i);
    }
  }

  lemma UpdateLanes(p: Prop, parts: seq<Call>, c: Call)
    requires Lanes(p.txsByLane, parts) && c.lane !in p.txsByLane
    ensures Lanes(p.txsByLane[c.lane := |c.infos|], parts + [c])
  {
    var parts' := parts + [c];
    var txsByLane' := p.txsByLane[c.lane := |c.infos|];
    forall lane | lane in txsByLane' ensures exists i :: 0 <= i < |parts'| && parts'[i].lane == lane {
      if lane == c.lane {
        assert parts'[|parts|].lane == lane;
      } else {
        var i :| 0 <= i < |parts| && parts[i].lane == lane;
        assert parts'[i].lane == lane;
      }
    }
  }

  /** After any sequence of UpdateProposal calls on a new proposal. */
  lemma {:induction false} AnyCallsAccount(maxBlockSize: int64, maxGasLimit: uint64, calls: seq<Call>)
    ensures var p0 := NewProposal(maxBlockSize, maxGasLimit);
            Accounts(AfterCalls(p0, calls), Contributions(p0, calls))
  {
    if calls != [] {
      var p0 := NewProposal(maxBlockSize, maxGasLimit);
      var earlier, c := calls[..|calls| - 1], calls[|calls| - 1];
      AnyCallsAccount(maxBlockSize, maxGasLimit, earlier);
      if c.infos != [] && Update(AfterCalls(p0, earlier), c.lane, c.ratio, c.infos).Some? {
        UpdateAccounts(AfterCalls(p0, earlier), Contributions(p0, earlier), c);
      } else {
        assert Contributions(p0, calls) == Contributions(p0, earlier);
      }
    }
  }

  /** While the true totals fit their integer types, BlockSize and GasLimit are those totals and
      stay within the maxima. */
  lemma AnyCallsFit(maxBlockSize: int64, maxGasLimit: uint64, calls: seq<Call>)
    requires var all := AllInfos(Contributions(NewProposal(maxBlockSize, maxGasLimit), calls));
             TotalSize(all) < TWO_TO_63 && TotalGas(all) < TWO_TO_64
    ensures var p := AfterCalls(NewProposal(maxBlockSize, maxGasLimit), calls);
            var parts := Contributions(NewProposal(maxBlockSize, maxGasLimit), calls);
            && p.blockSize == TotalSize(AllInfos(parts)) && p.gasLimit == TotalGas(AllInfos(parts))
            && (parts != [] ==> p.blockSize <= maxBlockSize && p.gasLimit <= maxGasLimit)
  {
    AnyCallsAccount(maxBlockSize, maxGasLimit, calls);
    WithinMaxima(NewProposal(maxBlockSize, maxGasLimit), calls);
  }

  lemma {:induction false} WithinMaxima(p0: Prop, calls: seq<Call>)
    ensures var p := AfterCalls(p0, calls);
            && p.maxBlockSize == p0.maxBlockSize && p.maxGasLimit == p0.maxGasLimit
            && (Contributions(p0, calls) != [] ==> p.blockSize <= p.maxBlockSize && p.gasLimit <= p.maxGasLimit)
  {
    if calls != [] { WithinMaxima(p0, calls[..|calls| - 1]); }
  }

  /** The sum of all values of TxsByLane. */
  ghost function SumCounts(counts: map<string, nat>): nat {
    if counts == map[] then 0
    else
      var lane :| lane in counts;
      counts[lane] + SumCounts(counts - {lane})
  }

  /** It does not matter which lane is counted first. */
  lemma {:induction false} SumWithout(counts: map<string, nat>, lane: string)
    requires lane in counts
    ensures SumCounts(counts) == counts[lane] + SumCounts(counts - {lane})
  {
    var first :| first in counts && SumCounts(counts) == counts[first] + SumCounts(counts - {first});
    if first != lane {
      SumWithout(counts - {first}, lane);
      SumWithout(counts - {lane}, first);
      assert counts - {first} - {lane} == counts - {lane} - {first};
    }
  }

  /** After any sequence of UpdateProposal calls on a new proposal, len(Txs) is the sum of TxsByLane. */
  lemma {:induction false} TxsAreCounted(maxBlockSize: int64, maxGasLimit: uint64, calls: seq<Call>)
    ensures var p := AfterCalls(NewProposal(maxBlockSize, maxGasLimit), calls);
            |p.txs| == SumCounts(p.txsByLane)
  {
    if calls != [] {
      var before, c := AfterCalls(NewProposal(maxBlockSize, maxGasLimit), calls[..|calls| - 1]), calls[|calls| - 1];
      TxsAreCounted(maxBlockSize, maxGasLimit, calls[..|calls| - 1]);
      var r := Update(before, c.lane, c.ratio, c.infos);
      if c.infos != [] && r.Some? {
        SumWithout(r.value.txsByLane, c.lane);
        assert r.value.txsByLane - {c.lane} == before.txsByLane;
      }
    }
  }

  // ----- the struct with shared maps ------------------------------------------------------

  /** The two Go maps of a proposal; copies of the struct share them. */
  class ProposalMaps {
    var cache: set<string>
    var txsByLane: map<string, nat>

    constructor ()
      ensures cache == {} && txsByLane == map[]
    {
      cache, txsByLane := {}, map[];
    }
  }

  datatype Proposal = Proposal(
    txs: seq<Bytes>,
    maps: ProposalMaps,
    blockSize: int64,
    gasLimit: uint64,
    maxBlockSize: int64,
    maxGasLimit: uint64)
  {
    function Value(): Prop
      reads maps
    {
      Prop(txs, maps.cache, maps.txsByLane, blockSize, gasLimit, maxBlockSize, maxGasLimit)
    }
  }

  /** UpdateProposal on the caller's copy. On an error neither the copy nor the shared maps have
      changed. */
  method UpdateProposal(p: Proposal, lane: string, ratio: Ratio, infos: seq<TxWithInfo>) returns (r: Proposal, ok: bool)
    modifies p.maps
    ensures r.maps == p.maps
    ensures ok <==> Update(old(p.Value()), lane, ratio, infos).Some?
    ensures ok ==> Some(r.Value()) == Update(old(p.Value()), lane, ratio, infos)
    ensures !ok ==> r == p && unchanged(p.maps)
  {
    hide WrapInt64, WrapUint64, GetLaneLimits, Hashes, TotalSize, TotalGas, TxBytesOf;
    if |infos| == 0 { return p, true; }
    if lane in p.maps.txsByLane { return p, false; }
    var allNew, hashes, size, gas := Aggregate(p, infos);
    if !allNew { return p, false; }
    var limit := GetLaneLimits(p.Value(), ratio);
    if size > limit.maxTxBytes || gas > limit.maxGasLimit { return p, false; }
    var updatedSize := WrapInt64(p.blockSize + size);
    if updatedSize > p.maxBlockSize { return p, false; }
    var updatedGas := WrapUint64(p.gasLimit + gas);
    if updatedGas > p.maxGasLimit { return p, false; }
    p.maps.txsByLane := p.maps.txsByLane[lane := |infos|];
    p.maps.cache := p.maps.cache + hashes;
    return p.(txs := p.txs + TxBytesOf(infos), blockSize := updatedSize, gasLimit := updatedGas), true;
  }

  /** The loop of UpdateProposal: collects hashes and running totals, and stops at a transaction
      that is already in the proposal. */
  method Aggregate(p: Proposal, infos: seq<TxWithInfo>) returns (allNew: bool, hashes: set<string>, size: int64, gas: uint64)
    ensures allNew <==> Hashes(infos) * p.maps.cache == {}
    ensures allNew ==> hashes == Hashes(infos) && size == WrapInt64(TotalSize(infos)) && gas == WrapUint64(TotalGas(infos))
  {
    hashes, size, gas := {}, 0, 0;
    var i := 0;
    while i < |infos|
      invariant i <= |infos|
      invariant hashes == Hashes(infos[..i]) && hashes * p.maps.cache == {}
      invariant size == WrapInt64(TotalSize(infos[..i])) && gas == WrapUint64(TotalGas(infos[..i]))
    {
      hide WrapInt64, WrapUint64;
      var tx := infos[i];
      TakeOneMore(infos, i);
      if tx.hash in p.maps.cache {
        assert tx.hash in Hashes(infos) * p.maps.cache;
        return false, hashes, size, gas;
      }
      WrapsAdd(TotalSize(infos[..i]), tx.size, TotalGas(infos[..i]), tx.gasLimit);
      hashes := hashes + {tx.hash};
      size := WrapInt64(size + tx.size);
      gas := WrapUint64(gas + tx.gasLimit);
      i := i + 1;
    }
    assert infos[..i] == infos;
    allNew := true;
  }

  lemma TakeOneMore(infos: seq<TxWithInfo>, i: nat)
    requires i < |infos|
    ensures Hashes(infos[..i + 1]) == Hashes(infos[..i]) + {infos[i].hash}
    ensures infos[i].hash in Hashes(infos)
    ensures TotalSize(infos[..i + 1]) == TotalSize(infos[..i]) + infos[i].size
    ensures TotalGas(infos[..i + 1]) == TotalGas(infos[..i]) + infos[i].gasLimit
  {
    assert infos[..i + 1] == infos[..i] + [infos[i]];
    assert infos[..i + 1][..i] == infos[..i];
    HashesAdd(infos[..i], [infos[i]]);
    assert [infos[i]][0].hash in Hashes([infos[i]]);
  }
}
