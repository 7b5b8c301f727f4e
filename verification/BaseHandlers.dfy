/** The default PrepareLaneHandler and ProcessLaneHandler as functions, and what they promise. */
module BaseHandlers {
  import opened Types
  import opened Ordering
  import opened Iteration
  import opened Proposals
  import opened LaneModel

  /** What the prepare handler decides about one transaction. */
  datatype Verdict = Drop | Skip | Take(info: TxWithInfo, state: State) | Crash

  /** The checks of one turn of the prepare loop, in the order they are made. */
  function Judge(cfg: LaneConfig, p: Prop, limit: LaneLimits, tx: Tx, size: int64, gas: uint64, st: State): Verdict {
    var info := GetTxInfo(cfg.codec, tx);
    if info.None? then Drop
    else if info.value.gasLimit > limit.maxGasLimit then Drop
    else if info.value.size > limit.maxTxBytes then Drop
    else if !cfg.matches(tx) then Drop
    else if info.value.hash in p.cache then Skip
    else if WrapInt64(size + info.value.size) > limit.maxTxBytes then Skip
    else if WrapUint64(gas + info.value.gasLimit) > limit.maxGasLimit then Skip
    else match VerifyTx(cfg, st, tx)
      case Passed(st') => Take(info.value, st')
      case Failed => Drop
      case Panicked => Crash
  }

  /** The prepare loop over what is left of the pool, with its running totals and state. */
  function Greedy(cfg: LaneConfig, p: Prop, limit: LaneLimits, pool: seq<Tx>, size: int64, gas: uint64, st: State): PrepareResult {
    if pool == [] then Selected([], [], st)
    else
      match Judge(cfg, p, limit, pool[0], size, gas, st)
      case Crash => PrepareFailed
      case Skip => Greedy(cfg, p, limit, pool[1..], size, gas, st)
      case Drop =>
        var r := Greedy(cfg, p, limit, pool[1..], size, gas, st);
        if r.Selected? then r.(remove := [pool[0]] + r.remove) else r
      case Take(info, st') =>
        var r := Greedy(cfg, p, limit, pool[1..], WrapInt64(size + info.size), WrapUint64(gas + info.gasLimit), st');
        if r.Selected? then r.(include_ := [pool[0]] + r.include_) else r
  }

  function PrepareBase(cfg: LaneConfig, p: Prop, limit: LaneLimits, pool: seq<Tx>, st: State): PrepareResult {
    Greedy(cfg, p, limit, pool, 0, 0, st)
  }

  // ----- every transaction in exactly one class -------------------------------------------

  datatype Mark = Included | Removed | Left

  function Pick(pool: seq<Tx>, marks: seq<Mark>, mark: Mark): seq<Tx>
    requires |pool| == |marks|
  {
    if pool == [] then []
    else (if marks[0] == mark then [pool[0]] else []) + Pick(pool[1..], marks[1..], mark)
  }

  /** The handler gives every transaction of the pool exactly one mark; the included and the
      removed ones come back in pool order, the others stay in the pool. */
  lemma {:induction false} GreedyPartitions(cfg: LaneConfig, p: Prop, limit: LaneLimits, pool: seq<Tx>, size: int64, gas: uint64, st: State) returns (marks: seq<Mark>)
    requires Greedy(cfg, p, limit, pool, size, gas, st).Selected?
    ensures |marks| == |pool|
    ensures Greedy(cfg, p, limit, pool, size, gas, st).include_ == Pick(pool, marks, Included)
    ensures Greedy(cfg, p, limit, pool, size, gas, st).remove == Pick(pool, marks, Removed)
  {
    if pool == [] {
      marks := [];
    } else {
      match Judge(cfg, p, limit, pool[0], size, gas, st)
      case Skip =>
        var rest := GreedyPartitions(cfg, p, limit, pool[1..], size, gas, st);
        marks := [Left] + rest;
      case Drop =>
        var rest := GreedyPartitions(cfg, p, limit, pool[1..], size, gas, st);
        marks := [Removed] + rest;
      case Take(info, st') =>
        var rest := GreedyPartitions(cfg, p, limit, pool[1..], WrapInt64(size + info.size), WrapUint64(gas + info.gasLimit), st');
        marks := [Included] + rest;
    }
  }

  /** What is picked: the transactions with that mark. */
  lemma {:induction false} PickedExactly(pool: seq<Tx>, marks: seq<Mark>, mark: Mark, tx: Tx)
    requires |pool| == |marks|
    ensures tx in Pick(pool, marks, mark) <==> exists k :: 0 <= k < |pool| && marks[k] == mark && pool[k] == tx
  {
    if pool != [] {
      PickedExactly(pool[1..], marks[1..], mark, tx);
      if k :| 0 <= k < |pool[1..]| && marks[1..][k] == mark && pool[1..][k] == tx { assert marks[k + 1] == mark && pool[k + 1] == tx; }
      if k :| 0 <= k < |pool| && marks[k] == mark && pool[k] == tx && k > 0 { assert marks[1..][k - 1] == mark && pool[1..][k - 1] == tx; }
    }
  }

  /** Two transactions picked in a row come from two places of the pool in that order. */
  lemma {:induction false} PickedInOrder(pool: seq<Tx>, marks: seq<Mark>, mark: Mark, n: nat) returns (i: nat, j: nat)
    requires |pool| == |marks| && n + 1 < |Pick(pool, marks, mark)|
    ensures i < j < |pool|
    ensures Pick(pool, marks, mark)[n] == pool[i] && Pick(pool, marks, mark)[n + 1] == pool[j]
  {
    if marks[0] == mark && n == 0 {
      var k := PickedFrom(pool[1..], marks[1..], mark, 0);
      i, j := 0, k + 1;
    } else {
      var n' := if marks[0] == mark then n - 1 else n;
      var i', j' := PickedInOrder(pool[1..], marks[1..], mark, n');
      i, j := i' + 1, j' + 1;
    }
  }

  lemma {:induction false} PickedFrom(pool: seq<Tx>, marks: seq<Mark>, mark: Mark, n: nat) returns (i: nat)
    requires |pool| == |marks| && n < |Pick(pool, marks, mark)|
    ensures i < |pool| && Pick(pool, marks, mark)[n] == pool[i]
  {
    if marks[0] == mark && n == 0 {
      i := 0;
    } else {
      var k := PickedFrom(pool[1..], marks[1..], mark, if marks[0] == mark then n - 1 else n);
      i := k + 1;
    }
  }

  // ----- what the included list guarantees ------------------------------------------------

  ghost predicate Admissible(cfg: LaneConfig, p: Prop, limit: LaneLimits, tx: Tx) {
    && GetTxInfo(cfg.codec, tx).Some?
    && cfg.matches(tx)
    && GetTxInfo(cfg.codec, tx).value.hash !in p.cache
    && GetTxInfo(cfg.codec, tx).value.size <= limit.maxTxBytes
    && GetTxInfo(cfg.codec, tx).value.gasLimit <= limit.maxGasLimit
  }

  /** The included list: it matches, verifies from the entry state to the exit state, is new to the
      proposal, and its wrapped running totals never exceed the limits. */
  lemma {:induction false} GreedyIncludes(cfg: LaneConfig, p: Prop, limit: LaneLimits, pool: seq<Tx>, size: int64, gas: uint64, st: State)
    requires Greedy(cfg, p, limit, pool, size, gas, st).Selected?
    ensures var r := Greedy(cfg, p, limit, pool, size, gas, st);
            && VerifyAll(cfg, st, r.include_) == Some(r.state)
            && (forall i :: 0 <= i < |r.include_| ==> Admissible(cfg, p, limit, r.include_[i]))
            && (forall n :: 0 < n <= |r.include_| ==> WithinLimits(cfg, limit, r.include_[..n], size, gas))
  {
    hide WithinLimits, WrapInt64, WrapUint64;
    if pool != [] {
      match Judge(cfg, p, limit, pool[0], size, gas, st)
      case Skip => GreedyIncludes(cfg, p, limit, pool[1..], size, gas, st);
      case Drop => GreedyIncludes(cfg, p, limit, pool[1..], size, gas, st);
      case Take(info, st') =>
        var size', gas' := WrapInt64(size + info.size), WrapUint64(gas + info.gasLimit);
        GreedyIncludes(cfg, p, limit, pool[1..], size', gas', st');
        var rest := Greedy(cfg, p, limit, pool[1..], size', gas', st').include_;
        var include_ := [pool[0]] + rest;
        assert include_[1..] == rest;
        forall n | 0 < n <= |include_| ensures WithinLimits(cfg, limit, include_[..n], size, gas) {
          TakeExtends(cfg, limit, pool[0], rest[..n - 1], size, gas);
          assert include_[..n] == [pool[0]] + rest[..n - 1];
        }
    }
  }

  /** The running totals after these transactions, as the loop computes them. */
  ghost predicate TotalsWithin(limit: LaneLimits, infos: seq<TxWithInfo>, size: int64, gas: uint64) {
    && WrapInt64(size + TotalSize(infos)) <= limit.maxTxBytes
    && WrapUint64(gas + TotalGas(infos)) <= limit.maxGasLimit
  }

  ghost predicate WithinLimits(cfg: LaneConfig, limit: LaneLimits, txs: seq<Tx>, size: int64, gas: uint64) {
    InfosOf(cfg.codec, txs).Some? && TotalsWithin(limit, InfosOf(cfg.codec, txs).value, size, gas)
  }

  lemma TakeExtends(cfg: LaneConfig, limit: LaneLimits, tx: Tx, rest: seq<Tx>, size: int64, gas: uint64)
    requires GetTxInfo(cfg.codec, tx).Some?
    requires var info := GetTxInfo(cfg.codec, tx).value;
             var size', gas' := WrapInt64(size + info.size), WrapUint64(gas + info.gasLimit);
             && size' <= limit.maxTxBytes && gas' <= limit.maxGasLimit
             && (rest != [] ==> WithinLimits(cfg, limit, rest, size', gas'))
    ensures WithinLimits(cfg, limit, [tx] + rest, size, gas)
  {
    var info := GetTxInfo(cfg.codec, tx).value;
    InfosOne(cfg.codec, tx);
    if rest == [] {
      assert [tx] + rest == [tx];
      TotalsOne(info);
    } else {
      InfosSplit(cfg.codec, [tx], rest);
      TakeTotals(limit, info, InfosOf(cfg.codec, rest).value, size, gas);
      hide TotalsWithin, InfosOf;
    }
  }

  lemma TakeTotals(limit: LaneLimits, info: TxWithInfo, infos: seq<TxWithInfo>, size: int64, gas: uint64)
    requires TotalsWithin(limit, infos, WrapInt64(size + info.size), WrapUint64(gas + info.gasLimit))
    ensures TotalsWithin(limit, [info] + infos, size, gas)
  {
    TotalsAdd([info], infos);
    TotalsOne(info);
    WrapsAdd(size + info.size, TotalSize(infos), gas + info.gasLimit, TotalGas(infos));
    hide WrapInt64, WrapUint64, TotalSize, TotalGas;
    assert size + info.size + TotalSize(infos) == size + TotalSize([info] + infos);
    assert gas + info.gasLimit + TotalGas(infos) == gas + TotalGas([info] + infos);
  }

  lemma TotalsOne(info: TxWithInfo)
    ensures TotalSize([info]) == info.size && TotalGas([info]) == info.gasLimit
  {
    assert [info][..0] == [];
  }

  /** UpdateProposal's hash and lane-limit checks never reject what the default handler selected:
      only a repeated lane name or a block-level limit can. */
  lemma GreedyPassesLaneChecks(cfg: LaneConfig, p: Prop, st: State, pool: seq<Tx>)
    requires PrepareBase(cfg, p, GetLaneLimits(p, cfg.ratio), pool, st).Selected?
    ensures var r := PrepareBase(cfg, p, GetLaneLimits(p, cfg.ratio), pool, st);
            && InfosOf(cfg.codec, r.include_).Some?
            && var infos := InfosOf(cfg.codec, r.include_).value;
               && (infos != [] ==> FitsLane(p, cfg.ratio, WrapInt64(TotalSize(infos)), WrapUint64(TotalGas(infos))))
               && (Update(p, cfg.name, cfg.ratio, infos).None?
                   <==> infos != [] && (cfg.name in p.txsByLane
                                        || !FitsBlock(p, WrapInt64(TotalSize(infos)), WrapUint64(TotalGas(infos)))))
  {
    var limit := GetLaneLimits(p, cfg.ratio);
    var r := PrepareBase(cfg, p, limit, pool, st);
    GreedyIncludes(cfg, p, limit, pool, 0, 0, st);
    if r.include_ != [] {
      assert r.include_[..|r.include_|] == r.include_;
      assert WithinLimits(cfg, limit, r.include_, 0, 0);
      var infos := InfosOf(cfg.codec, r.include_).value;
      NewHashes(cfg, p, limit, r.include_);
    }
  }

  lemma {:induction false} NewHashes(cfg: LaneConfig, p: Prop, limit: LaneLimits, txs: seq<Tx>)
    requires InfosOf(cfg.codec, txs).Some?
    requires forall i :: 0 <= i < |txs| ==> Admissible(cfg, p, limit, txs[i])
    ensures Hashes(InfosOf(cfg.codec, txs).value) * p.cache == {}
  {
    if txs != [] {
      var front := txs[..|txs| - 1];
      NewHashes(cfg, p, limit, front);
      HashesAdd(InfosOf(cfg.codec, front).value, [GetTxInfo(cfg.codec, txs[|txs| - 1]).value]);
    }
  }

  /** One turn of the prepare loop, seen from the result. */
  lemma GreedyStep(cfg: LaneConfig, p: Prop, limit: LaneLimits, pool: seq<Tx>, size: int64, gas: uint64, st: State)
    ensures var r := Greedy(cfg, p, limit, pool, size, gas, st);
            if pool == [] then r == Selected([], [], st)
            else match Judge(cfg, p, limit, pool[0], size, gas, st)
            case Crash => r.PrepareFailed?
            case Skip => r == Greedy(cfg, p, limit, pool[1..], size, gas, st)
            case Drop =>
              (var rest := Greedy(cfg, p, limit, pool[1..], size, gas, st);
               rest.Selected? ==> r.Selected? && r.include_ == rest.include_)
            case Take(info, st') =>
              (var rest := Greedy(cfg, p, limit, pool[1..], WrapInt64(size + info.size), WrapUint64(gas + info.gasLimit), st');
               rest.Selected? ==> r.Selected? && r.include_ == [pool[0]] + rest.include_)
  {
    hide Judge, WrapInt64, WrapUint64;
  }

  /** The lane could include the whole pool: each transaction is the lane's and new to the proposal,
      and all of them together fit. */
  ghost predicate PoolFits(cfg: LaneConfig, p: Prop, limit: LaneLimits, pool: seq<Tx>, size: nat, gas: nat) {
    && (forall i :: 0 <= i < |pool| ==> Admissible(cfg, p, limit, pool[i]))
    && InfosOf(cfg.codec, pool).Some?
    && size + TotalSize(InfosOf(cfg.codec, pool).value) <= limit.maxTxBytes
    && gas + TotalGas(InfosOf(cfg.codec, pool).value) <= limit.maxGasLimit
  }

  lemma FirstFits(cfg: LaneConfig, p: Prop, limit: LaneLimits, pool: seq<Tx>, size: nat, gas: nat)
    requires pool != [] && PoolFits(cfg, p, limit, pool, size, gas)
    ensures GetTxInfo(cfg.codec, pool[0]).Some?
    ensures var info := GetTxInfo(cfg.codec, pool[0]).value;
            && size + info.size <= limit.maxTxBytes && gas + info.gasLimit <= limit.maxGasLimit
            && PoolFits(cfg, p, limit, pool[1..], size, gas)
            && PoolFits(cfg, p, limit, pool[1..], size + info.size, gas + info.gasLimit)
  {
    var rest := pool[1..];
    assert pool == [pool[0]] + rest;
    InfosSplit(cfg.codec, [pool[0]], rest);
    InfosOne(cfg.codec, pool[0]);
    var info := GetTxInfo(cfg.codec, pool[0]).value;
    var infos := InfosOf(cfg.codec, rest).value;
    TotalsAdd([info], infos);
    TotalsOne(info);
  }

  /** Below half the range of a uint64 the running gas total is the true one. */
  lemma {:induction false} GasTotalsExact(cfg: LaneConfig, p: Prop, limit: LaneLimits, txs: seq<Tx>)
    requires limit.maxGasLimit < TWO_TO_63
    requires forall i :: 0 <= i < |txs| ==> Admissible(cfg, p, limit, txs[i])
    requires forall n :: 0 < n <= |txs| ==> WithinLimits(cfg, limit, txs[..n], 0, 0)
    ensures InfosOf(cfg.codec, txs).Some? && TotalGas(InfosOf(cfg.codec, txs).value) <= limit.maxGasLimit
  {
    if txs != [] {
      var front := txs[..|txs| - 1];
      forall n | 0 < n <= |front| ensures WithinLimits(cfg, limit, front[..n], 0, 0) {
        assert front[..n] == txs[..n];
      }
      GasTotalsExact(cfg, p, limit, front);
      assert txs[..|txs|] == txs;
      assert WithinLimits(cfg, limit, txs, 0, 0);
      assert Admissible(cfg, p, limit, txs[|txs| - 1]);
      var infos := InfosOf(cfg.codec, txs).value;
      assert infos[..|infos| - 1] == InfosOf(cfg.codec, front).value;
    }
  }

  /** Below half the range of an int64 the running size total is the true one. */
  lemma {:induction false} SizeTotalsExact(cfg: LaneConfig, p: Prop, limit: LaneLimits, txs: seq<Tx>)
    requires 0 <= limit.maxTxBytes < TWO_TO_63 / 2
    requires forall i :: 0 <= i < |txs| ==> Admissible(cfg, p, limit, txs[i])
    requires forall n :: 0 < n <= |txs| ==> WithinLimits(cfg, limit, txs[..n], 0, 0)
    ensures InfosOf(cfg.codec, txs).Some? && TotalSize(InfosOf(cfg.codec, txs).value) <= limit.maxTxBytes
  {
    if txs != [] {
      var front := txs[..|txs| - 1];
      forall n | 0 < n <= |front| ensures WithinLimits(cfg, limit, front[..n], 0, 0) {
        assert front[..n] == txs[..n];
      }
      SizeTotalsExact(cfg, p, limit, front);
      assert txs[..|txs|] == txs;
      assert WithinLimits(cfg, limit, txs, 0, 0);
      assert Admissible(cfg, p, limit, txs[|txs| - 1]);
      var infos := InfosOf(cfg.codec, txs).value;
      assert infos[..|infos| - 1] == InfosOf(cfg.codec, front).value;
    }
  }

  /** When consensus sets a positive gas limit, what a lane includes truly uses no more gas than the
      lane is allotted: the running total never wraps. */
  lemma IncludedGasIsExact(cfg: LaneConfig, p: Prop, pool: seq<Tx>, st: State, consensusMaxGas: int64)
    requires consensusMaxGas > 0 && p.maxGasLimit == BlockGasLimit(consensusMaxGas)
    requires PrepareBase(cfg, p, GetLaneLimits(p, cfg.ratio), pool, st).Selected?
    ensures var include_ := PrepareBase(cfg, p, GetLaneLimits(p, cfg.ratio), pool, st).include_;
            && InfosOf(cfg.codec, include_).Some?
            && TotalGas(InfosOf(cfg.codec, include_).value) <= GetLaneLimits(p, cfg.ratio).maxGasLimit < TWO_TO_63
  {
    var limit := GetLaneLimits(p, cfg.ratio);
    assert limit.maxGasLimit <= p.maxGasLimit;
    GreedyIncludes(cfg, p, limit, pool, 0, 0, st);
    hide Greedy, Admissible, WithinLimits, GetLaneLimits, VerifyAll;
    GasTotalsExact(cfg, p, limit, PrepareBase(cfg, p, limit, pool, st).include_);
  }

  /** The same for sizes, in a block of fewer than 2^62 bytes. */
  lemma IncludedSizeIsExact(cfg: LaneConfig, p: Prop, pool: seq<Tx>, st: State)
    requires 0 <= p.blockSize && 0 <= p.maxBlockSize < TWO_TO_63 / 2
    requires PrepareBase(cfg, p, GetLaneLimits(p, cfg.ratio), pool, st).Selected?
    ensures var include_ := PrepareBase(cfg, p, GetLaneLimits(p, cfg.ratio), pool, st).include_;
            && InfosOf(cfg.codec, include_).Some?
            && TotalSize(InfosOf(cfg.codec, include_).value) <= GetLaneLimits(p, cfg.ratio).maxTxBytes <= p.maxBlockSize
  {
    var limit := GetLaneLimits(p, cfg.ratio);
    assert 0 <= limit.maxTxBytes <= p.maxBlockSize;
    GreedyIncludes(cfg, p, limit, pool, 0, 0, st);
    hide Greedy, Admissible, WithinLimits, GetLaneLimits, VerifyAll;
    SizeTotalsExact(cfg, p, limit, PrepareBase(cfg, p, limit, pool, st).include_);
  }

  /** The loop's gas check means what it says for this total and transaction. */
  ghost predicate GasCheckHonest(limit: uint64, total: uint64, gas: uint64) {
    WrapUint64(total + gas) <= limit <==> total + gas <= limit
  }

  ghost predicate SizeCheckHonest(limit: int64, total: int64, size: int64) {
    WrapInt64(total + size) <= limit <==> total + size <= limit
  }

  /** Exactly when the wrapping gas check is honest for every admitted total and transaction: when
      the limit is below 2^63. Every positive consensus gas limit is; the limit used when consensus
      sets none, 2^64 - 1, is not. */
  lemma GasCheckHonestBelowHalf(limit: uint64)
    ensures (forall total: uint64, gas: uint64 :: total <= limit && gas <= limit ==> GasCheckHonest(limit, total, gas))
            <==> limit < TWO_TO_63
  {
    if limit >= TWO_TO_63 {
      var gas: uint64 := TWO_TO_64 - limit;
      assert WrapUint64(limit + gas) == 0;
      assert !GasCheckHonest(limit, limit, gas);
    }
  }

  /** The same for the size check, whose limit must be below 2^62. */
  lemma SizeCheckHonestBelowHalf(limit: int64)
    requires 0 <= limit
    ensures (forall total: int64, size: int64 :: 0 <= total <= limit && 0 <= size <= limit ==> SizeCheckHonest(limit, total, size))
            <==> limit < TWO_TO_63 / 2
  {
    if limit >= TWO_TO_63 / 2 {
      var size: int64 := TWO_TO_63 - limit;
      assert WrapInt64(limit + size) == -TWO_TO_63;
      assert !SizeCheckHonest(limit, limit, size);
    }
  }

  lemma ConsensusGasIsHonest(consensusMaxGas: int64)
    ensures BlockGasLimit(consensusMaxGas) < TWO_TO_63 <==> consensusMaxGas > 0
    ensures consensusMaxGas > 0 ==> BlockGasLimit(consensusMaxGas) == consensusMaxGas
  {
  }

  // ----- the process handler --------------------------------------------------------------

  /** The process loop from position `i` on. */
  function ProcessFrom(cfg: LaneConfig, txs: seq<Tx>, i: nat, st: State): ProcessResult
    requires i <= |txs|
    decreases |txs| - i
  {
    if i == |txs| then Processed(txs, [], st)
    else if !cfg.matches(txs[i]) then
      if NoneMatch(cfg, txs[i + 1..]) then Processed(txs[..i], txs[i..], st) else Rejected
    else if i > 0 && !AcceptsPair(cfg.txPriority, txs[i - 1], txs[i]) then Rejected
    else
      var r := VerifyTx(cfg, st, txs[i]);
      if r.Passed? then ProcessFrom(cfg, txs, i + 1, r.state) else Rejected
  }

  function ProcessBase(cfg: LaneConfig, txs: seq<Tx>, st: State): ProcessResult {
    ProcessFrom(cfg, txs, 0, st)
  }

  ghost predicate Ordered(tp: TxPriority<Priority>, txs: seq<Tx>) {
    forall i :: 0 < i < |txs| ==> AcceptsPair(tp, txs[i - 1], txs[i])
  }

  /** An accepted list splits into the lane's segment and the rest: the segment matches, is in
      order and verifies, and nothing in the rest matches. */
  lemma {:induction false} ProcessSound(cfg: LaneConfig, txs: seq<Tx>, i: nat, st: State)
    requires i <= |txs| && ProcessFrom(cfg, txs, i, st).Processed?
    ensures var r := ProcessFrom(cfg, txs, i, st);
            && r.fromLane + r.remaining == txs && i <= |r.fromLane|
            && AllMatch(cfg, r.fromLane[i..]) && NoneMatch(cfg, r.remaining)
            && (forall k :: i <= k < |r.fromLane| && 0 < k ==> AcceptsPair(cfg.txPriority, txs[k - 1], txs[k]))
            && VerifyAll(cfg, st, r.fromLane[i..]) == Some(r.state)
    decreases |txs| - i
  {
    if i < |txs| && cfg.matches(txs[i]) {
      var a := VerifyTx(cfg, st, txs[i]);
      ProcessSound(cfg, txs, i + 1, a.state);
      var r := ProcessFrom(cfg, txs, i, st);
      assert r.fromLane[i..] == [txs[i]] + r.fromLane[i + 1..];
      assert r.fromLane[i..][1..] == r.fromLane[i + 1..];
    } else if i < |txs| {
      assert txs[..i] + txs[i..] == txs;
    }
  }

  /** Conversely, a segment that matches, is in order and verifies, followed by transactions none
      of which match, is accepted and split exactly there. */
  lemma {:induction false} ProcessComplete(cfg: LaneConfig, segment: seq<Tx>, rest: seq<Tx>, i: nat, st: State)
    requires i <= |segment|
    requires AllMatch(cfg, segment) && NoneMatch(cfg, rest) && Ordered(cfg.txPriority, segment)
    requires VerifyAll(cfg, st, segment[i..]).Some?
    ensures ProcessFrom(cfg, segment + rest, i, st)
         == Processed(segment, rest, VerifyAll(cfg, st, segment[i..]).value)
    decreases |segment| - i
  {
    var txs := segment + rest;
    if i < |segment| {
      assert txs[i] == segment[i] && (i > 0 ==> txs[i - 1] == segment[i - 1]);
      var a := VerifyTx(cfg, st, segment[i]);
      assert segment[i..][1..] == segment[i + 1..];
      ProcessComplete(cfg, segment, rest, i + 1, a.state);
    } else if rest == [] {
      assert txs == segment;
    } else {
      assert txs[i] == rest[0];
      assert txs[i + 1..] == rest[1..];
      assert txs[..i] == segment && txs[i..] == rest;
    }
  }

  /** The first `n` transactions are the lane's and the others are not; of neighbours among them, one
      signer's nonces rise and different signers' priorities do not compare to -1; and they verify. */
  ghost predicate LaneSegment(cfg: LaneConfig, txs: seq<Tx>, n: nat, st: State) {
    && n <= |txs|
    && (forall i :: 0 <= i < |txs| ==> (cfg.matches(txs[i]) <==> i < n))
    && (forall i :: 0 < i < n ==> MayFollow(cfg.txPriority, txs[i - 1], txs[i]))
    && VerifyAll(cfg, st, txs[..n]).Some?
  }

  /** Exactly which lists the handler accepts, and where it splits them. */
  lemma AcceptsSegmentsExactly(cfg: LaneConfig, txs: seq<Tx>, st: State)
    ensures ProcessBase(cfg, txs, st).Processed? <==> exists n: nat :: LaneSegment(cfg, txs, n, st)
    ensures forall n: nat :: LaneSegment(cfg, txs, n, st) ==>
              ProcessBase(cfg, txs, st) == Processed(txs[..n], txs[n..], VerifyAll(cfg, st, txs[..n]).value)
  {
    if ProcessBase(cfg, txs, st).Processed? { ProcessedIsSegment(cfg, txs, st); }
    forall n: nat | LaneSegment(cfg, txs, n, st)
      ensures ProcessBase(cfg, txs, st) == Processed(txs[..n], txs[n..], VerifyAll(cfg, st, txs[..n]).value)
    {
      SegmentIsProcessed(cfg, txs, n, st);
    }
  }

  lemma ProcessedIsSegment(cfg: LaneConfig, txs: seq<Tx>, st: State)
    requires ProcessBase(cfg, txs, st).Processed?
    ensures LaneSegment(cfg, txs, |ProcessBase(cfg, txs, st).fromLane|, st)
  {
    ProcessSound(cfg, txs, 0, st);
    var r := ProcessBase(cfg, txs, st);
    var n := |r.fromLane|;
    assert r.fromLane[0..] == r.fromLane == txs[..n] && r.remaining == txs[n..];
    hide AcceptsPair, MayFollow, VerifyAll;
    forall i | 0 < i < n ensures MayFollow(cfg.txPriority, txs[i - 1], txs[i]) {
      AcceptsExactly(cfg.txPriority, txs[i - 1], txs[i]);
    }
    forall i | n <= i < |txs| ensures !cfg.matches(txs[i]) {
      assert txs[n..][i - n] == txs[i];
    }
  }

  lemma SegmentIsProcessed(cfg: LaneConfig, txs: seq<Tx>, n: nat, st: State)
    requires LaneSegment(cfg, txs, n, st)
    ensures ProcessBase(cfg, txs, st) == Processed(txs[..n], txs[n..], VerifyAll(cfg, st, txs[..n]).value)
  {
    var segment := txs[..n];
    assert segment[0..] == segment && segment + txs[n..] == txs;
    hide AcceptsPair, MayFollow, VerifyAll, ProcessFrom;
    forall i | 0 < i < |segment| ensures AcceptsPair(cfg.txPriority, segment[i - 1], segment[i]) {
      AcceptsExactly(cfg.txPriority, txs[i - 1], txs[i]);
    }
    ProcessComplete(cfg, segment, txs[n..], 0, st);
  }

  /** Any two transactions of the pool, in selection order, pass the order check. */
  ghost predicate AnyPairInOrder(cfg: LaneConfig, pool: seq<Tx>) {
    forall i, j :: 0 <= i < j < |pool| ==> AcceptsPair(cfg.txPriority, pool[i], pool[j])
  }

  /** What one default handler builds, the other accepts: with a pool any pair of which passes the
      order check, the included list followed by transactions of other lanes is split exactly after
      the included list, and leaves the same state. */
  lemma PreparedIsProcessed(cfg: LaneConfig, p: Prop, limit: LaneLimits, pool: seq<Tx>, st: State, rest: seq<Tx>)
    requires PrepareBase(cfg, p, limit, pool, st).Selected?
    requires AnyPairInOrder(cfg, pool)
    requires NoneMatch(cfg, rest)
    ensures var r := PrepareBase(cfg, p, limit, pool, st);
            ProcessBase(cfg, r.include_ + rest, st) == Processed(r.include_, rest, r.state)
  {
    var r := PrepareBase(cfg, p, limit, pool, st);
    IncludedMatch(cfg, p, limit, pool, st);
    IncludedOrdered(cfg, p, limit, pool, st);
    assert r.include_[0..] == r.include_;
    hide Greedy, Ordered, AllMatch, NoneMatch;
    ProcessComplete(cfg, r.include_, rest, 0, st);
  }

  lemma IncludedMatch(cfg: LaneConfig, p: Prop, limit: LaneLimits, pool: seq<Tx>, st: State)
    requires PrepareBase(cfg, p, limit, pool, st).Selected?
    ensures var r := PrepareBase(cfg, p, limit, pool, st);
            AllMatch(cfg, r.include_) && VerifyAll(cfg, st, r.include_) == Some(r.state)
  {
    var r := PrepareBase(cfg, p, limit, pool, st);
    GreedyIncludes(cfg, p, limit, pool, 0, 0, st);
    assert forall i :: 0 <= i < |r.include_| ==> Admissible(cfg, p, limit, r.include_[i]);
  }

  lemma IncludedOrdered(cfg: LaneConfig, p: Prop, limit: LaneLimits, pool: seq<Tx>, st: State)
    requires PrepareBase(cfg, p, limit, pool, st).Selected?
    requires AnyPairInOrder(cfg, pool)
    ensures Ordered(cfg.txPriority, PrepareBase(cfg, p, limit, pool, st).include_)
  {
    hide AcceptsPair;
    var r := PrepareBase(cfg, p, limit, pool, st);
    var marks := GreedyPartitions(cfg, p, limit, pool, 0, 0, st);
    forall i | 0 < i < |r.include_| ensures AcceptsPair(cfg.txPriority, r.include_[i - 1], r.include_[i]) {
      var a, b := PickedInOrder(pool, marks, Included, i - 1);
    }
  }
}
