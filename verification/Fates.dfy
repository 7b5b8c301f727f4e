/** What becomes of each transaction of a default lane's pool: exactly which ones are included, which are
    removed from the mempool, and which stay in it for another block. */
module Fates {
  import opened Types
  import opened Proposals
  import opened LaneModel
  import opened BaseHandlers
  import opened Eagerness

  /** The lane could take the transaction if the block held nothing else. */
  ghost predicate FitsAlone(cfg: LaneConfig, limit: LaneLimits, tx: Tx) {
    && GetTxInfo(cfg.codec, tx).Some? && cfg.matches(tx)
    && GetTxInfo(cfg.codec, tx).value.gasLimit <= limit.maxGasLimit
    && GetTxInfo(cfg.codec, tx).value.size <= limit.maxTxBytes
  }

  ghost predicate InProposal(cfg: LaneConfig, p: Prop, tx: Tx) {
    GetTxInfo(cfg.codec, tx).Some? && GetTxInfo(cfg.codec, tx).value.hash in p.cache
  }

  /** It fits together with those already included; totals wrap like Go's integers. */
  ghost predicate FitsWith(cfg: LaneConfig, limit: LaneLimits, included: seq<Tx>, tx: Tx) {
    && GetTxInfo(cfg.codec, tx).Some? && InfosOf(cfg.codec, included).Some?
    && var info, infos := GetTxInfo(cfg.codec, tx).value, InfosOf(cfg.codec, included).value;
       && WrapInt64(TotalSize(infos) + info.size) <= limit.maxTxBytes
       && WrapUint64(TotalGas(infos) + info.gasLimit) <= limit.maxGasLimit
  }

  /** Nothing but the ante handler speaks against the transaction, given what is included. */
  ghost predicate UpToAnte(cfg: LaneConfig, p: Prop, limit: LaneLimits, included: seq<Tx>, tx: Tx) {
    FitsAlone(cfg, limit, tx) && !InProposal(cfg, p, tx) && FitsWith(cfg, limit, included, tx)
  }

  /** The state after the included transactions, one after the other. */
  ghost predicate Reached(cfg: LaneConfig, st: State, included: seq<Tx>, now: State) {
    VerifyAll(cfg, st, included) == Some(now)
  }

  ghost predicate Takes(cfg: LaneConfig, p: Prop, limit: LaneLimits, st: State, included: seq<Tx>, tx: Tx) {
    UpToAnte(cfg, p, limit, included, tx) && exists now, after :: Reached(cfg, st, included, now) && Passes(cfg, now, tx, after)
  }

  ghost predicate Leaves(cfg: LaneConfig, p: Prop, limit: LaneLimits, included: seq<Tx>, tx: Tx) {
    FitsAlone(cfg, limit, tx) && (InProposal(cfg, p, tx) || !FitsWith(cfg, limit, included, tx))
  }

  ghost predicate Discards(cfg: LaneConfig, p: Prop, limit: LaneLimits, st: State, included: seq<Tx>, tx: Tx) {
    || !FitsAlone(cfg, limit, tx)
    || (UpToAnte(cfg, p, limit, included, tx) && exists now :: Reached(cfg, st, included, now) && Fails(cfg, now, tx))
  }

  /** What was included before position `k`. */
  function IncludedBefore(pool: seq<Tx>, marks: seq<Mark>, k: nat): seq<Tx>
    requires k <= |marks| && k <= |pool|
  {
    Pick(pool[..k], marks[..k], Included)
  }

  /** Each transaction's mark, as the ones before it decide. */
  ghost predicate FateAt(cfg: LaneConfig, p: Prop, limit: LaneLimits, st: State, pool: seq<Tx>, marks: seq<Mark>, k: nat)
    requires k < |marks| && k < |pool|
  {
    var included := IncludedBefore(pool, marks, k);
    && (marks[k] == Included <==> Takes(cfg, p, limit, st, included, pool[k]))
    && (marks[k] == Removed <==> Discards(cfg, p, limit, st, included, pool[k]))
    && (marks[k] == Left <==> Leaves(cfg, p, limit, included, pool[k]))
  }

  /** The marks of a whole pool, or of as much of it as was decided before the ante handler panicked. */
  ghost predicate Decided(cfg: LaneConfig, p: Prop, limit: LaneLimits, st: State, pool: seq<Tx>, marks: seq<Mark>) {
    |marks| <= |pool| && forall k :: 0 <= k < |marks| ==> FateAt(cfg, p, limit, st, pool, marks, k)
  }

  // ----- one transaction ------------------------------------------------------------------------

  lemma {:induction false} PickMore(pool: seq<Tx>, marks: seq<Mark>, tx: Tx, mark: Mark, wanted: Mark)
    requires |pool| == |marks|
    ensures Pick(pool + [tx], marks + [mark], wanted) == Pick(pool, marks, wanted) + if mark == wanted then [tx] else []
  {
    if pool == [] {
      assert pool + [tx] == [tx] && marks + [mark] == [mark];
      assert [tx][1..] == [] && [mark][1..] == [];
    } else {
      assert (pool + [tx])[1..] == pool[1..] + [tx] && (marks + [mark])[1..] == marks[1..] + [mark];
      PickMore(pool[1..], marks[1..], tx, mark, wanted);
    }
  }

  /** What the checks of one turn amount to. */
  lemma VerdictIs(cfg: LaneConfig, p: Prop, limit: LaneLimits, st: State, included: seq<Tx>, tx: Tx, now: State)
    requires InfosOf(cfg.codec, included).Some? && Reached(cfg, st, included, now)
    ensures var v := VerdictWith(cfg, p, limit, InfosOf(cfg.codec, included).value, tx, 0, 0, now);
            && (v.Take? <==> Takes(cfg, p, limit, st, included, tx))
            && (v.Drop? <==> Discards(cfg, p, limit, st, included, tx))
            && (v.Skip? <==> Leaves(cfg, p, limit, included, tx))
            && (v.Crash? <==> UpToAnte(cfg, p, limit, included, tx) && Panics(cfg, now, tx))
            && (v.Take? ==> Passes(cfg, now, tx, v.state))
  {
    var infos := InfosOf(cfg.codec, included).value;
    SameTotalsAsWrapped(infos, tx, cfg.codec);
    VerdictOfAnte(cfg, now, tx);
    hide InfosOf, TotalSize, TotalGas, WrapInt64, WrapUint64, VerifyAll, VerifyTx, Passes, Fails, Panics, GetTxInfo;
    var r := VerifyTx(cfg, now, tx);
    if r.Passed? { assert Passes(cfg, now, tx, r.state); }
  }

  lemma SameTotalsAsWrapped(infos: seq<TxWithInfo>, tx: Tx, codec: Codec)
    ensures GetTxInfo(codec, tx).Some? ==>
              var info := GetTxInfo(codec, tx).value;
              && WrapInt64(WrapInt64(TotalSize(infos)) + info.size) == WrapInt64(TotalSize(infos) + info.size)
              && WrapUint64(WrapUint64(TotalGas(infos)) + info.gasLimit) == WrapUint64(TotalGas(infos) + info.gasLimit)
  {
    if GetTxInfo(codec, tx).Some? {
      var info := GetTxInfo(codec, tx).value;
      WrapsAdd(TotalSize(infos), info.size, TotalGas(infos), info.gasLimit);
    }
  }

  // ----- the whole pool -------------------------------------------------------------------------

  /** Marks already decided stay so when the pool goes on. */
  lemma DecidedMore(cfg: LaneConfig, p: Prop, limit: LaneLimits, st: State, pool: seq<Tx>, marks: seq<Mark>, tx: Tx)
    requires Decided(cfg, p, limit, st, pool, marks)
    ensures Decided(cfg, p, limit, st, pool + [tx], marks)
  {
    forall k | 0 <= k < |marks| ensures FateAt(cfg, p, limit, st, pool + [tx], marks, k) {
      assert FateAt(cfg, p, limit, st, pool, marks, k);
      assert (pool + [tx])[..k] == pool[..k] && (pool + [tx])[k] == pool[k];
      hide Takes, Discards, Leaves;
    }
  }

  lemma DecidedNext(cfg: LaneConfig, p: Prop, limit: LaneLimits, st: State, pool: seq<Tx>, marks: seq<Mark>, mark: Mark)
    requires |marks| < |pool| && Decided(cfg, p, limit, st, pool, marks)
    requires FateAt(cfg, p, limit, st, pool, marks + [mark], |marks|)
    ensures Decided(cfg, p, limit, st, pool, marks + [mark])
  {
    var marks' := marks + [mark];
    forall k | 0 <= k < |marks'| ensures FateAt(cfg, p, limit, st, pool, marks', k) {
      if k < |marks| {
        assert FateAt(cfg, p, limit, st, pool, marks, k);
        assert marks'[..k] == marks[..k];
        hide Takes, Discards, Leaves;
      }
    }
  }

  lemma {:induction false} FailureStays(cfg: LaneConfig, p: Prop, limit: LaneLimits, pool: seq<Tx>, tx: Tx, size: int64, gas: uint64, st: State)
    requires Greedy(cfg, p, limit, pool, size, gas, st).PrepareFailed?
    ensures Greedy(cfg, p, limit, pool + [tx], size, gas, st).PrepareFailed?
  {
    FirstTurn(cfg, p, limit, pool, size, gas, st);
    FirstTurn(cfg, p, limit, pool + [tx], size, gas, st);
    assert (pool + [tx])[1..] == pool[1..] + [tx];
    hide Judge, Greedy, WrapInt64, WrapUint64;
    match Judge(cfg, p, limit, pool[0], size, gas, st)
    case Crash =>
    case Skip => FailureStays(cfg, p, limit, pool[1..], tx, size, gas, st);
    case Drop => FailureStays(cfg, p, limit, pool[1..], tx, size, gas, st);
    case Take(info, st') => FailureStays(cfg, p, limit, pool[1..], tx, WrapInt64(size + info.size), WrapUint64(gas + info.gasLimit), st');
  }

  /** Exactly what the prepare handler does with every transaction of its pool. When no ante handler
      panics, each is marked; the included and the removed ones come back in pool order. Otherwise it
      fails at the first transaction that panics at its turn. */
  lemma {:induction false} EveryFate(cfg: LaneConfig, p: Prop, limit: LaneLimits, pool: seq<Tx>, st: State) returns (marks: seq<Mark>)
    ensures Decided(cfg, p, limit, st, pool, marks)
    ensures PrepareBase(cfg, p, limit, pool, st).Selected? <==> |marks| == |pool|
    ensures var r := PrepareBase(cfg, p, limit, pool, st);
            r.Selected? ==> && r.include_ == Pick(pool, marks, Included) && r.remove == Pick(pool, marks, Removed)
                            && Reached(cfg, st, r.include_, r.state)
    ensures PrepareBase(cfg, p, limit, pool, st).PrepareFailed? ==>
              var included := IncludedBefore(pool, marks, |marks|);
              UpToAnte(cfg, p, limit, included, pool[|marks|])
              && exists now :: Reached(cfg, st, included, now) && Panics(cfg, now, pool[|marks|])
  {
    if pool == [] {
      marks := [];
    } else {
      var front, tx := pool[..|pool| - 1], pool[|pool| - 1];
      assert pool == front + [tx];
      marks := EveryFate(cfg, p, limit, front, st);
      DecidedMore(cfg, p, limit, st, front, marks, tx);
      if PrepareBase(cfg, p, limit, front, st).PrepareFailed? {
        FailureStays(cfg, p, limit, front, tx, 0, 0, st);
        assert pool[..|marks|] == front[..|marks|] && pool[|marks|] == front[|marks|];
      } else {
        marks := LastFate(cfg, p, limit, front, tx, st, marks);
      }
    }
  }

  lemma LastFate(cfg: LaneConfig, p: Prop, limit: LaneLimits, front: seq<Tx>, tx: Tx, st: State, before: seq<Mark>) returns (marks: seq<Mark>)
    requires |before| == |front| && Decided(cfg, p, limit, st, front + [tx], before)
    requires var b := PrepareBase(cfg, p, limit, front, st);
             && b.Selected? && b.include_ == Pick(front, before, Included) && b.remove == Pick(front, before, Removed)
             && Reached(cfg, st, b.include_, b.state)
    ensures var pool, r := front + [tx], PrepareBase(cfg, p, limit, front + [tx], st);
            && Decided(cfg, p, limit, st, pool, marks) && (r.Selected? <==> |marks| == |pool|)
            && (r.Selected? ==> && r.include_ == Pick(pool, marks, Included) && r.remove == Pick(pool, marks, Removed)
                                && Reached(cfg, st, r.include_, r.state))
            && (r.PrepareFailed? ==>
                  var included := IncludedBefore(pool, marks, |marks|);
                  UpToAnte(cfg, p, limit, included, pool[|marks|])
                  && exists now :: Reached(cfg, st, included, now) && Panics(cfg, now, pool[|marks|]))
  {
    var pool, b := front + [tx], PrepareBase(cfg, p, limit, front, st);
    OneMore(cfg, p, limit, front, tx, 0, 0, st);
    VerdictIs(cfg, p, limit, st, b.include_, tx, b.state);
    var v := VerdictAfter(cfg, p, limit, b, tx, 0, 0);
    assert pool[..|front|] == front && before[..|before|] == before;
    if v.Crash? {
      marks := before;
    } else {
      var mark := if v.Take? then Included else if v.Drop? then Removed else Left;
      marks := before + [mark];
      PickMore(front, before, tx, mark, Included);
      PickMore(front, before, tx, mark, Removed);
      assert marks[..|front|] == before;
      assert FateAt(cfg, p, limit, st, pool, marks, |before|) by { hide Takes, Discards, Leaves; }
      DecidedNext(cfg, p, limit, st, pool, before, mark);
      if v.Take? { VerifiesOneMore(cfg, st, b.include_, tx, b.state, v.state); }
    }
    hide Takes, Discards, Leaves, UpToAnte, Greedy, VerdictAfter, Decided, Pick;
  }

  lemma VerifiesOneMore(cfg: LaneConfig, st: State, txs: seq<Tx>, tx: Tx, now: State, after: State)
    requires Reached(cfg, st, txs, now) && Passes(cfg, now, tx, after)
    ensures Reached(cfg, st, txs + [tx], after)
  {
    VerifySplit(cfg, st, txs, [tx]);
    VerdictOfAnte(cfg, now, tx);
    assert [tx][1..] == [];
  }
}
