/** Why the default handler's greedy selection decides as it does: each transaction in turn is judged
    against what was included before it, and that verdict alone settles where it goes. */
module Eagerness {
  import opened Types
  import opened Proposals
  import opened LaneModel
  import opened BaseHandlers

  /** The handler's result after one more transaction with this verdict. */
  function Judged(before: PrepareResult, tx: Tx, v: Verdict): PrepareResult
    requires before.Selected?
  {
    match v
    case Take(_, st) => Selected(before.include_ + [tx], before.remove, st)
    case Drop => before.(remove := before.remove + [tx])
    case Skip => before
    case Crash => PrepareFailed
  }

  /** The verdict on a transaction, given what has been included before it. */
  function VerdictAfter(cfg: LaneConfig, p: Prop, limit: LaneLimits, before: PrepareResult, tx: Tx, size: int64, gas: uint64): Verdict
    requires before.Selected? && InfosOf(cfg.codec, before.include_).Some?
  {
    VerdictWith(cfg, p, limit, InfosOf(cfg.codec, before.include_).value, tx, size, gas, before.state)
  }

  function VerdictWith(cfg: LaneConfig, p: Prop, limit: LaneLimits, infos: seq<TxWithInfo>, tx: Tx, size: int64, gas: uint64, st: State): Verdict {
    Judge(cfg, p, limit, tx, WrapInt64(size + TotalSize(infos)), WrapUint64(gas + TotalGas(infos)), st)
  }

  /** Putting a transaction in front of what is included, or of what is removed, as the loop's earlier
      turns do, commutes with judging one more at the end. */
  function InFront(tx: Tx, included: bool, r: PrepareResult): (result: PrepareResult)
    ensures result.Selected? <==> r.Selected?
  {
    if r.PrepareFailed? then r
    else if included then r.(include_ := [tx] + r.include_)
    else r.(remove := [tx] + r.remove)
  }

  lemma InFrontOfJudged(first: Tx, included: bool, b: PrepareResult, tx: Tx, v: Verdict)
    requires b.Selected?
    ensures InFront(first, included, Judged(b, tx, v)) == Judged(InFront(first, included, b), tx, v)
  {
    assert [first] + (b.include_ + [tx]) == ([first] + b.include_) + [tx];
    assert [first] + (b.remove + [tx]) == ([first] + b.remove) + [tx];
  }

  lemma SameTotals(info: TxWithInfo, infos: seq<TxWithInfo>, size: int64, gas: uint64)
    ensures WrapInt64(WrapInt64(size + info.size) + TotalSize(infos)) == WrapInt64(size + TotalSize([info] + infos))
    ensures WrapUint64(WrapUint64(gas + info.gasLimit) + TotalGas(infos)) == WrapUint64(gas + TotalGas([info] + infos))
  {
    TotalsAdd([info], infos);
    TotalsOne(info);
    WrapsAdd(size + info.size, TotalSize(infos), gas + info.gasLimit, TotalGas(infos));
    hide WrapInt64, WrapUint64, TotalSize, TotalGas;
    assert size + info.size + TotalSize(infos) == size + TotalSize([info] + infos);
    assert gas + info.gasLimit + TotalGas(infos) == gas + TotalGas([info] + infos);
  }

  /** Counting an included transaction in the starting totals or in the list comes to the same. */
  lemma SameVerdict(cfg: LaneConfig, p: Prop, limit: LaneLimits, first: Tx, info: TxWithInfo, b: PrepareResult, tx: Tx, size: int64, gas: uint64)
    requires GetTxInfo(cfg.codec, first) == Some(info) && b.Selected? && InfosOf(cfg.codec, b.include_).Some?
    ensures InfosOf(cfg.codec, [first] + b.include_).Some?
    ensures VerdictAfter(cfg, p, limit, InFront(first, true, b), tx, size, gas)
         == VerdictAfter(cfg, p, limit, b, tx, WrapInt64(size + info.size), WrapUint64(gas + info.gasLimit))
  {
    var infos := InfosOf(cfg.codec, b.include_).value;
    InfosOne(cfg.codec, first);
    InfosSplit(cfg.codec, [first], b.include_);
    SameWith(cfg, p, limit, info, infos, tx, size, gas, b.state);
    hide WrapInt64, WrapUint64, InfosOf, VerdictWith, GetTxInfo;
  }

  lemma SameWith(cfg: LaneConfig, p: Prop, limit: LaneLimits, info: TxWithInfo, infos: seq<TxWithInfo>, tx: Tx, size: int64, gas: uint64, st: State)
    ensures VerdictWith(cfg, p, limit, [info] + infos, tx, size, gas, st)
         == VerdictWith(cfg, p, limit, infos, tx, WrapInt64(size + info.size), WrapUint64(gas + info.gasLimit), st)
  {
    SameTotals(info, infos, size, gas);
    hide WrapInt64, WrapUint64, TotalSize, TotalGas, Judge;
  }

  /** The loop's first turn, as putting the transaction in front of the rest or leaving it. */
  lemma FirstTurn(cfg: LaneConfig, p: Prop, limit: LaneLimits, pool: seq<Tx>, size: int64, gas: uint64, st: State)
    requires pool != []
    ensures Greedy(cfg, p, limit, pool, size, gas, st)
         == match Judge(cfg, p, limit, pool[0], size, gas, st)
            case Crash => PrepareFailed
            case Skip => Greedy(cfg, p, limit, pool[1..], size, gas, st)
            case Drop => InFront(pool[0], false, Greedy(cfg, p, limit, pool[1..], size, gas, st))
            case Take(info, st') =>
              InFront(pool[0], true, Greedy(cfg, p, limit, pool[1..], WrapInt64(size + info.size), WrapUint64(gas + info.gasLimit), st'))
  {
    hide Judge, WrapInt64, WrapUint64;
  }

  lemma TakenInfo(cfg: LaneConfig, p: Prop, limit: LaneLimits, tx: Tx, size: int64, gas: uint64, st: State)
    requires Judge(cfg, p, limit, tx, size, gas, st).Take?
    ensures GetTxInfo(cfg.codec, tx) == Some(Judge(cfg, p, limit, tx, size, gas, st).info)
  {
  }

  /** From any point of the loop: the result on a pool with one more transaction is the result on the
      pool, extended by the verdict on that transaction. */
  lemma {:induction false} OneMore(cfg: LaneConfig, p: Prop, limit: LaneLimits, pool: seq<Tx>, tx: Tx, size: int64, gas: uint64, st: State)
    requires Greedy(cfg, p, limit, pool, size, gas, st).Selected?
    ensures var b := Greedy(cfg, p, limit, pool, size, gas, st);
            && InfosOf(cfg.codec, b.include_).Some?
            && Greedy(cfg, p, limit, pool + [tx], size, gas, st) == Judged(b, tx, VerdictAfter(cfg, p, limit, b, tx, size, gas))
  {
    hide *;
    if pool == [] {
      assert pool + [tx] == [tx];
      OneAlone(cfg, p, limit, tx, size, gas, st);
    } else {
      assert (pool + [tx])[1..] == pool[1..] + [tx] && (pool + [tx])[0] == pool[0];
      FirstTurn(cfg, p, limit, pool, size, gas, st);
      FirstTurn(cfg, p, limit, pool + [tx], size, gas, st);
      match Judge(cfg, p, limit, pool[0], size, gas, st)
      case Skip => OneMore(cfg, p, limit, pool[1..], tx, size, gas, st);
      case Drop =>
        OneMore(cfg, p, limit, pool[1..], tx, size, gas, st);
        MoreAfterDrop(cfg, p, limit, pool[0], Greedy(cfg, p, limit, pool[1..], size, gas, st), tx, size, gas);
      case Take(info, st') =>
        var size', gas' := WrapInt64(size + info.size), WrapUint64(gas + info.gasLimit);
        OneMore(cfg, p, limit, pool[1..], tx, size', gas', st');
        TakenInfo(cfg, p, limit, pool[0], size, gas, st);
        MoreAfterTake(cfg, p, limit, pool[0], info, Greedy(cfg, p, limit, pool[1..], size', gas', st'), tx, size, gas);
    }
  }

  lemma MoreAfterDrop(cfg: LaneConfig, p: Prop, limit: LaneLimits, first: Tx, b: PrepareResult, tx: Tx, size: int64, gas: uint64)
    requires b.Selected? && InfosOf(cfg.codec, b.include_).Some?
    ensures var b' := InFront(first, false, b);
            && InfosOf(cfg.codec, b'.include_).Some?
            && InFront(first, false, Judged(b, tx, VerdictAfter(cfg, p, limit, b, tx, size, gas)))
            == Judged(b', tx, VerdictAfter(cfg, p, limit, b', tx, size, gas))
  {
    InFrontOfJudged(first, false, b, tx, VerdictAfter(cfg, p, limit, b, tx, size, gas));
    DropKeepsVerdict(cfg, p, limit, first, b, tx, size, gas);
    hide VerdictAfter, Judged, InfosOf;
  }

  lemma MoreAfterTake(cfg: LaneConfig, p: Prop, limit: LaneLimits, first: Tx, info: TxWithInfo, b: PrepareResult, tx: Tx, size: int64, gas: uint64)
    requires GetTxInfo(cfg.codec, first) == Some(info) && b.Selected? && InfosOf(cfg.codec, b.include_).Some?
    ensures var b' := InFront(first, true, b);
            && InfosOf(cfg.codec, b'.include_).Some?
            && InFront(first, true, Judged(b, tx, VerdictAfter(cfg, p, limit, b, tx, WrapInt64(size + info.size), WrapUint64(gas + info.gasLimit))))
            == Judged(b', tx, VerdictAfter(cfg, p, limit, b', tx, size, gas))
  {
    InFrontOfJudged(first, true, b, tx, VerdictAfter(cfg, p, limit, b, tx, WrapInt64(size + info.size), WrapUint64(gas + info.gasLimit)));
    SameVerdict(cfg, p, limit, first, info, b, tx, size, gas);
    hide VerdictAfter, Judged, InfosOf, WrapInt64, WrapUint64;
  }

  lemma DropKeepsVerdict(cfg: LaneConfig, p: Prop, limit: LaneLimits, first: Tx, b: PrepareResult, tx: Tx, size: int64, gas: uint64)
    requires b.Selected? && InfosOf(cfg.codec, b.include_).Some?
    ensures VerdictAfter(cfg, p, limit, InFront(first, false, b), tx, size, gas) == VerdictAfter(cfg, p, limit, b, tx, size, gas)
  {
  }

  lemma OneAlone(cfg: LaneConfig, p: Prop, limit: LaneLimits, tx: Tx, size: int64, gas: uint64, st: State)
    ensures var b := Greedy(cfg, p, limit, [], size, gas, st);
            && b == Selected([], [], st) && InfosOf(cfg.codec, b.include_) == Some([])
            && Greedy(cfg, p, limit, [tx], size, gas, st) == Judged(b, tx, VerdictAfter(cfg, p, limit, b, tx, size, gas))
  {
    assert [tx][1..] == [] && TotalSize([]) == 0 && TotalGas([]) == 0;
    hide Judge;
  }
}
