/** A lane as its proposal handlers see it: how it matches, verifies and ranks transactions, and
    what its mempool would select. */
module LaneModel {
  import opened Types
  import opened Ordering
  import opened Proposals

  /** The chain state behind an sdk.Context. */
  type State(!new)

  /** Priorities of the lanes in the repository: a constant, or the string of a bid's coins. */
  datatype Priority = Constant(value: int) | Bid(coins: string)

  /** The ante handler is a deterministic function of state and transaction; it may also panic. */
  datatype AnteResult = Passed(state: State) | Failed | Panicked

  datatype Handlers =
    | DefaultHandlers
    | MevHandlers
    | CustomHandlers(prepare: (State, Prop, LaneLimits, seq<Tx>) -> PrepareResult, process: (State, seq<Tx>) -> ProcessResult)

  /** What a PrepareLaneHandler does: the transactions to include and to remove, with the state its
      context is left in; or an error or panic. */
  datatype PrepareResult = Selected(include_: seq<Tx>, remove: seq<Tx>, state: State) | PrepareFailed

  /** What a ProcessLaneHandler does: the lane's transactions, the remaining ones and the state; or
      an error or panic. */
  datatype ProcessResult = Processed(fromLane: seq<Tx>, remaining: seq<Tx>, state: State) | Rejected

  datatype LaneConfig = LaneConfig(
    name: string,
    ratio: Ratio,
    matches: Tx -> bool,
    ante: Option<(State, Tx) -> AnteResult>,
    codec: Codec,
    txPriority: TxPriority<Priority>,
    handlers: Handlers)

  /** A lane together with the sequence its mempool's Select would return. */
  datatype Lane = Lane(cfg: LaneConfig, pool: seq<Tx>)

  /** BaseLane.VerifyTx: without an ante handler every transaction passes and changes nothing; a
      failing one leaves the context as it was. */
  function VerifyTx(cfg: LaneConfig, st: State, tx: Tx): AnteResult {
    if cfg.ante.None? then Passed(st) else cfg.ante.value(st, tx)
  }

  /** Verifying a list of transactions one after the other: the final state, or `None` at the
      first that does not pass. */
  function VerifyAll(cfg: LaneConfig, st: State, txs: seq<Tx>): Option<State> {
    if txs == [] then Some(st)
    else
      var r := VerifyTx(cfg, st, txs[0]);
      if r.Passed? then VerifyAll(cfg, r.state, txs[1..]) else None
  }

  /** The ante handler lets the transaction pass from one state to the other. */
  ghost predicate Passes(cfg: LaneConfig, st: State, tx: Tx, after: State) {
    if cfg.ante.None? then after == st else cfg.ante.value(st, tx) == Passed(after)
  }

  ghost predicate Fails(cfg: LaneConfig, st: State, tx: Tx) {
    cfg.ante.Some? && cfg.ante.value(st, tx).Failed?
  }

  ghost predicate Panics(cfg: LaneConfig, st: State, tx: Tx) {
    cfg.ante.Some? && cfg.ante.value(st, tx).Panicked?
  }

  lemma VerdictOfAnte(cfg: LaneConfig, st: State, tx: Tx)
    ensures VerifyTx(cfg, st, tx).Passed? <==> Passes(cfg, st, tx, if VerifyTx(cfg, st, tx).Passed? then VerifyTx(cfg, st, tx).state else st)
    ensures forall after :: Passes(cfg, st, tx, after) <==> VerifyTx(cfg, st, tx) == Passed(after)
    ensures VerifyTx(cfg, st, tx).Failed? <==> Fails(cfg, st, tx)
    ensures VerifyTx(cfg, st, tx).Panicked? <==> Panics(cfg, st, tx)
  {
  }

  /** The states a list of transactions leads through, each the one its ante handler passed with. */
  ghost predicate Leads(cfg: LaneConfig, txs: seq<Tx>, states: seq<State>) {
    |states| == |txs| + 1 && forall i :: 0 <= i < |txs| ==> Passes(cfg, states[i], txs[i], states[i + 1])
  }

  /** A list verifies to a state if and only if its transactions lead there one after the other. */
  lemma {:induction false} VerifiesExactly(cfg: LaneConfig, st: State, txs: seq<Tx>, last: State)
    ensures VerifyAll(cfg, st, txs) == Some(last)
            <==> exists states :: Leads(cfg, txs, states) && states[0] == st && states[|txs|] == last
  {
    if txs == [] {
      if st == last { assert Leads(cfg, txs, [st]); }
    } else {
      VerdictOfAnte(cfg, st, txs[0]);
      hide VerifyTx, Passes;
      var r := VerifyTx(cfg, st, txs[0]);
      if r.Passed? {
        VerifiesExactly(cfg, r.state, txs[1..], last);
        if states :| Leads(cfg, txs[1..], states) && states[0] == r.state && states[|txs| - 1] == last {
          assert Leads(cfg, txs, [st] + states);
          assert ([st] + states)[|txs|] == last;
        }
      }
      if states :| Leads(cfg, txs, states) && states[0] == st && states[|txs|] == last {
        assert Passes(cfg, st, txs[0], states[1]);
        assert Leads(cfg, txs[1..], states[1..]);
      }
    }
  }

  lemma {:induction false} VerifySplit(cfg: LaneConfig, st: State, a: seq<Tx>, b: seq<Tx>)
    ensures VerifyAll(cfg, st, a + b)
         == if VerifyAll(cfg, st, a).None? then None else VerifyAll(cfg, VerifyAll(cfg, st, a).value, b)
  {
    if a == [] {
      assert a + b == b;
    } else {
      assert (a + b)[1..] == a[1..] + b;
      var r := VerifyTx(cfg, st, a[0]);
      if r.Passed? { VerifySplit(cfg, r.state, a[1..], b); }
    }
  }

  predicate AllMatch(cfg: LaneConfig, txs: seq<Tx>) {
    forall i :: 0 <= i < |txs| ==> cfg.matches(txs[i])
  }

  predicate NoneMatch(cfg: LaneConfig, txs: seq<Tx>) {
    forall i :: 0 <= i < |txs| ==> !cfg.matches(txs[i])
  }

  /** GetTxInfo of every transaction, or `None` at the first failure. */
  function InfosOf(codec: Codec, txs: seq<Tx>): Option<seq<TxWithInfo>> {
    if txs == [] then Some([])
    else
      var front := InfosOf(codec, txs[..|txs| - 1]);
      var last := GetTxInfo(codec, txs[|txs| - 1]);
      if front.Some? && last.Some? then Some(front.value + [last.value]) else None
  }

  lemma {:induction false} InfosSplit(codec: Codec, a: seq<Tx>, b: seq<Tx>)
    ensures InfosOf(codec, a + b)
         == if InfosOf(codec, a).Some? && InfosOf(codec, b).Some? then Some(InfosOf(codec, a).value + InfosOf(codec, b).value) else None
  {
    if b == [] {
      assert a + b == a;
      if InfosOf(codec, a).Some? { assert InfosOf(codec, a).value + [] == InfosOf(codec, a).value; }
    } else {
      assert (a + b)[..|a + b| - 1] == a + b[..|b| - 1];
      InfosSplit(codec, a, b[..|b| - 1]);
      if InfosOf(codec, a).Some? && InfosOf(codec, b).Some? {
        assert InfosOf(codec, a).value + InfosOf(codec, b).value
            == InfosOf(codec, a).value + InfosOf(codec, b[..|b| - 1]).value + [GetTxInfo(codec, b[|b| - 1]).value];
      }
    }
  }

  lemma InfosOne(codec: Codec, tx: Tx)
    ensures InfosOf(codec, [tx]) == if GetTxInfo(codec, tx).Some? then Some([GetTxInfo(codec, tx).value]) else None
  {
    var one := [tx];
    assert one[..|one| - 1] == [] && InfosOf(codec, []) == Some([]);
    if GetTxInfo(codec, tx).Some? {
      assert [] + [GetTxInfo(codec, tx).value] == [GetTxInfo(codec, tx).value];
    }
  }

  lemma {:induction false} InfosLength(codec: Codec, txs: seq<Tx>)
    ensures InfosOf(codec, txs).Some? ==> |InfosOf(codec, txs).value| == |txs|
  {
    if txs != [] { InfosLength(codec, txs[..|txs| - 1]); }
  }

  /** The bytes of the encoded transactions. */
  function EncodedSize(txs: seq<Tx>): nat {
    if txs == [] then 0
    else EncodedSize(txs[..|txs| - 1]) + if txs[|txs| - 1].bytes.Some? then |txs[|txs| - 1].bytes.value| else 0
  }

  lemma {:induction false} EncodedSizeAdds(a: seq<Tx>, b: seq<Tx>)
    ensures EncodedSize(a + b) == EncodedSize(a) + EncodedSize(b)
  {
    if b == [] {
      assert a + b == a;
    } else {
      assert (a + b)[..|a + b| - 1] == a + b[..|b| - 1];
      EncodedSizeAdds(a, b[..|b| - 1]);
    }
  }

  lemma {:induction false} SizeIsEncoded(codec: Codec, txs: seq<Tx>)
    requires InfosOf(codec, txs).Some?
    ensures TotalSize(InfosOf(codec, txs).value) == EncodedSize(txs)
  {
    if txs != [] {
      SizeIsEncoded(codec, txs[..|txs| - 1]);
      var infos := InfosOf(codec, txs).value;
      assert infos[..|infos| - 1] == InfosOf(codec, txs[..|txs| - 1]).value;
    }
  }
}
