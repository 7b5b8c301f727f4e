/** Where the promises of selection and parity end: inputs on which they fail, and exactly when a
    built segment is accepted. */
module OrderGaps {
  import opened Types
  import opened SkipLists
  import opened Ordering
  import opened PriorityIndex
  import opened Reordering
  import opened Iteration
  import opened Ranking
  import opened MempoolRuns
  import opened Merge
  import opened Proposals
  import opened LaneModel
  import opened BaseHandlers

  /** With any priorities, what a default lane built is accepted by it, and split exactly there, if
      and only if neighbours in the included list are in order. */
  lemma AcceptedExactlyWhenOrdered(cfg: LaneConfig, p: Prop, limit: LaneLimits, pool: seq<Tx>, st: State, rest: seq<Tx>)
    requires PrepareBase(cfg, p, limit, pool, st).Selected? && NoneMatch(cfg, rest)
    ensures var r := PrepareBase(cfg, p, limit, pool, st);
            ProcessBase(cfg, r.include_ + rest, st) == Processed(r.include_, rest, r.state) <==> Ordered(cfg.txPriority, r.include_)
  {
    var r := PrepareBase(cfg, p, limit, pool, st);
    var txs := r.include_ + rest;
    IncludedMatch(cfg, p, limit, pool, st);
    assert r.include_[0..] == r.include_;
    hide Greedy, AllMatch, NoneMatch, VerifyAll, AcceptsPair;
    if Ordered(cfg.txPriority, r.include_) {
      ProcessComplete(cfg, r.include_, rest, 0, st);
    }
    if ProcessBase(cfg, txs, st) == Processed(r.include_, rest, r.state) {
      ProcessSound(cfg, txs, 0, st);
      forall i | 0 < i < |r.include_| ensures AcceptsPair(cfg.txPriority, r.include_[i - 1], r.include_[i]) {
        assert txs[i - 1] == r.include_[i - 1] && txs[i] == r.include_[i];
      }
    }
  }

  /** When nothing is skipped the neighbours are those of the selection, so it is accepted however
      the priorities rank. */
  lemma NothingSkippedIsAccepted(cfg: LaneConfig, p: Prop, limit: LaneLimits, st: State, rest: seq<Tx>,
                                 ix: Indices<Priority>, m: Contents<Priority>)
    requires Ranked(cfg.txPriority, m) && Agree(cfg.txPriority, ix, m) && Current(m)
    requires NoneMatch(cfg, rest)
    requires var pool := Values(Selection(cfg.txPriority, ix));
             PrepareBase(cfg, p, limit, pool, st).Selected? && PrepareBase(cfg, p, limit, pool, st).include_ == pool
    ensures var pool := Values(Selection(cfg.txPriority, ix));
            ProcessBase(cfg, pool + rest, st) == Processed(pool, rest, PrepareBase(cfg, p, limit, pool, st).state)
  {
    var nodes := Selection(cfg.txPriority, ix);
    var pool := Values(nodes);
    hide Selection, AcceptsPair, Agree, Greedy, Ranked;
    forall i | 0 < i < |pool| ensures AcceptsPair(cfg.txPriority, pool[i - 1], pool[i]) {
      RankedSelectionPasses(cfg.txPriority, ix, m, i - 1);
    }
    AcceptedExactlyWhenOrdered(cfg, p, limit, pool, st, rest);
  }

  // ----- every ante handler -----------------------------------------------------------------------

  ghost predicate AcceptsWhatItBuilds(cfg: LaneConfig, p: Prop, limit: LaneLimits, pool: seq<Tx>, st: State, rest: seq<Tx>) {
    var r := PrepareBase(cfg, p, limit, pool, st);
    r.Selected? ==> ProcessBase(cfg, r.include_ + rest, st) == Processed(r.include_, rest, r.state)
  }

  function WithAnte(cfg: LaneConfig, ante: (State, Tx) -> AnteResult): LaneConfig {
    cfg.(ante := Some(ante))
  }

  ghost predicate AllDistinct(pool: seq<Tx>) {
    forall i, j :: 0 <= i < j < |pool| ==> pool[i] != pool[j]
  }

  /** A pool that fits is safe under every ante handler, whatever it refuses, if and only if any two of
      its transactions are in order; neighbours alone are not enough. */
  lemma SafeExactlyWhenAnyPairInOrder(cfg: LaneConfig, p: Prop, limit: LaneLimits, pool: seq<Tx>, st: State, rest: seq<Tx>)
    requires PoolFits(cfg, p, limit, pool, 0, 0) && AllDistinct(pool) && NoneMatch(cfg, rest)
    ensures (forall ante: (State, Tx) -> AnteResult :: AcceptsWhatItBuilds(WithAnte(cfg, ante), p, limit, pool, st, rest))
            <==> AnyPairInOrder(cfg, pool)
  {
    if AnyPairInOrder(cfg, pool) {
      forall ante: (State, Tx) -> AnteResult ensures AcceptsWhatItBuilds(WithAnte(cfg, ante), p, limit, pool, st, rest) {
        if PrepareBase(WithAnte(cfg, ante), p, limit, pool, st).Selected? {
          PreparedIsProcessed(WithAnte(cfg, ante), p, limit, pool, st, rest);
        }
      }
    } else {
      var i, j :| 0 <= i < j < |pool| && !AcceptsPair(cfg.txPriority, pool[i], pool[j]);
      UnsafeUnderSomeAnte(cfg, p, limit, pool, i, j, st, rest);
    }
  }

  function Only(txs: set<Tx>): (State, Tx) -> AnteResult {
    (st: State, tx: Tx) => if tx in txs then Passed(st) else AnteResult.Failed
  }

  lemma UnsafeUnderSomeAnte(cfg: LaneConfig, p: Prop, limit: LaneLimits, pool: seq<Tx>, i: nat, j: nat, st: State, rest: seq<Tx>)
    requires PoolFits(cfg, p, limit, pool, 0, 0) && AllDistinct(pool) && NoneMatch(cfg, rest)
    requires i < j < |pool| && !AcceptsPair(cfg.txPriority, pool[i], pool[j])
    ensures !AcceptsWhatItBuilds(WithAnte(cfg, Only({pool[i], pool[j]})), p, limit, pool, st, rest)
  {
    var kept := {pool[i], pool[j]};
    var picky := WithAnte(cfg, Only(kept));
    KeepsOnly(cfg, p, limit, pool, kept, 0, 0, st);
    KeptPair(pool, i, j);
    AcceptedExactlyWhenOrdered(picky, p, limit, pool, st, rest);
    hide AcceptsPair, Greedy, NoneMatch, PoolFits;
    var include_ := PrepareBase(picky, p, limit, pool, st).include_;
    assert include_ == [pool[i], pool[j]];
    assert !AcceptsPair(picky.txPriority, include_[1 - 1], include_[1]);
  }

  function Kept(pool: seq<Tx>, kept: set<Tx>): seq<Tx> {
    if pool == [] then [] else (if pool[0] in kept then [pool[0]] else []) + Kept(pool[1..], kept)
  }

  lemma KeptStep(pool: seq<Tx>, kept: set<Tx>)
    ensures Kept(pool, kept) == if pool == [] then [] else (if pool[0] in kept then [pool[0]] else []) + Kept(pool[1..], kept)
  {
  }

  lemma {:induction false} KeptNone(pool: seq<Tx>, kept: set<Tx>)
    requires forall i :: 0 <= i < |pool| ==> pool[i] !in kept
    ensures Kept(pool, kept) == []
  {
    if pool != [] { KeptNone(pool[1..], kept); }
  }

  lemma {:induction false} KeptOne(pool: seq<Tx>, kept: set<Tx>, i: nat)
    requires i < |pool| && pool[i] in kept
    requires forall k :: 0 <= k < |pool| && k != i ==> pool[k] !in kept
    ensures Kept(pool, kept) == [pool[i]]
  {
    if i == 0 {
      KeptNone(pool[1..], kept);
    } else {
      KeptOne(pool[1..], kept, i - 1);
    }
  }

  lemma {:induction false} KeptPair(pool: seq<Tx>, i: nat, j: nat)
    requires i < j < |pool| && AllDistinct(pool)
    ensures Kept(pool, {pool[i], pool[j]}) == [pool[i], pool[j]]
  {
    var kept := {pool[i], pool[j]};
    if i == 0 {
      forall k | 0 <= k < |pool[1..]| && k != j - 1 ensures pool[1..][k] !in kept { }
      KeptOne(pool[1..], kept, j - 1);
    } else {
      KeptPair(pool[1..], i - 1, j - 1);
    }
  }

  /** When everything fits, an ante handler passing only some transactions decides what is included. */
  lemma {:induction false} KeepsOnly(cfg: LaneConfig, p: Prop, limit: LaneLimits, pool: seq<Tx>, kept: set<Tx>, size: int64, gas: uint64, st: State)
    requires 0 <= size && PoolFits(cfg, p, limit, pool, size, gas)
    ensures var r := Greedy(WithAnte(cfg, Only(kept)), p, limit, pool, size, gas, st);
            r.Selected? && r.include_ == Kept(pool, kept)
  {
    hide *;
    GreedyStep(WithAnte(cfg, Only(kept)), p, limit, pool, size, gas, st);
    KeptStep(pool, kept);
    if pool != [] {
      FirstFits(cfg, p, limit, pool, size, gas);
      FirstJudged(cfg, p, limit, pool, kept, size, gas, st);
      var info := GetTxInfo(cfg.codec, pool[0]).value;
      if pool[0] in kept {
        KeepsOnly(cfg, p, limit, pool[1..], kept, size + info.size, gas + info.gasLimit, st);
      } else {
        KeepsOnly(cfg, p, limit, pool[1..], kept, size, gas, st);
      }
    }
  }

  lemma FirstJudged(cfg: LaneConfig, p: Prop, limit: LaneLimits, pool: seq<Tx>, kept: set<Tx>, size: int64, gas: uint64, st: State)
    requires pool != [] && 0 <= size && PoolFits(cfg, p, limit, pool, size, gas)
    ensures var info := GetTxInfo(cfg.codec, pool[0]).value;
            && Judge(WithAnte(cfg, Only(kept)), p, limit, pool[0], size, gas, st) == (if pool[0] in kept then Take(info, st) else Drop)
            && size + info.size == WrapInt64(size + info.size) && gas + info.gasLimit == WrapUint64(gas + info.gasLimit)
  {
    FirstFits(cfg, p, limit, pool, size, gas);
    assert Admissible(cfg, p, limit, pool[0]);
    hide PoolFits;
  }

  // ----- a skipped nonce ------------------------------------------------------------------------

  function PriceOf(tx: Tx): Priority {
    Priority.Constant(if tx.gas.Some? then tx.gas.value else 0)
  }

  function ComparePrices(a: Priority, b: Priority): int {
    if a.Constant? && b.Constant? then if a.value < b.value then -1 else if a.value > b.value then 1 else 0 else 0
  }

  function Sample(sender: string, nonce: uint64, price: uint64): Tx {
    Tx(Some([]), Some([SignerData(sender, nonce)]), Some(price), None)
  }

  const B0 := Sample("B", 0, 5)
  const A0 := Sample("A", 0, 1)
  const A1 := Sample("A", 1, 9)

  /** A default lane whose ante handler refuses one transaction. */
  function RefusesA0(): LaneConfig {
    LaneConfig("lane", 0, _ => true, Some((st: State, tx: Tx) => if tx == A0 then AnteResult.Failed else Passed(st)),
               Codec(_ => "", _ => None), TxPriority(PriceOf, ComparePrices, Constant(0), Constant(0)), DefaultHandlers)
  }

  /** B's transaction, then A's two: neighbours are in order. When A's first one fails its ante
      handler, B's is followed by A's dearer second one, and the node's own process handler rejects
      what it built. */
  lemma SkippedNonceBreaksOrder(st: State)
    ensures AcceptsPair(RefusesA0().txPriority, B0, A0) && AcceptsPair(RefusesA0().txPriority, A0, A1)
    ensures PrepareBase(RefusesA0(), NewProposal(100, 100), LaneLimits(100, 100), [B0, A0, A1], st) == Selected([B0, A1], [A0], st)
    ensures ProcessBase(RefusesA0(), [B0, A1], st).Rejected?
  {
    var cfg, p, limit := RefusesA0(), NewProposal(100, 100), LaneLimits(100, 100);
    SampleIds();
    assert !AcceptsPair(cfg.txPriority, B0, A1);
    assert ProcessFrom(cfg, [B0, A1], 1, st).Rejected?;
    TakesOrDrops(st);
    hide Judge;
    assert [B0, A0, A1][1..] == [A0, A1] && [A0, A1][1..] == [A1] && [A1][1..] == [];
    assert Greedy(cfg, p, limit, [], 0, 14, st) == Selected([], [], st);
    assert Greedy(cfg, p, limit, [A1], 0, 5, st) == Selected([A1], [], st);
    assert Greedy(cfg, p, limit, [A0, A1], 0, 5, st) == Selected([A1], [A0], st);
  }

  lemma SampleIds()
    ensures TxId(B0) == Some(Id("B", 0)) && TxId(A0) == Some(Id("A", 0)) && TxId(A1) == Some(Id("A", 1))
  {
    assert "A"[0] != "B"[0];
  }

  lemma TakesOrDrops(st: State)
    ensures var cfg, p, limit := RefusesA0(), NewProposal(100, 100), LaneLimits(100, 100);
            && Judge(cfg, p, limit, B0, 0, 0, st) == Take(TxWithInfo("", 0, 5, []), st)
            && Judge(cfg, p, limit, A0, 0, 5, st) == Drop
            && Judge(cfg, p, limit, A1, 0, 5, st) == Take(TxWithInfo("", 0, 9, []), st)
  {
    assert B0.signers.value[0] != A0.signers.value[0] by { assert "A"[0] != "B"[0]; }
    assert A1.signers.value[0] != A0.signers.value[0];
  }

  // ----- the highest priority -------------------------------------------------------------------

  function ThreeOps(): seq<Op> {
    [Op.Insert(A0), Op.Insert(A1), Op.Insert(B0)]
  }

  lemma PricesRank(tp: TxPriority<Priority>, ops: seq<Op>)
    requires tp == KeepsOldKeys().txPriority
    ensures PreorderOn(tp.compare, RunPriorities(tp, ops))
  {
    forall c | Brings(tp, ops, c) ensures c.Constant? {
    }
  }

  lemma ThreeAreStored()
    ensures PlainRun(KeepsOldKeys(), ThreeOps()) == ThreeStored()
    ensures RunKeepsPriorities(KeepsOldKeys(), ThreeOps())
  {
    var cfg := KeepsOldKeys();
    var none: map<Id, Tx> := map[];
    var one, two := none[Id("A", 0) := A0], none[Id("A", 0) := A0][Id("A", 1) := A1];
    assert Id("B", 0) !in two by { assert "A"[0] != "B"[0]; }
    assert two[Id("B", 0) := B0] == ThreeStored();
    assert ThreeOps() == ([] + [Op.Insert(A0)]) + [Op.Insert(A1)] + [Op.Insert(B0)];
    assert PlainRun(cfg, []) == none && RunKeepsPriorities(cfg, []);
    hide PlainRun, RunKeepsPriorities, KeepsOldKeys, ThreeOps, ThreeStored;
    StoresNext(cfg, [], A0, Id("A", 0));
    StoresNext(cfg, [] + [Op.Insert(A0)], A1, Id("A", 1));
    StoresNext(cfg, ([] + [Op.Insert(A0)]) + [Op.Insert(A1)], B0, Id("B", 0));
  }

  /** A new transaction is stored and replaces no priority. */
  lemma StoresNext(cfg: Config<Priority>, ops: seq<Op>, tx: Tx, id: Id)
    requires cfg == KeepsOldKeys() && SignedFirstBy(tx, id) && id !in PlainRun(cfg, ops) && RunKeepsPriorities(cfg, ops)
    ensures PlainRun(cfg, ops + [Op.Insert(tx)]) == PlainRun(cfg, ops)[id := tx] && RunKeepsPriorities(cfg, ops + [Op.Insert(tx)])
  {
    InsertStoresExactly(cfg, PlainRun(cfg, ops), tx, id);
    assert (ops + [Op.Insert(tx)])[..|ops|] == ops;
    hide PlainStep;
  }

  function ThreeStored(): map<Id, Tx> {
    map[Id("A", 0) := A0, Id("A", 1) := A1, Id("B", 0) := B0]
  }

  /** The entries are those three. */
  ghost predicate FromThree(r: seq<Node<Priority>>) {
    forall i :: 0 <= i < |r| ==> IdOf(r[i].key) in ThreeStored() && ThreeStored()[IdOf(r[i].key)] == r[i].value
  }

  lemma KeysOfThree(r: seq<Node<Priority>>, i: nat)
    requires FromThree(r) && i < |r|
    ensures IdOf(r[i].key) == Id("A", 0) || IdOf(r[i].key) == Id("A", 1) || IdOf(r[i].key) == Id("B", 0)
    ensures r[i].value == A0 <==> IdOf(r[i].key) == Id("A", 0)
    ensures r[i].value == B0 <==> IdOf(r[i].key) == Id("B", 0)
  {
    assert A0.signers != A1.signers && A0.signers != B0.signers && A1.signers != B0.signers by { assert "A"[0] != "B"[0]; }
  }

  /** B's transaction is first, or it is the next of another sender after A's first one. */
  lemma BFirst(r: seq<Node<Priority>>, low: nat, b: nat)
    requires low < |r| && b < |r| && IdOf(r[low].key) == Id("A", 0) && IdOf(r[b].key) == Id("B", 0)
    requires forall i :: 0 <= i < |r| ==> r[i].key.sender == "A" || IdOf(r[i].key) == Id("B", 0)
    requires forall i, j :: 0 <= i < j < |r| && r[i].key.sender == r[j].key.sender ==> r[i].key.nonce < r[j].key.nonce
    ensures b == 0 || NextOfAnother(r, low, b)
  {
    assert "A" != "B" by { assert "A"[0] != "B"[0]; }
    if b > 0 {
      assert r[0].key.sender == "A";
      assert low == 0;
    }
  }

  /** A's transactions at prices 1 and 9, B's at 5: B's is selected first. The highest priority waits
      behind its own sender's lower nonce. */
  lemma HighestMayWait()
    ensures var r := Selection(KeepsOldKeys().txPriority, Run(KeepsOldKeys(), ThreeOps()));
            r != [] && r[0].value == B0 && A1 in Values(r)
    ensures ComparePrices(PriceOf(A1), PriceOf(B0)) > 0
  {
    var cfg, ops := KeepsOldKeys(), ThreeOps();
    var r := Selection(cfg.txPriority, Run(cfg, ops));
    var low, b := ThreeSelected(r);
    forall i | 0 <= i < |r| ensures r[i].key.sender == "A" || IdOf(r[i].key) == Id("B", 0) { KeysOfThree(r, i); }
    KeysOfThree(r, low);
    KeysOfThree(r, b);
    LowIsNotAhead(r, low, b);
    hide Selection, Run, NextOfAnother, KeepsOldKeys;
    BFirst(r, low, b);
    assert b == 0;
  }

  lemma LowIsNotAhead(r: seq<Node<Priority>>, low: nat, b: nat)
    requires r == Selection(KeepsOldKeys().txPriority, Run(KeepsOldKeys(), ThreeOps()))
    requires low < |r| && b < |r| && r[low].value == A0 && r[b].value == B0
    ensures !NextOfAnother(r, low, b)
  {
    hide *;
    PricesRank(KeepsOldKeys().txPriority, ThreeOps());
    ThreeAreStored();
    LowerPrice();
    if NextOfAnother(r, low, b) { RunIsMerged(KeepsOldKeys(), ThreeOps(), low, b); }
  }

  lemma LowerPrice()
    ensures var tp := KeepsOldKeys().txPriority; tp.compare(tp.getTxPriority(A0), tp.getTxPriority(B0)) < 0
  {
  }

  lemma ThreeSelected(r: seq<Node<Priority>>) returns (low: nat, b: nat)
    requires r == Selection(KeepsOldKeys().txPriority, Run(KeepsOldKeys(), ThreeOps()))
    ensures FromThree(r) && low < |r| && r[low].value == A0 && b < |r| && r[b].value == B0 && A1 in Values(r)
    ensures forall i, j :: 0 <= i < j < |r| && r[i].key.sender == r[j].key.sender ==> r[i].key.nonce < r[j].key.nonce
  {
    PricesRank(KeepsOldKeys().txPriority, ThreeOps());
    ThreeAreStored();
    hide *;
    RunSelection(KeepsOldKeys(), ThreeOps());
    low, b := ThreeFound(r);
  }

  lemma ThreeFound(r: seq<Node<Priority>>) returns (low: nat, b: nat)
    requires forall n :: n in r ==> IdOf(n.key) in ThreeStored() && ThreeStored()[IdOf(n.key)] == n.value
    requires forall id :: id in ThreeStored() ==> ThreeStored()[id] in Values(r)
    ensures FromThree(r) && low < |r| && r[low].value == A0 && b < |r| && r[b].value == B0 && A1 in Values(r)
  {
    assert "A" != "B" by { assert "A"[0] != "B"[0]; }
    assert ThreeStored()[Id("A", 0)] == A0 && ThreeStored()[Id("B", 0)] == B0 && ThreeStored()[Id("A", 1)] == A1;
    assert Id("A", 0) in ThreeStored() && Id("A", 1) in ThreeStored() && Id("B", 0) in ThreeStored();
    hide ThreeStored;
    assert forall i :: 0 <= i < |r| ==> r[i] in r;
    low :| 0 <= low < |r| && Values(r)[low] == A0;
    b :| 0 <= b < |r| && Values(r)[b] == B0;
  }

  // ----- a stale key ------------------------------------------------------------------------------

  const A0_RAISED := Sample("A", 0, 9)

  /** A mempool ranking by price, whose skip lists keep the stored key when a value is set again. */
  function KeepsOldKeys(): Config<Priority> {
    Config(TxPriority(PriceOf, ComparePrices, Constant(0), Constant(0)), 0, None, false)
  }

  function NodeAt(tx: Tx, sender: string, nonce: uint64, listed: Priority, element: Option<uint64>): Node<Priority> {
    Entry(Meta(nonce, listed, sender, Constant(0), element), tx)
  }

  function Price(p: int): Priority {
    Priority.Constant(p)
  }

  function OnlyA(): Indices<Priority> {
    Indices([NodeAt(A0, "A", 0, Price(1), Some(0))],
            map[Price(1) := 1],
            map["A" := [NodeAt(A0, "A", 0, Price(1), None)]],
            map[Id("A", 0) := Score(Price(1), Price(0))])
  }

  function BThenA(): Indices<Priority> {
    Indices([NodeAt(B0, "B", 0, Price(5), Some(0)), NodeAt(A0, "A", 0, Price(1), Some(0))],
            map[Price(1) := 1, Price(5) := 1],
            map["A" := [NodeAt(A0, "A", 0, Price(1), None)], "B" := [NodeAt(B0, "B", 0, Price(5), None)]],
            map[Id("A", 0) := Score(Price(1), Price(0)), Id("B", 0) := Score(Price(5), Price(0))])
  }

  /** The priority index ranks A first at the new price; A's own list still carries the old one. */
  function RaisedA(): Indices<Priority> {
    Indices([NodeAt(A0_RAISED, "A", 0, Price(9), Some(0)), NodeAt(B0, "B", 0, Price(5), Some(0))],
            map[Price(1) := 0, Price(5) := 1, Price(9) := 1],
            map["A" := [NodeAt(A0_RAISED, "A", 0, Price(1), None)], "B" := [NodeAt(B0, "B", 0, Price(5), None)]],
            map[Id("A", 0) := Score(Price(9), Price(0)), Id("B", 0) := Score(Price(5), Price(0))])
  }

  lemma InsertA()
    ensures Step(KeepsOldKeys(), EmptyIndices(), Op.Insert(A0)) == OnlyA()
  {
  }

  lemma InsertB()
    ensures Step(KeepsOldKeys(), OnlyA(), Op.Insert(B0)) == BThenA()
  {
    SampleIds();
    var cfg := KeepsOldKeys();
    var p := PriorityOrder(cfg.txPriority.compare);
    var a, b := NodeAt(A0, "A", 0, Price(1), Some(0)), NodeAt(B0, "B", 0, Price(5), Some(0));
    assert Id("B", 0) != Id("A", 0) && "B" != "A";
    assert p(b.key, a.key) < 0;
    assert Set(p, [a], b.key, B0, false) == [b, a];
    assert Set(NonceOrder<Priority>(), [], b.key.(element := None), B0, false) == [NodeAt(B0, "B", 0, Price(5), None)];
  }

  /** Between the two halves of A's re-insertion. */
  function WithoutANode(): Indices<Priority> {
    BThenA().(priorityIndex := [NodeAt(B0, "B", 0, Price(5), Some(0))], priorityCounts := map[Price(1) := 0, Price(5) := 1])
  }

  lemma DropA()
    ensures Dropped(KeepsOldKeys().txPriority, BThenA(), Id("A", 0)) == WithoutANode()
  {
    var p := PriorityOrder(KeepsOldKeys().txPriority.compare);
    var a, b := NodeAt(A0, "A", 0, Price(1), Some(0)), NodeAt(B0, "B", 0, Price(5), Some(0));
    var stale := ScoredKey(Id("A", 0), Score(Price(1), Price(0)));
    assert p(stale, b.key) != 0 && p(stale, a.key) == 0;
    assert [b, a][1..] == [a];
    assert SkipLists.Remove(p, [a], stale) == [];
    assert SkipLists.Remove(p, [b, a], stale) == [b];
    assert map[Price(1) := 1, Price(5) := 1][Price(1) := 0] == map[Price(1) := 0, Price(5) := 1];
  }

  lemma SetUp()
    ensures Set(PriorityOrder(ComparePrices), [NodeAt(B0, "B", 0, Price(5), Some(0))],
                NodeAt(A0_RAISED, "A", 0, Price(9), Some(0)).key, A0_RAISED, false) == RaisedA().priorityIndex
    ensures Set(NonceOrder<Priority>(), [NodeAt(A0, "A", 0, Price(1), None)],
                NodeAt(A0_RAISED, "A", 0, Price(9), None).key, A0_RAISED, false) == [NodeAt(A0_RAISED, "A", 0, Price(1), None)]
  {
    var p := PriorityOrder(ComparePrices);
    assert p(NodeAt(A0_RAISED, "A", 0, Price(9), Some(0)).key, NodeAt(B0, "B", 0, Price(5), Some(0)).key) < 0;
  }

  lemma AddA()
    ensures Added(KeepsOldKeys().txPriority, WithoutANode(), Id("A", 0), A0_RAISED, false) == RaisedA()
  {
    SetUp();
    AddedScores();
    AddedList();
    hide Set, PriorityOrder, NonceOrder;
    assert map[Price(1) := 0, Price(5) := 1][Price(9) := 1] == RaisedA().priorityCounts;
  }

  lemma AddedScores()
    ensures WithoutANode().scores[Id("A", 0) := Score(Price(9), Price(0))] == RaisedA().scores
  {
    assert "B" != "A" by { assert "B"[0] != "A"[0]; }
  }

  lemma AddedList()
    ensures WithoutANode().senderIndices["A" := [NodeAt(A0_RAISED, "A", 0, Price(1), None)]] == RaisedA().senderIndices
    ensures ListOf(WithoutANode().senderIndices, "A") == [NodeAt(A0, "A", 0, Price(1), None)]
  {
    assert "B" != "A" by { assert "B"[0] != "A"[0]; }
  }

  lemma RaiseA()
    ensures Step(KeepsOldKeys(), BThenA(), Op.Insert(A0_RAISED)) == RaisedA()
  {
    SampleIds();
    assert TxId(A0_RAISED) == Some(Id("A", 0));
    DropA();
    AddA();
    hide Dropped, Added, BThenA, RaisedA, WithoutANode;
  }

  /** After the run both transactions are stored, but an iteration returns B's alone: A's node is
      left because the key in A's list ranks below B, and A has no other node. Exactly this decides
      whether a sender's list is returned: that no key of it is blocked at the sender's last node. */
  lemma StaleKeyIsNeverReturned()
    ensures var ops := [Op.Insert(A0), Op.Insert(B0), Op.Insert(A0_RAISED)];
            && PlainRun(KeepsOldKeys(), ops) == map[Id("A", 0) := A0_RAISED, Id("B", 0) := B0]
            && Values(Selection(KeepsOldKeys().txPriority, Run(KeepsOldKeys(), ops))) == [B0]
  {
    var cfg := KeepsOldKeys();
    var tp, ix := cfg.txPriority, RaisedA();
    RunOfThree(cfg, Op.Insert(A0), Op.Insert(B0), Op.Insert(A0_RAISED));
    InsertA();
    InsertB();
    RaiseA();
    PlainRunOfThree();
    NoTies();
    RaisedSelection();
  }

  /** A with a raised price alone in the pool: its list still carries the old one. */
  function RaisedAlone(): Indices<Priority> {
    Indices([NodeAt(A0_RAISED, "A", 0, Price(9), Some(0))],
            map[Price(1) := 0, Price(9) := 1],
            map["A" := [NodeAt(A0_RAISED, "A", 0, Price(1), None)]],
            map[Id("A", 0) := Score(Price(9), Price(0))])
  }

  lemma RaiseAlone()
    ensures Step(KeepsOldKeys(), OnlyA(), Op.Insert(A0_RAISED)) == RaisedAlone()
  {
    var tp := KeepsOldKeys().txPriority;
    var p := PriorityOrder(ComparePrices);
    var a := NodeAt(A0, "A", 0, Price(1), Some(0));
    assert TxId(A0_RAISED) == Some(Id("A", 0));
    assert SkipLists.Remove(p, [a], ScoredKey(Id("A", 0), Score(Price(1), Price(0)))) == [];
    assert Dropped(tp, OnlyA(), Id("A", 0)) == OnlyA().(priorityIndex := [], priorityCounts := map[Price(1) := 0]);
    SetUp();
    var dropped := OnlyA().(priorityIndex := [], priorityCounts := map[Price(1) := 0]);
    assert Set(p, [], NodeAt(A0_RAISED, "A", 0, Price(9), Some(0)).key, A0_RAISED, false) == RaisedAlone().priorityIndex;
    hide Set, PriorityOrder, NonceOrder, Dropped;
    assert map[Price(1) := 0][Price(9) := 1] == RaisedAlone().priorityCounts;
    assert dropped.scores[Id("A", 0) := Score(Price(9), Price(0))] == RaisedAlone().scores;
    assert dropped.senderIndices["A" := [NodeAt(A0_RAISED, "A", 0, Price(1), None)]] == RaisedAlone().senderIndices;
    assert Added(tp, dropped, Id("A", 0), A0_RAISED, false) == RaisedAlone();
  }

  /** A stale key by itself loses nothing: with no other sender to rank above it, A's transaction is
      still returned. */
  lemma StaleKeyMayBeReturned()
    ensures Values(Selection(KeepsOldKeys().txPriority, Step(KeepsOldKeys(), OnlyA(), Op.Insert(A0_RAISED)))) == [A0_RAISED]
  {
    RaiseAlone();
    var tp, ix := KeepsOldKeys().txPriority, RaisedAlone();
    var a := NodeAt(A0_RAISED, "A", 0, Price(1), None);
    assert TiesFrom(tp, ix, 1) == [];
    assert TiesFrom(tp, ix, 0) == [];
    assert Emit(tp, ix, 1, map["A" := 1]) == [];
    assert Emit(tp, ix, 0, map["A" := 1]) == [];
    assert Emit(tp, ix, 0, map[]) == [a];
    assert [a][1..] == [];
  }

  lemma RunOfThree(cfg: Config<Priority>, a: Op, b: Op, c: Op)
    ensures Run(cfg, [a, b, c]) == Step(cfg, Step(cfg, Step(cfg, EmptyIndices(), a), b), c)
    ensures PlainRun(cfg, [a, b, c]) == PlainStep(cfg, PlainStep(cfg, PlainStep(cfg, map[], a), b), c)
  {
    hide Step, PlainStep;
    assert [a, b, c][..2] == [a, b] && [a, b][..1] == [a] && [a][..0] == [];
    assert Run(cfg, [a]) == Step(cfg, Run(cfg, []), a);
    assert PlainRun(cfg, [a]) == PlainStep(cfg, PlainRun(cfg, []), a);
    assert Run(cfg, [a, b]) == Step(cfg, Run(cfg, [a]), b);
    assert PlainRun(cfg, [a, b]) == PlainStep(cfg, PlainRun(cfg, [a]), b);
  }

  lemma PlainRunOfThree()
    ensures PlainStep(KeepsOldKeys(), PlainStep(KeepsOldKeys(), PlainStep(KeepsOldKeys(), map[], Op.Insert(A0)), Op.Insert(B0)),
                      Op.Insert(A0_RAISED))
         == map[Id("A", 0) := A0_RAISED, Id("B", 0) := B0]
  {
    SampleIds();
    assert TxId(A0_RAISED) == Some(Id("A", 0));
  }

  lemma NoTies()
    ensures Reordered(KeepsOldKeys().txPriority, RaisedA()) == RaisedA()
  {
    var tp, ix := KeepsOldKeys().txPriority, RaisedA();
    assert TiesFrom(tp, ix, 2) == [];
    assert TiesFrom(tp, ix, 1) == [];
    assert TiesFrom(tp, ix, 0) == [];
  }

  lemma RaisedSelection()
    ensures Values(Emit(KeepsOldKeys().txPriority, RaisedA(), 0, map[])) == [B0]
  {
    var tp, ix := KeepsOldKeys().txPriority, RaisedA();
    assert "B" != "A" by { assert "B"[0] != "A"[0]; }
    var b := NodeAt(B0, "B", 0, Price(5), None);
    assert Emit(tp, ix, 2, map["B" := 1]) == [];
    assert Emit(tp, ix, 1, map["B" := 1]) == [];
    assert Emit(tp, ix, 1, map[]) == [b];
    assert Emit(tp, ix, 0, map[]) == [b];
    assert [b][1..] == [];
  }
}
