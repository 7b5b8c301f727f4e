/** A stale key can also spoil the order of a selection, not only its completeness. */
module StaleOrder {
  import opened Types
  import opened SkipLists
  import opened Ordering
  import opened PriorityIndex
  import opened Reordering
  import opened Iteration
  import opened MempoolRuns
  import opened LaneModel
  import opened OrderGaps

  const A0_DEAR := Sample("A", 0, 10)
  const A1_LOWERED := Sample("A", 1, 1)

  function Ids(): map<Id, Score<Priority>> {
    map[Id("A", 0) := Score(Price(10), Price(0)), Id("A", 1) := Score(Price(9), Price(0)), Id("B", 0) := Score(Price(5), Price(0))]
  }

  const A0_NODE := NodeAt(A0_DEAR, "A", 0, Price(10), Some(0))
  const A1_NODE := NodeAt(A1, "A", 1, Price(9), Some(1))
  const B0_NODE := NodeAt(B0, "B", 0, Price(5), Some(0))
  const LOW_NODE := NodeAt(A1_LOWERED, "A", 1, Price(1), Some(1))
  const A0_ENTRY := NodeAt(A0_DEAR, "A", 0, Price(10), None)
  const A1_ENTRY := NodeAt(A1, "A", 1, Price(9), None)
  const B0_ENTRY := NodeAt(B0, "B", 0, Price(5), None)
  /** A's second transaction after its price fell, under the key of the old one. */
  const STALE_ENTRY := NodeAt(A1_LOWERED, "A", 1, Price(9), None)

  function First(): Indices<Priority> {
    Indices([A0_NODE], map[Price(10) := 1], map["A" := [A0_ENTRY]], map[Id("A", 0) := Score(Price(10), Price(0))])
  }

  function Second(): Indices<Priority> {
    Indices([A0_NODE, A1_NODE], map[Price(10) := 1, Price(9) := 1], map["A" := [A0_ENTRY, A1_ENTRY]],
            map[Id("A", 0) := Score(Price(10), Price(0)), Id("A", 1) := Score(Price(9), Price(0))])
  }

  function Third(): Indices<Priority> {
    Indices([A0_NODE, A1_NODE, B0_NODE], map[Price(10) := 1, Price(9) := 1, Price(5) := 1],
            map["A" := [A0_ENTRY, A1_ENTRY], "B" := [B0_ENTRY]], Ids())
  }

  /** Between the two halves of the re-insertion. */
  function Between(): Indices<Priority> {
    Third().(priorityIndex := [A0_NODE, B0_NODE], priorityCounts := map[Price(10) := 1, Price(9) := 0, Price(5) := 1])
  }

  function Lowered(): Indices<Priority> {
    Indices([A0_NODE, B0_NODE, LOW_NODE], map[Price(10) := 1, Price(9) := 0, Price(5) := 1, Price(1) := 1],
            map["A" := [A0_ENTRY, STALE_ENTRY], "B" := [B0_ENTRY]], Ids()[Id("A", 1) := Score(Price(1), Price(0))])
  }

  lemma Named(tx: Tx, sender: string, nonce: uint64, price: uint64)
    requires tx == Sample(sender, nonce, price)
    ensures TxId(tx) == Some(Id(sender, nonce)) && PriceOf(tx) == Price(price)
  {
  }

  lemma BIsNotA()
    ensures "B" != "A"
  {
    assert "B"[0] != "A"[0];
  }

  lemma InsertFirst()
    ensures Step(KeepsOldKeys(), EmptyIndices(), Op.Insert(A0_DEAR)) == First()
  {
    Named(A0_DEAR, "A", 0, 10);
  }

  /** A price below all others goes to the end of the index. */
  lemma SetsSecond()
    ensures Set(PriorityOrder(ComparePrices), [A0_NODE], A1_NODE.key, A1, false) == [A0_NODE, A1_NODE]
    ensures Set(NonceOrder<Priority>(), [A0_ENTRY], A1_ENTRY.key, A1, false) == [A0_ENTRY, A1_ENTRY]
  {
    assert PriorityOrder(ComparePrices)(A1_NODE.key, A0_NODE.key) > 0;
    assert [A0_NODE][1..] == [] && [A0_ENTRY][1..] == [];
    assert Set(PriorityOrder(ComparePrices), [], A1_NODE.key, A1, false) == [A1_NODE];
    assert Set(NonceOrder<Priority>(), [], A1_ENTRY.key, A1, false) == [A1_ENTRY];
  }

  lemma InsertSecond()
    ensures Step(KeepsOldKeys(), First(), Op.Insert(A1)) == Second()
  {
    Named(A1, "A", 1, 9);
    SetsSecond();
    hide Set, PriorityOrder, NonceOrder;
    assert First().priorityCounts[Price(9) := 1] == Second().priorityCounts;
    assert First().scores[Id("A", 1) := Score(Price(9), Price(0))] == Second().scores;
    assert First().senderIndices["A" := [A0_ENTRY, A1_ENTRY]] == Second().senderIndices;
  }

  lemma SetsThird()
    ensures Set(PriorityOrder(ComparePrices), [A0_NODE, A1_NODE], B0_NODE.key, B0, false) == [A0_NODE, A1_NODE, B0_NODE]
    ensures Set(NonceOrder<Priority>(), [], B0_ENTRY.key, B0, false) == [B0_ENTRY]
  {
    var p := PriorityOrder(ComparePrices);
    assert p(B0_NODE.key, A0_NODE.key) > 0 && p(B0_NODE.key, A1_NODE.key) > 0;
    assert [A0_NODE, A1_NODE][1..] == [A1_NODE] && [A1_NODE][1..] == [];
    assert Set(p, [], B0_NODE.key, B0, false) == [B0_NODE];
    assert Set(p, [A1_NODE], B0_NODE.key, B0, false) == [A1_NODE, B0_NODE];
  }

  lemma InsertThird()
    ensures Step(KeepsOldKeys(), Second(), Op.Insert(B0)) == Third()
  {
    Named(B0, "B", 0, 5);
    BIsNotA();
    SetsThird();
    hide Set, PriorityOrder, NonceOrder;
    assert Second().priorityCounts[Price(5) := 1] == Third().priorityCounts;
    assert Second().scores[Id("B", 0) := Score(Price(5), Price(0))] == Third().scores;
    assert Second().senderIndices["B" := [B0_ENTRY]] == Third().senderIndices;
  }

  lemma DropSecond()
    ensures Dropped(KeepsOldKeys().txPriority, Third(), Id("A", 1)) == Between()
  {
    var p := PriorityOrder(ComparePrices);
    var key := ScoredKey(Id("A", 1), Score(Price(9), Price(0)));
    assert p(key, A0_NODE.key) != 0 && p(key, A1_NODE.key) == 0;
    assert [A0_NODE, A1_NODE, B0_NODE][1..] == [A1_NODE, B0_NODE] && [A1_NODE, B0_NODE][1..] == [B0_NODE];
    assert SkipLists.Remove(p, [A1_NODE, B0_NODE], key) == [B0_NODE];
    assert SkipLists.Remove(p, [A0_NODE, A1_NODE, B0_NODE], key) == [A0_NODE, B0_NODE];
    assert Third().priorityCounts[Price(9) := 0] == Between().priorityCounts;
  }

  lemma SetsLowered()
    ensures Set(PriorityOrder(ComparePrices), [A0_NODE, B0_NODE], LOW_NODE.key, A1_LOWERED, false) == [A0_NODE, B0_NODE, LOW_NODE]
    ensures Set(NonceOrder<Priority>(), [A0_ENTRY, A1_ENTRY], NodeAt(A1_LOWERED, "A", 1, Price(1), None).key, A1_LOWERED, false)
         == [A0_ENTRY, STALE_ENTRY]
  {
    var p, q := PriorityOrder(ComparePrices), NonceOrder<Priority>();
    var key := NodeAt(A1_LOWERED, "A", 1, Price(1), None).key;
    assert p(LOW_NODE.key, A0_NODE.key) > 0 && p(LOW_NODE.key, B0_NODE.key) > 0;
    assert [A0_NODE, B0_NODE][1..] == [B0_NODE] && [B0_NODE][1..] == [];
    assert Set(p, [], LOW_NODE.key, A1_LOWERED, false) == [LOW_NODE];
    assert Set(p, [B0_NODE], LOW_NODE.key, A1_LOWERED, false) == [B0_NODE, LOW_NODE];
    assert q(key, A0_ENTRY.key) > 0 && q(key, A1_ENTRY.key) == 0;
    assert [A0_ENTRY, A1_ENTRY][1..] == [A1_ENTRY];
    assert Set(q, [A1_ENTRY], key, A1_LOWERED, false) == [STALE_ENTRY];
  }

  lemma AddLowered()
    ensures Added(KeepsOldKeys().txPriority, Between(), Id("A", 1), A1_LOWERED, false) == Lowered()
  {
    BIsNotA();
    SetsLowered();
    hide Set, PriorityOrder, NonceOrder;
    assert Between().priorityCounts[Price(1) := 1] == Lowered().priorityCounts;
    assert Between().senderIndices["A" := [A0_ENTRY, STALE_ENTRY]] == Lowered().senderIndices;
  }

  lemma InsertLowered()
    ensures Step(KeepsOldKeys(), Third(), Op.Insert(A1_LOWERED)) == Lowered()
  {
    Named(A1_LOWERED, "A", 1, 1);
    DropSecond();
    AddLowered();
    hide Dropped, Added, Between, Lowered, Third;
  }

  lemma NoTies()
    ensures Reordered(KeepsOldKeys().txPriority, Lowered()) == Lowered()
  {
    var tp, ix := KeepsOldKeys().txPriority, Lowered();
    assert TiesFrom(tp, ix, 3) == [];
    assert TiesFrom(tp, ix, 2) == [];
    assert TiesFrom(tp, ix, 1) == [];
    assert TiesFrom(tp, ix, 0) == [];
  }

  /** At A's node both keys of its list are above B's; at B's node B's key is above A's new price. */
  lemma NothingBlocked()
    ensures var tp, ix := KeepsOldKeys().txPriority, Lowered();
            && !Blocked(tp, ix, 0, A0_ENTRY.key) && !Blocked(tp, ix, 0, STALE_ENTRY.key) && !Blocked(tp, ix, 1, B0_ENTRY.key)
  {
  }

  lemma LoweredLists()
    ensures ListOf(Lowered().senderIndices, "A") == [A0_ENTRY, STALE_ENTRY] && ListOf(Lowered().senderIndices, "B") == [B0_ENTRY]
    ensures Lowered().priorityIndex == [A0_NODE, B0_NODE, LOW_NODE]
  {
    BIsNotA();
  }

  lemma LoweredSelection()
    ensures Emit(KeepsOldKeys().txPriority, Lowered(), 0, map[]) == [A0_ENTRY, STALE_ENTRY, B0_ENTRY]
  {
    var tp, ix := KeepsOldKeys().txPriority, Lowered();
    NothingBlocked();
    LoweredLists();
    BIsNotA();
    hide Blocked, Lowered, ListOf;
    var none: map<string, nat> := map[];
    var one, two, both := map["A" := 1], map["A" := 2], map["A" := 2, "B" := 1];
    assert none["A" := 1] == one && one["A" := 2] == two && two["B" := 1] == both;
    assert Emit(tp, ix, 2, both) == [];
    assert Emit(tp, ix, 1, both) == [];
    assert Emit(tp, ix, 1, two) == [B0_ENTRY];
    assert Emit(tp, ix, 0, two) == [B0_ENTRY];
    assert Emit(tp, ix, 0, one) == [STALE_ENTRY, B0_ENTRY];
    assert Emit(tp, ix, 0, none) == [A0_ENTRY, STALE_ENTRY, B0_ENTRY];
  }

  lemma RunOfFour(cfg: Config<Priority>, a: Op, b: Op, c: Op, d: Op)
    ensures Run(cfg, [a, b, c, d]) == Step(cfg, Step(cfg, Step(cfg, Step(cfg, EmptyIndices(), a), b), c), d)
  {
    hide Step;
    assert [a, b, c, d][..3] == [a, b, c];
    RunOfThree(cfg, a, b, c);
  }

  /** With a library that keeps stored keys: A's second transaction falls from 9 to 1, below B's 5, but
      its list still says 9. Everything is selected, A's cheap transaction ahead of B's dear one, and the
      process handler would not accept the two as neighbours. */
  lemma StaleKeyBreaksOrder()
    ensures var cfg := KeepsOldKeys();
            var ops := [Op.Insert(A0_DEAR), Op.Insert(A1), Op.Insert(B0), Op.Insert(A1_LOWERED)];
            && Selection(cfg.txPriority, Run(cfg, ops)) == [A0_ENTRY, STALE_ENTRY, B0_ENTRY]
            && Values([A0_ENTRY, STALE_ENTRY, B0_ENTRY]) == [A0_DEAR, A1_LOWERED, B0]
            && !AcceptsPair(cfg.txPriority, A1_LOWERED, B0)
  {
    RunOfFour(KeepsOldKeys(), Op.Insert(A0_DEAR), Op.Insert(A1), Op.Insert(B0), Op.Insert(A1_LOWERED));
    InsertFirst();
    InsertSecond();
    InsertThird();
    InsertLowered();
    NoTies();
    LoweredSelection();
    LoweredPair();
    hide Step, Run, Reordered, Emit, AcceptsPair, Lowered, Third, Second, First;
    assert [STALE_ENTRY, B0_ENTRY][1..] == [B0_ENTRY];
  }

  lemma LoweredPair()
    ensures !AcceptsPair(KeepsOldKeys().txPriority, A1_LOWERED, B0)
  {
    BIsNotA();
  }
}
