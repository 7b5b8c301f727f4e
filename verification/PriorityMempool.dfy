/** The mempool object and its iterator, as the lanes use them. */
module PriorityMempool {
  import opened Types
  import opened SkipLists
  import opened Ordering
  import opened PriorityIndex
  import opened Reordering
  import opened Iteration
  import opened Ranking
  import opened MempoolRuns

  class PriorityNonceMempool<C(==, !new)> {
    const cfg: Config<C>
    var priorityIndex: seq<Node<C>>
    var priorityCounts: map<C, int>
    var senderIndices: map<string, seq<Node<C>>>
    var scores: map<Id, Score<C>>
    /** The transactions stored, one per sender and nonce. */
    ghost var contents: Contents<C>

    function State(): Indices<C>
      reads this
    {
      Indices(priorityIndex, priorityCounts, senderIndices, scores)
    }

    ghost predicate Valid()
      reads this
    {
      Consistent(cfg, State(), contents)
    }

    constructor (cfg: Config<C>)
      requires PreorderOn(cfg.txPriority.compare, iset{cfg.txPriority.zeroValue, cfg.txPriority.minValue})
      ensures Valid() && this.cfg == cfg
      ensures State() == EmptyIndices() && contents == map[]
    {
      this.cfg := cfg;
      priorityIndex, priorityCounts, senderIndices, scores := [], map[], map[], map[];
      contents := map[];
      EmptyAgrees(cfg.txPriority);
      var none: Contents<C> := map[];
      assert Occurring(cfg.txPriority, none) == iset{cfg.txPriority.zeroValue, cfg.txPriority.minValue};
    }

    method CountTx() returns (n: nat)
      requires Valid()
      ensures n == |contents|
    {
      n := |priorityIndex|;
    }

    method Contains(tx: Tx) returns (r: bool)
      requires Valid()
      ensures r <==> TxId(tx).Some? && TxId(tx).value in contents
    {
      if tx.signers.None? || |tx.signers.value| == 0 { return false; }
      var sig := tx.signers.value[0];
      r := Id(sig.signer, sig.sequence) in scores;
      StoredUnder(cfg, State(), contents, Id(sig.signer, sig.sequence));
    }

    /** The transactions stored, as the plain map they amount to. */
    ghost function Pool(): map<Id, Tx>
      reads this
    {
      TxsOf(contents)
    }

    /** If the transaction is stored, its priority ranks among those that occur in the pool. */
    ghost predicate CanRank(tx: Tx)
      reads this
    {
      InsertOutcome(cfg, State(), tx).Inserted? ==> PreorderOn(cfg.txPriority.compare, Mentioned(cfg.txPriority, contents, Op.Insert(tx)))
    }

    method Insert(tx: Tx) returns (r: InsertResult)
      requires Valid()
      modifies this
      ensures old(CanRank(tx)) ==> Valid()
      ensures r == InsertOutcome(cfg, old(State()), tx)
      ensures State() == Step(cfg, old(State()), Op.Insert(tx))
      ensures contents == StepContents(cfg, old(State()), old(contents), Op.Insert(tx))
      ensures Pool() == PlainStep(cfg, old(Pool()), Op.Insert(tx))
    {
      r := Admit(tx);
      ghost var ix := State();
      InsertStores(cfg, ix, contents, tx);
      hide Consistent, InsertOutcome, TxsOf, PlainStep;
      if CanRank(tx) && r.Inserted? { StepConsistent(cfg, ix, contents, Op.Insert(tx)); }
      if r.Inserted? {
        contents := StepContents(cfg, ix, contents, Op.Insert(tx));
        var sk := TxId(tx).value;
        if sk in scores { DropKey(sk); }
        AddKey(sk, tx);
      }
    }

    /** The guards of Insert: capacity, signer, replacement rule. */
    method Admit(tx: Tx) returns (r: InsertResult)
      requires Valid()
      ensures r == InsertOutcome(cfg, State(), tx)
      ensures r.Inserted? ==> TxId(tx).Some?
    {
      if cfg.maxTx > 0 && |priorityIndex| >= cfg.maxTx {
        return AtCapacity;
      } else if cfg.maxTx < 0 {
        return Disabled;
      }
      if tx.signers.None? || |tx.signers.value| == 0 { return NoSigner; }
      var signer := tx.signers.value[0];
      var sk := Id(signer.signer, signer.sequence);
      if sk in scores && cfg.txReplacement.Some? {
        StoredUnder(cfg, State(), contents, sk);
        var senderIndex := senderIndices[sk.sender];
        var oldTx := senderIndex[Position(senderIndex, sk.nonce)].value;
        if !cfg.txReplacement.value(scores[sk].priority, cfg.txPriority.getTxPriority(tx), oldTx, tx) { return Rejected; }
      }
      r := InsertResult.Inserted;
    }

    /** The part of Insert that takes a known transaction out of the priority index. */
    method DropKey(id: Id)
      requires id in scores
      modifies `priorityIndex, `priorityCounts
      ensures State() == Dropped(cfg.txPriority, old(State()), id)
    {
      var oldScore := scores[id];
      priorityIndex := SkipLists.Remove(PriorityOrder(cfg.txPriority.compare), priorityIndex, ScoredKey(id, oldScore));
      priorityCounts := priorityCounts[oldScore.priority := CountAt(priorityCounts, oldScore.priority) - 1];
    }

    /** The part of Insert that stores the transaction in all four indices. */
    method AddKey(id: Id, tx: Tx)
      modifies `priorityIndex, `priorityCounts, `senderIndices, `scores
      ensures State() == Added(cfg.txPriority, old(State()), id, tx, cfg.replaceKey)
    {
      var priority := cfg.txPriority.getTxPriority(tx);
      var key := Meta(id.nonce, priority, id.sender, cfg.txPriority.zeroValue, None);
      priorityCounts := priorityCounts[priority := CountAt(priorityCounts, priority) + 1];
      senderIndices := senderIndices[id.sender := Set(NonceOrder<C>(), ListOf(senderIndices, id.sender), key, tx, cfg.replaceKey)];
      scores := scores[id := Score(priority, cfg.txPriority.zeroValue)];
      priorityIndex := Set(PriorityOrder(cfg.txPriority.compare), priorityIndex, key.(element := Some(id.nonce)), tx, cfg.replaceKey);
    }

    /** Returns whether the transaction was found. */
    method Remove(tx: Tx) returns (found: bool)
      requires Valid()
      modifies this
      ensures Valid()
      ensures found <==> TxId(tx).Some? && TxId(tx).value in old(contents)
      ensures State() == Step(cfg, old(State()), Op.Remove(tx))
      ensures contents == StepContents(cfg, old(State()), old(contents), Op.Remove(tx))
      ensures Pool() == PlainStep(cfg, old(Pool()), Op.Remove(tx))
    {
      hide Consistent;
      ghost var ix := State();
      QuietStepConsistent(cfg, ix, contents, Op.Remove(tx));
      if tx.signers.None? || |tx.signers.value| == 0 { return false; }
      var sig := tx.signers.value[0];
      var scoreKey := Id(sig.signer, sig.sequence);
      StoredUnder(cfg, ix, contents, scoreKey);
      contents := StepContents(cfg, ix, contents, Op.Remove(tx));
      if scoreKey !in scores {
        return false;
      }
      var score := scores[scoreKey];
      var tk := ScoredKey(scoreKey, score);
      priorityIndex := SkipLists.Remove(PriorityOrder(cfg.txPriority.compare), priorityIndex, tk);
      senderIndices := senderIndices[sig.signer := SkipLists.Remove(NonceOrder<C>(), ListOf(senderIndices, sig.signer), tk)];
      scores := scores - {scoreKey};
      priorityCounts := priorityCounts[score.priority := CountAt(priorityCounts, score.priority) - 1];
      assert State() == Removed(cfg.txPriority, ix, scoreKey) == Step(cfg, ix, Op.Remove(tx));
      found := true;
    }

    method SenderWeightOf(list: seq<Node<C>>, element: Option<uint64>) returns (weight: C)
      ensures weight == SenderWeight(cfg.txPriority, list, element)
    {
      if element.None? { return cfg.txPriority.minValue; }
      var cursor := Position(list, element.value);
      if cursor >= |list| { return cfg.txPriority.minValue; }
      weight := list[cursor].key.priority;
      cursor := cursor + 1;
      while cursor < |list|
        invariant cursor <= |list|
        invariant WeightFrom(cfg.txPriority.compare, list, cursor, weight) == SenderWeight(cfg.txPriority, list, element)
      {
        var p := list[cursor].key.priority;
        if cfg.txPriority.compare(p, weight) != 0 {
          weight := p;
        }
        cursor := cursor + 1;
      }
    }

    method ReorderPriorityTies()
      requires Valid()
      modifies this
      ensures Valid()
      ensures State() == Reordered(cfg.txPriority, old(State()))
      ensures contents == Reweighed(cfg.txPriority, old(State()), old(contents))
    {
      ReorderedConsistent(cfg, State(), contents);
      var reordering := CollectTies();
      contents := Reweighed(cfg.txPriority, State(), contents);
      ApplyReordering(reordering);
    }

    /** The first loop of reorderPriorityTies. */
    method CollectTies() returns (reordering: seq<ReorderKey<C>>)
      ensures reordering == TiesFrom(cfg.txPriority, State(), 0)
    {
      reordering := [];
      var node := 0;
      while node < |priorityIndex|
        invariant node <= |priorityIndex|
        invariant reordering + TiesFrom(cfg.txPriority, State(), node) == TiesFrom(cfg.txPriority, State(), 0)
      {
        var n := priorityIndex[node];
        if CountAt(priorityCounts, n.key.priority) > 1 {
          var weight := SenderWeightOf(ListOf(senderIndices, n.key.sender), n.key.element);
          reordering := reordering + [ReorderKey(n.key, n.key.(weight := weight), n.value)];
        }
        node := node + 1;
      }
    }

    /** The second loop of reorderPriorityTies. */
    method ApplyReordering(reordering: seq<ReorderKey<C>>)
      modifies `priorityIndex, `scores
      ensures State() == ApplyTies(cfg.txPriority, old(State()), reordering)
    {
      var i := 0;
      assert reordering[0..] == reordering;
      while i < |reordering|
        invariant i <= |reordering|
        invariant ApplyTies(cfg.txPriority, State(), reordering[i..]) == ApplyTies(cfg.txPriority, old(State()), reordering)
      {
        var k := reordering[i];
        assert reordering[i..] == [k] + reordering[i + 1..];
        ghost var before := State();
        priorityIndex := SkipLists.Remove(PriorityOrder(cfg.txPriority.compare), priorityIndex, k.deleteKey);
        scores := scores - {IdOf(k.deleteKey)};
        priorityIndex := Set(PriorityOrder(cfg.txPriority.compare), priorityIndex, k.insertKey, k.tx, true);
        scores := scores[IdOf(k.insertKey) := Score(k.insertKey.priority, k.insertKey.weight)];
        assert State() == ApplyTie(cfg.txPriority, before, k);
        i := i + 1;
      }
    }

    /** The transactions an iteration started now would return, in order. */
    ghost function SelectedTxs(): seq<Tx>
      reads this
    {
      if priorityIndex == [] then [] else Values(Selection(cfg.txPriority, State()))
    }

    /** Select: an iterator positioned on the first transaction, or null. */
    method Select() returns (it: PriorityNonceIterator?<C>)
      requires Valid()
      modifies this
      ensures Valid()
      ensures State() == Step(cfg, old(State()), Op.Select)
      ensures contents == StepContents(cfg, old(State()), old(contents), Op.Select)
      ensures Pool() == old(Pool())
      ensures it != null ==> fresh(it)
      ensures Yields(it, this, old(SelectedTxs()))
    {
      QuietStepConsistent(cfg, State(), contents, Op.Select);
      if |priorityIndex| == 0 { return null; }
      ReorderPriorityTies();
      var iter := new PriorityNonceIterator(this);
      var more := iter.IteratePriority();
      it := if more then iter else null;
    }
  }

  class PriorityNonceIterator<C(==, !new)> {
    const mempool: PriorityNonceMempool<C>
    /** The node of the priority index, named by its position. */
    var priorityNode: Option<nat>
    /** Per sender, the entry returned last, named by its position counted from one. */
    var senderCursors: map<string, nat>
    var sender: string
    var nextPriority: C

    ghost predicate Valid()
      reads this, mempool
    {
      && (priorityNode.Some? ==>
            && priorityNode.value < |mempool.priorityIndex|
            && sender == mempool.priorityIndex[priorityNode.value].key.sender
            && (priorityNode.value + 1 < |mempool.priorityIndex| ==>
                  nextPriority == mempool.priorityIndex[priorityNode.value + 1].key.priority))
      && (forall k :: k in mempool.priorityIndex ==> k.key.sender in mempool.senderIndices)
    }

    /** There is a transaction to read. */
    ghost predicate Positioned()
      reads this, mempool
    {
      && priorityNode.Some?
      && sender in senderCursors
      && 0 < senderCursors[sender] <= |ListOf(mempool.senderIndices, sender)|
    }

    ghost function Current(): Tx
      requires Positioned()
      reads this, mempool
    {
      ListOf(mempool.senderIndices, sender)[senderCursors[sender] - 1].value
    }

    /** What repeated calls of Next will return, while the mempool is not changed. */
    ghost function Remaining(): seq<Tx>
      reads this, mempool
    {
      if priorityNode.None? then []
      else Values(Emit(mempool.cfg.txPriority, mempool.State(), priorityNode.value, senderCursors))
    }

    ghost function NextNode(): nat
      reads this
    {
      if priorityNode.None? then 0 else priorityNode.value + 1
    }

    constructor (mempool: PriorityNonceMempool<C>)
      requires mempool.Valid()
      ensures this.mempool == mempool && priorityNode.None? && senderCursors == map[] && Valid()
    {
      this.mempool := mempool;
      priorityNode, senderCursors, sender := None, map[], "";
      nextPriority := mempool.cfg.txPriority.minValue;
      new;
      EveryNodeListed(mempool);
    }

    method IteratePriority() returns (more: bool)
      requires Valid()
      modifies this
      ensures Valid()
      ensures more ==> Positioned()
      ensures old(Values(Emit(mempool.cfg.txPriority, mempool.State(), NextNode(), senderCursors)))
           == if more then [Current()] + Remaining() else []
      ensures !more ==> priorityNode.None?
      decreases |mempool.priorityIndex| - NextNode(), 1
    {
      if priorityNode.None? {
        priorityNode := if |mempool.priorityIndex| > 0 then Some(0) else None;
      } else {
        priorityNode := if priorityNode.value + 1 < |mempool.priorityIndex| then Some(priorityNode.value + 1) else None;
      }
      if priorityNode.None? {
        EmitEnds(mempool.cfg.txPriority, mempool.State(), old(NextNode()), senderCursors);
        return false;
      }
      hide Emit, Values, Blocked;
      sender := mempool.priorityIndex[priorityNode.value].key.sender;
      if priorityNode.value + 1 < |mempool.priorityIndex| {
        nextPriority := mempool.priorityIndex[priorityNode.value + 1].key.priority;
      } else {
        nextPriority := mempool.cfg.txPriority.minValue;
      }
      more := Next();
    }

    method Next() returns (more: bool)
      requires Valid()
      modifies this
      ensures Valid()
      ensures more ==> Positioned()
      ensures old(Remaining()) == if more then [Current()] + Remaining() else []
      ensures !more ==> priorityNode.None?
      decreases if priorityNode.None? then 0 else |mempool.priorityIndex| - priorityNode.value, 0
    {
      if priorityNode.None? { return false; }
      hide Emit, Blocked;
      assert mempool.priorityIndex[priorityNode.value] in mempool.priorityIndex;
      var list := mempool.senderIndices[sender];
      var cursor := Returned(senderCursors, sender);
      var leave := cursor >= |list|;
      if !leave { leave := BelowNextNode(list[cursor].key); }
      if leave {
        EmitSkips(mempool.cfg.txPriority, mempool.State(), priorityNode.value, senderCursors);
        more := IteratePriority();
      } else {
        EmitServes(mempool.cfg.txPriority, mempool.State(), priorityNode.value, senderCursors);
        senderCursors := senderCursors[sender := cursor + 1];
        more := true;
      }
    }

    /** Next's comparison with the next node, by priority and then by weight; the weight is read
        from the scores, because the sender's list does not carry it. */
    method BelowNextNode(key: Meta<C>) returns (below: bool)
      requires Valid() && priorityNode.Some?
      ensures below == Blocked(mempool.cfg.txPriority, mempool.State(), priorityNode.value, key)
    {
      below := false;
      if priorityNode.value + 1 < |mempool.priorityIndex| {
        if mempool.cfg.txPriority.compare(key.priority, nextPriority) < 0 {
          below := true;
        } else if mempool.cfg.txPriority.compare(key.priority, nextPriority) == 0 {
          var weight := WeightOf(mempool.cfg.txPriority, mempool.State(), IdOf(key));
          below := mempool.cfg.txPriority.compare(weight, mempool.priorityIndex[priorityNode.value + 1].key.weight) < 0;
        }
      }
    }

    method Tx() returns (tx: Tx)
      requires Positioned()
      ensures tx == Current()
    {
      tx := mempool.senderIndices[sender][senderCursors[sender] - 1].value;
    }
  }

  /** The iterator (null at the end) has exactly `rest` still to return. */
  ghost predicate Yields<C(!new)>(it: PriorityNonceIterator?<C>, mempool: PriorityNonceMempool<C>, rest: seq<Tx>)
    reads it, mempool
  {
    if it == null then rest == []
    else it.mempool == mempool && it.Valid() && it.Positioned() && rest == [it.Current()] + it.Remaining()
  }

  /** `iterator = iterator.Next()`. */
  method MoveOn<C(!new)>(it: PriorityNonceIterator<C>, ghost rest: seq<Tx>) returns (next: PriorityNonceIterator?<C>)
    requires Yields(it, it.mempool, rest)
    modifies it
    ensures next == null || next == it
    ensures Yields(next, it.mempool, rest[1..])
  {
    assert rest[1..] == it.Remaining();
    var more := it.Next();
    next := if more then it else null;
  }

  /** `iterator.Tx()`. */
  method Read<C(!new)>(it: PriorityNonceIterator<C>, ghost rest: seq<Tx>) returns (tx: Tx)
    requires Yields(it, it.mempool, rest)
    ensures rest != [] && tx == rest[0]
  {
    tx := it.Tx();
  }

  lemma EveryNodeListed<C(!new)>(mempool: PriorityNonceMempool<C>)
    requires mempool.Valid()
    ensures forall k :: k in mempool.priorityIndex ==> k.key.sender in mempool.senderIndices
  {
    var m := mempool.contents;
    forall k | k in mempool.priorityIndex ensures k.key.sender in mempool.senderIndices {
      assert NodeAgrees(mempool.priorityIndex, m, k);
      var id := IdOf(k.key);
      assert ListAgrees(mempool.cfg.txPriority, ListOf(mempool.senderIndices, id.sender), id.sender, m);
      assert EntryAgrees(mempool.cfg.txPriority, ListOf(mempool.senderIndices, id.sender), m, id.sender,
                         ListedOf(mempool.cfg.txPriority, id, m[id]));
    }
  }
}
