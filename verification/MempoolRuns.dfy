/** Whole runs of the mempool: any sequence of Insert, Remove and Select, compared with a plain
    map from sender and nonce to transaction. */
module MempoolRuns {
  import opened Types
  import opened SkipLists
  import opened Ordering
  import opened PriorityIndex
  import opened Reordering
  import opened Iteration
  import opened Ranking

  /** PriorityNonceMempoolConfig. `replaceKey` is the skip list library's behaviour when a value is
      set under a key that compares equal to a stored one. */
  datatype Config<!C> = Config(
    txPriority: TxPriority<C>,
    maxTx: int,
    txReplacement: Option<(C, C, Tx, Tx) -> bool>,
    replaceKey: bool)

  datatype InsertResult = Inserted | AtCapacity | Disabled | NoSigner | Rejected

  /** Insert's guards in the order they are taken; `stored` is the transaction already held under
      the same sender and nonce. */
  function Admission<C>(cfg: Config<C>, count: nat, tx: Tx, stored: Option<Tx>, oldPriority: C): InsertResult {
    if cfg.maxTx > 0 && count >= cfg.maxTx then AtCapacity
    else if cfg.maxTx < 0 then Disabled
    else if TxId(tx).None? then NoSigner
    else if stored.Some? && cfg.txReplacement.Some?
            && !cfg.txReplacement.value(oldPriority, cfg.txPriority.getTxPriority(tx), stored.value, tx) then Rejected
    else InsertResult.Inserted
  }

  /** The transaction Insert finds under an already stored key, through the sender's list. */
  function StoredTx<C>(ix: Indices<C>, id: Id): Option<Tx> {
    var list := ListOf(ix.senderIndices, id.sender);
    var at := Position(list, id.nonce);
    if id in ix.scores && at < |list| then Some(list[at].value) else None
  }

  function InsertOutcome<C>(cfg: Config<C>, ix: Indices<C>, tx: Tx): InsertResult {
    var stored := if TxId(tx).Some? then StoredTx(ix, TxId(tx).value) else None;
    Admission(cfg, |ix.priorityIndex|, tx, stored,
              if TxId(tx).Some? && TxId(tx).value in ix.scores then ix.scores[TxId(tx).value].priority else cfg.txPriority.zeroValue)
  }

  datatype Op = Insert(tx: Tx) | Remove(tx: Tx) | Select

  /** One operation on the four indices. */
  function Step<C>(cfg: Config<C>, ix: Indices<C>, op: Op): Indices<C> {
    match op
    case Insert(tx) =>
      if InsertOutcome(cfg, ix, tx).Inserted?
      then PriorityIndex.Inserted(cfg.txPriority, ix, TxId(tx).value, tx, cfg.replaceKey) else ix
    case Remove(tx) =>
      if TxId(tx).Some? && TxId(tx).value in ix.scores then Removed(cfg.txPriority, ix, TxId(tx).value) else ix
    case Select => if ix.priorityIndex == [] then ix else Reordered(cfg.txPriority, ix)
  }

  /** The same operation on a plain map of transactions. */
  function PlainStep<C>(cfg: Config<C>, pool: map<Id, Tx>, op: Op): map<Id, Tx> {
    match op
    case Insert(tx) =>
      var stored := if TxId(tx).Some? && TxId(tx).value in pool then Some(pool[TxId(tx).value]) else None;
      var oldPriority := if stored.Some? then cfg.txPriority.getTxPriority(stored.value) else cfg.txPriority.zeroValue;
      if Admission(cfg, |pool|, tx, stored, oldPriority).Inserted? then pool[TxId(tx).value := tx] else pool
    case Remove(tx) => if TxId(tx).Some? then pool - {TxId(tx).value} else pool
    case Select => pool
  }

  /** The first signature's signer and sequence. */
  predicate SignedFirstBy(tx: Tx, id: Id) {
    tx.signers.Some? && tx.signers.value != [] && tx.signers.value[0] == SignerData(id.sender, id.nonce)
  }

  /** Exactly when Insert stores a transaction: it has a first signature, the pool is not disabled and
      not full, and a replacement rule, when there is one, allows it to replace what is stored there. */
  lemma InsertStoresExactly<C>(cfg: Config<C>, pool: map<Id, Tx>, tx: Tx, id: Id)
    requires SignedFirstBy(tx, id)
    ensures PlainStep(cfg, pool, Op.Insert(tx))
         == if && (cfg.maxTx == 0 || (0 < cfg.maxTx && |pool| < cfg.maxTx))
               && (id in pool && cfg.txReplacement.Some? ==>
                     cfg.txReplacement.value(cfg.txPriority.getTxPriority(pool[id]), cfg.txPriority.getTxPriority(tx), pool[id], tx))
            then pool[id := tx] else pool
  {
  }

  lemma UnsignedIsNotStored<C>(cfg: Config<C>, pool: map<Id, Tx>, tx: Tx)
    requires forall id :: !SignedFirstBy(tx, id)
    ensures PlainStep(cfg, pool, Op.Insert(tx)) == pool && PlainStep(cfg, pool, Op.Remove(tx)) == pool
  {
    if TxId(tx).Some? { assert SignedFirstBy(tx, TxId(tx).value); }
  }

  /** What Insert reports, in the order of its guards; `old_` is the transaction stored there. */
  lemma InsertReports<C>(cfg: Config<C>, count: nat, tx: Tx, id: Id, old_: Option<Tx>, oldPriority: C)
    requires SignedFirstBy(tx, id)
    ensures Admission(cfg, count, tx, old_, oldPriority).AtCapacity? <==> 0 < cfg.maxTx <= count
    ensures Admission(cfg, count, tx, old_, oldPriority).Disabled? <==> cfg.maxTx < 0
    ensures !Admission(cfg, count, tx, old_, oldPriority).NoSigner?
    ensures Admission(cfg, count, tx, old_, oldPriority).Rejected?
            <==> && (cfg.maxTx == 0 || (0 < cfg.maxTx && count < cfg.maxTx)) && old_.Some? && cfg.txReplacement.Some?
                 && !cfg.txReplacement.value(oldPriority, cfg.txPriority.getTxPriority(tx), old_.value, tx)
  {
  }

  /** The operation does not store a transaction whose priority differs from the one it replaces. */
  predicate KeepsPriority<C(==)>(cfg: Config<C>, pool: map<Id, Tx>, op: Op) {
    op.Insert? && TxId(op.tx).Some? && TxId(op.tx).value in pool
    ==> cfg.txPriority.getTxPriority(pool[TxId(op.tx).value]) == cfg.txPriority.getTxPriority(op.tx)
  }

  function TxsOf<C>(m: Contents<C>): map<Id, Tx> {
    map id | id in m :: m[id].tx
  }

  /** What one operation leaves stored. */
  function StepContents<C>(cfg: Config<C>, ix: Indices<C>, m: Contents<C>, op: Op): Contents<C> {
    match op
    case Insert(tx) =>
      if InsertOutcome(cfg, ix, tx).Inserted?
      then m[TxId(tx).value := StoredBy(cfg.txPriority, m, TxId(tx).value, tx, cfg.replaceKey)] else m
    case Remove(tx) => if TxId(tx).Some? then m - {TxId(tx).value} else m
    case Select => if ix.priorityIndex == [] then m else Reweighed(cfg.txPriority, ix, m)
  }

  lemma StoredTxFound<C(!new)>(tp: TxPriority<C>, ix: Indices<C>, m: Contents<C>, id: Id)
    requires Agree(tp, ix, m)
    ensures StoredTx(ix, id) == if id in m then Some(m[id].tx) else None
  {
    assert ScoreAgrees(ix.scores, m, id);
    var list := ListOf(ix.senderIndices, id.sender);
    if id in m {
      assert ListAgrees(tp, list, id.sender, m);
      assert EntryAgrees(tp, list, m, id.sender, ListedOf(tp, id, m[id]));
      var at :| 0 <= at < |list| && list[at] == ListedOf(tp, id, m[id]);
      PositionFinds(list, at);
    }
  }

  lemma {:induction false} PositionFinds<C(!new)>(list: seq<Node<C>>, at: nat)
    requires Sorted(NonceOrder<C>(), list) && at < |list|
    ensures Position(list, list[at].key.nonce) == at
  {
    if at > 0 {
      assert NonceOrder<C>()(list[0].key, list[at].key) < 0;
      PositionFinds(list[1..], at - 1);
    }
  }

  lemma ScoreKnown<C(!new)>(tp: TxPriority<C>, ix: Indices<C>, m: Contents<C>, id: Id)
    requires Agree(tp, ix, m)
    ensures ScoreAgrees(ix.scores, m, id) && (id in ix.scores <==> id in m)
  {
    assert ScoreAgrees(ix.scores, m, id);
  }

  lemma Scored<C(!new)>(tp: TxPriority<C>, ix: Indices<C>, m: Contents<C>, id: Id)
    requires Agree(tp, ix, m)
    ensures id in ix.scores <==> id in m
    ensures id in m ==> ix.scores[id].priority == m[id].priority == tp.getTxPriority(m[id].tx)
    ensures |ix.priorityIndex| == |m|
  {
    assert ScoreAgrees(ix.scores, m, id) && NamedAt(tp, m, id);
  }

  /** The priorities that occur in the pool or come in with the operation. */
  ghost function Mentioned<C(!new)>(tp: TxPriority<C>, m: Contents<C>, op: Op): iset<C> {
    Occurring(tp, m) + if op.Insert? then iset{tp.getTxPriority(op.tx)} else iset{}
  }

  /** One step keeps the four indices in agreement, does to the stored transactions exactly what it
      does to the plain map, and brings in no priority but the inserted one. The ranking has to be a
      total preorder on the priorities the step meets, and on no others. */
  lemma StepRefines<C(!new)>(cfg: Config<C>, ix: Indices<C>, m: Contents<C>, op: Op)
    requires PreorderOn(cfg.txPriority.compare, Mentioned(cfg.txPriority, m, op)) && Agree(cfg.txPriority, ix, m)
    ensures Agree(cfg.txPriority, Step(cfg, ix, op), StepContents(cfg, ix, m, op))
    ensures TxsOf(StepContents(cfg, ix, m, op)) == PlainStep(cfg, TxsOf(m), op)
    ensures Occurring(cfg.txPriority, StepContents(cfg, ix, m, op)) <= Mentioned(cfg.txPriority, m, op)
  {
    var tp := cfg.txPriority;
    var dom := Mentioned(tp, m, op);
    var cfg' := cfg.(txPriority := Tamed(tp, dom));
    Extend(tp, ix, m, dom);
    TotalStepRefines(cfg', ix, m, op);
    SameStep(cfg, dom, ix, m, op);
    StepMentions(cfg, dom, ix, m, op);
    var ix', m' := Step(cfg, ix, op), StepContents(cfg, ix, m, op);
    hide Step, StepContents, PlainStep, Mentioned, Tamed;
    BackFromTamed(tp, dom, ix', m');
  }

  /** Agreement under the extended ranking is agreement. */
  lemma BackFromTamed<C(!new)>(tp: TxPriority<C>, dom: iset<C>, ix: Indices<C>, m: Contents<C>)
    requires Agree(Tamed(tp, dom), ix, m) && Occurring(tp, m) <= dom
    ensures Agree(tp, ix, m)
  {
    SameZero(tp, dom);
    assert Tamed(tp, dom).minValue == tp.minValue;
    assert Occurring(Tamed(tp, dom), m) <= dom by {
      forall c | Occurs(Tamed(tp, dom), m, c) ensures c in dom {
        assert Occurs(tp, m, c);
      }
    }
    AgreedWithin(Tamed(tp, dom), ix, m, dom);
    SameAgree(tp, dom, ix, m);
  }

  /** The step is the same under the extended ranking. */
  lemma SameStep<C(!new)>(cfg: Config<C>, dom: iset<C>, ix: Indices<C>, m: Contents<C>, op: Op)
    requires Within(cfg.txPriority, dom, ix) && (op.Insert? ==> cfg.txPriority.getTxPriority(op.tx) in dom)
    ensures var cfg' := cfg.(txPriority := Tamed(cfg.txPriority, dom));
            && Step(cfg, ix, op) == Step(cfg', ix, op) && StepContents(cfg, ix, m, op) == StepContents(cfg', ix, m, op)
            && PlainStep(cfg, TxsOf(m), op) == PlainStep(cfg', TxsOf(m), op)
  {
    var tp := cfg.txPriority;
    hide Within, PriorityIndex.Inserted, Removed, Reordered, Reweighed, StoredTx;
    match op
    case Insert(tx) =>
      if TxId(tx).Some? { SameInserted(tp, dom, ix, TxId(tx).value, tx, cfg.replaceKey); }
      SameGuards(cfg, dom, ix, m, tx);
      hide Admission, InsertOutcome, TxsOf;
    case Remove(tx) =>
      if TxId(tx).Some? && TxId(tx).value in ix.scores { SameRemoved(tp, dom, ix, TxId(tx).value, tx); }
    case Select =>
      SameReordered(tp, dom, ix);
      SameReweighed(tp, dom, ix, m);
  }

  /** Insert's guards and what it stores do not look at the comparison. */
  lemma SameGuards<C(!new)>(cfg: Config<C>, dom: iset<C>, ix: Indices<C>, m: Contents<C>, tx: Tx)
    ensures var cfg' := cfg.(txPriority := Tamed(cfg.txPriority, dom));
            && InsertOutcome(cfg, ix, tx) == InsertOutcome(cfg', ix, tx)
            && PlainStep(cfg, TxsOf(m), Insert(tx)) == PlainStep(cfg', TxsOf(m), Insert(tx))
            && forall id :: StoredBy(cfg.txPriority, m, id, tx, cfg.replaceKey) == StoredBy(cfg'.txPriority, m, id, tx, cfg.replaceKey)
  {
    hide StoredTx, TxsOf;
  }

  lemma StepMentions<C(!new)>(cfg: Config<C>, dom: iset<C>, ix: Indices<C>, m: Contents<C>, op: Op)
    requires Within(cfg.txPriority, dom, ix) && dom == Mentioned(cfg.txPriority, m, op)
    ensures Occurring(cfg.txPriority, StepContents(cfg, ix, m, op)) <= dom
  {
    var tp, m' := cfg.txPriority, StepContents(cfg, ix, m, op);
    if op.Select? {
      SameReweighed(tp, dom, ix, m);
    } else {
      forall c | Occurs(tp, m', c) ensures c in dom {
        if c != tp.zeroValue && c != tp.minValue {
          var id :| id in m' && (c == m'[id].priority || c == m'[id].weight || c == m'[id].listed);
          if id in m {
            assert Occurs(tp, m, m[id].priority) && Occurs(tp, m, m[id].weight) && Occurs(tp, m, m[id].listed);
          }
        }
        assert Occurs(tp, m, tp.zeroValue) && Occurs(tp, m, tp.minValue);
      }
    }
  }

  /** The same with a total preorder of all values. */
  lemma TotalStepRefines<C(!new)>(cfg: Config<C>, ix: Indices<C>, m: Contents<C>, op: Op)
    requires TotalPreorder(cfg.txPriority.compare) && Agree(cfg.txPriority, ix, m)
    ensures Agree(cfg.txPriority, Step(cfg, ix, op), StepContents(cfg, ix, m, op))
    ensures TxsOf(StepContents(cfg, ix, m, op)) == PlainStep(cfg, TxsOf(m), op)
  {
    hide Agree;
    match op
    case Insert(tx) => if TxId(tx).Some? { InsertRefines(cfg, ix, m, tx); }
    case Remove(tx) => if TxId(tx).Some? { RemoveRefines(cfg, ix, m, tx); }
    case Select => ReorderedAgrees(cfg.txPriority, ix, m);
  }

  /** What Insert stores, whatever the ranking. */
  lemma InsertStores<C(!new)>(cfg: Config<C>, ix: Indices<C>, m: Contents<C>, tx: Tx)
    requires Agree(cfg.txPriority, ix, m)
    ensures TxsOf(StepContents(cfg, ix, m, Insert(tx))) == PlainStep(cfg, TxsOf(m), Insert(tx))
  {
    if TxId(tx).Some? {
      SameOutcome(cfg, ix, m, tx);
      hide Agree, InsertOutcome;
      if InsertOutcome(cfg, ix, tx).Inserted? {
        assert TxsOf(StepContents(cfg, ix, m, Insert(tx))) == TxsOf(m)[TxId(tx).value := tx];
      }
    }
  }

  lemma InsertRefines<C(!new)>(cfg: Config<C>, ix: Indices<C>, m: Contents<C>, tx: Tx)
    requires TotalPreorder(cfg.txPriority.compare) && Agree(cfg.txPriority, ix, m)
    requires TxId(tx).Some?
    ensures Agree(cfg.txPriority, Step(cfg, ix, Insert(tx)), StepContents(cfg, ix, m, Insert(tx)))
    ensures TxsOf(StepContents(cfg, ix, m, Insert(tx))) == PlainStep(cfg, TxsOf(m), Insert(tx))
  {
    hide Agree;
    InsertStores(cfg, ix, m, tx);
    hide PlainStep, TxsOf;
    if InsertOutcome(cfg, ix, tx).Inserted? {
      InsertedAgrees(cfg.txPriority, ix, m, TxId(tx).value, tx, cfg.replaceKey);
    }
  }

  /** The guards of Insert decide the same on the indices and on the plain map. */
  lemma SameOutcome<C(!new)>(cfg: Config<C>, ix: Indices<C>, m: Contents<C>, tx: Tx)
    requires Agree(cfg.txPriority, ix, m) && TxId(tx).Some?
    ensures PlainStep(cfg, TxsOf(m), Insert(tx))
         == if InsertOutcome(cfg, ix, tx).Inserted? then TxsOf(m)[TxId(tx).value := tx] else TxsOf(m)
  {
    var id := TxId(tx).value;
    Scored(cfg.txPriority, ix, m, id);
    StoredTxFound(cfg.txPriority, ix, m, id);
    SameCount(m);
  }

  lemma RemoveRefines<C(!new)>(cfg: Config<C>, ix: Indices<C>, m: Contents<C>, tx: Tx)
    requires TotalPreorder(cfg.txPriority.compare) && Agree(cfg.txPriority, ix, m)
    requires TxId(tx).Some?
    ensures Agree(cfg.txPriority, Step(cfg, ix, Remove(tx)), StepContents(cfg, ix, m, Remove(tx)))
    ensures TxsOf(StepContents(cfg, ix, m, Remove(tx))) == PlainStep(cfg, TxsOf(m), Remove(tx))
  {
    var id := TxId(tx).value;
    ScoreKnown(cfg.txPriority, ix, m, id);
    hide Agree, ScoreAgrees;
    TxsWithout(m, id);
    if id in m { RemovedAgrees(cfg.txPriority, ix, m, id); }
    hide Removed, TxsOf;
  }

  lemma TxsWithout<C(!new)>(m: Contents<C>, id: Id)
    ensures TxsOf(m - {id}) == TxsOf(m) - {id}
    ensures id !in m ==> m - {id} == m
  {
  }

  lemma SameCount<C>(m: Contents<C>)
    ensures |TxsOf(m)| == |m|
  {
    assert TxsOf(m).Keys == m.Keys;
    assert |TxsOf(m).Keys| == |m.Keys|;
  }

  /** The sender lists stay current unless a re-insert changes a priority and the library keeps
      the old key. */
  lemma StepKeepsCurrent<C(!new)>(cfg: Config<C>, ix: Indices<C>, m: Contents<C>, op: Op)
    requires Agree(cfg.txPriority, ix, m) && Current(m)
    requires cfg.replaceKey || KeepsPriority(cfg, TxsOf(m), op)
    ensures Current(StepContents(cfg, ix, m, op))
  {
    if op.Insert? && TxId(op.tx).Some? {
      assert NamedAt(cfg.txPriority, m, TxId(op.tx).value);
    }
  }

  /** Insert never grows the pool past a positive limit. */
  lemma StepKeepsCapacity<C(!new)>(cfg: Config<C>, ix: Indices<C>, m: Contents<C>, op: Op)
    requires PreorderOn(cfg.txPriority.compare, Mentioned(cfg.txPriority, m, op)) && Agree(cfg.txPriority, ix, m)
    requires cfg.maxTx > 0 ==> |ix.priorityIndex| <= cfg.maxTx
    ensures cfg.maxTx > 0 ==> |Step(cfg, ix, op).priorityIndex| <= cfg.maxTx
  {
    StepRefines(cfg, ix, m, op);
    if op.Select? && ix.priorityIndex != [] {
      assert Reweighed(cfg.txPriority, ix, m).Keys == m.Keys;
      assert |Reweighed(cfg.txPriority, ix, m).Keys| == |m.Keys|;
    }
  }

  /** Every transaction has the same priority, as under DefaultTxPriority. */
  ghost predicate OnePriority<C(!new)>(tp: TxPriority<C>) {
    forall a, b :: tp.getTxPriority(a) == tp.getTxPriority(b)
  }

  /** What every operation keeps. */
  ghost predicate Consistent<C(!new)>(cfg: Config<C>, ix: Indices<C>, m: Contents<C>) {
    && Ranked(cfg.txPriority, m)
    && Agree(cfg.txPriority, ix, m)
    && (cfg.maxTx > 0 ==> |ix.priorityIndex| <= cfg.maxTx)
    && (OnePriority(cfg.txPriority) ==> Current(m))
  }

  lemma StepConsistent<C(!new)>(cfg: Config<C>, ix: Indices<C>, m: Contents<C>, op: Op)
    requires Consistent(cfg, ix, m) && PreorderOn(cfg.txPriority.compare, Mentioned(cfg.txPriority, m, op))
    ensures Consistent(cfg, Step(cfg, ix, op), StepContents(cfg, ix, m, op))
    ensures TxsOf(StepContents(cfg, ix, m, op)) == PlainStep(cfg, TxsOf(m), op)
  {
    StepRefines(cfg, ix, m, op);
    StepKeepsCapacity(cfg, ix, m, op);
    FewerRank(cfg.txPriority.compare, Mentioned(cfg.txPriority, m, op), Occurring(cfg.txPriority, StepContents(cfg, ix, m, op)));
    hide Agree, Step, StepContents, Mentioned, Occurring, PreorderOn;
    if OnePriority(cfg.txPriority) { StepKeepsCurrent(cfg, ix, m, op); }
  }

  lemma MentionsNothingNew<C(!new)>(cfg: Config<C>, m: Contents<C>, op: Op)
    requires !op.Insert?
    ensures Mentioned(cfg.txPriority, m, op) == Occurring(cfg.txPriority, m)
  {
  }

  /** Remove and Select keep the mempool consistent; they bring in no priority. */
  lemma QuietStepConsistent<C(!new)>(cfg: Config<C>, ix: Indices<C>, m: Contents<C>, op: Op)
    requires Consistent(cfg, ix, m) && !op.Insert?
    ensures Consistent(cfg, Step(cfg, ix, op), StepContents(cfg, ix, m, op))
    ensures TxsOf(StepContents(cfg, ix, m, op)) == PlainStep(cfg, TxsOf(m), op)
  {
    MentionsNothingNew(cfg, m, op);
    StepConsistent(cfg, ix, m, op);
  }

  lemma ReorderedConsistent<C(!new)>(cfg: Config<C>, ix: Indices<C>, m: Contents<C>)
    requires Consistent(cfg, ix, m)
    ensures Consistent(cfg, Reordered(cfg.txPriority, ix), Reweighed(cfg.txPriority, ix, m))
  {
    if ix.priorityIndex == [] {
      assert TiesFrom(cfg.txPriority, ix, 0) == [];
      assert |m| == 0 && Reweighed(cfg.txPriority, ix, m) == m;
    } else {
      QuietStepConsistent(cfg, ix, m, Select);
    }
  }

  /** What Insert reads through the sender's list is the stored transaction. */
  lemma StoredUnder<C(!new)>(cfg: Config<C>, ix: Indices<C>, m: Contents<C>, id: Id)
    requires Consistent(cfg, ix, m)
    ensures id in ix.scores <==> id in m
    ensures id in m ==> id.sender in ix.senderIndices
                        && Position(ix.senderIndices[id.sender], id.nonce) < |ix.senderIndices[id.sender]|
                        && ix.senderIndices[id.sender][Position(ix.senderIndices[id.sender], id.nonce)].value == m[id].tx
  {
    assert ScoreAgrees(ix.scores, m, id);
    StoredTxFound(cfg.txPriority, ix, m, id);
  }

  function Run<C>(cfg: Config<C>, ops: seq<Op>): Indices<C> {
    if ops == [] then EmptyIndices() else Step(cfg, Run(cfg, ops[..|ops| - 1]), ops[|ops| - 1])
  }

  function PlainRun<C>(cfg: Config<C>, ops: seq<Op>): map<Id, Tx> {
    if ops == [] then map[] else PlainStep(cfg, PlainRun(cfg, ops[..|ops| - 1]), ops[|ops| - 1])
  }

  predicate RunKeepsPriorities<C(==)>(cfg: Config<C>, ops: seq<Op>) {
    ops == [] || (RunKeepsPriorities(cfg, ops[..|ops| - 1])
                  && KeepsPriority(cfg, PlainRun(cfg, ops[..|ops| - 1]), ops[|ops| - 1]))
  }

  /** The priorities a run brings in. */
  ghost function RunPriorities<C(!new)>(tp: TxPriority<C>, ops: seq<Op>): iset<C> {
    iset c | Brings(tp, ops, c)
  }

  ghost predicate Brings<C(!new)>(tp: TxPriority<C>, ops: seq<Op>, c: C) {
    c == tp.zeroValue || c == tp.minValue || exists i :: 0 <= i < |ops| && ops[i].Insert? && c == tp.getTxPriority(ops[i].tx)
  }

  /** After any run the four indices agree, describe exactly the transactions of the plain map,
      respect the capacity, hold no priority the run did not bring in, and have current sender lists
      when no re-insert changed a priority. The ranking has to be a total preorder only on the
      priorities of the run. */
  lemma {:induction false} RunRefines<C(!new)>(cfg: Config<C>, ops: seq<Op>) returns (m: Contents<C>)
    requires PreorderOn(cfg.txPriority.compare, RunPriorities(cfg.txPriority, ops))
    ensures Agree(cfg.txPriority, Run(cfg, ops), m)
    ensures TxsOf(m) == PlainRun(cfg, ops)
    ensures Occurring(cfg.txPriority, m) <= RunPriorities(cfg.txPriority, ops)
    ensures cfg.maxTx > 0 ==> |Run(cfg, ops).priorityIndex| <= cfg.maxTx
    ensures cfg.replaceKey || RunKeepsPriorities(cfg, ops) ==> Current(m)
  {
    var tp := cfg.txPriority;
    if ops == [] {
      m := map[];
      EmptyAgrees(tp);
    } else {
      var before, op := ops[..|ops| - 1], ops[|ops| - 1];
      RunBrings(tp, ops);
      var m0 := RunRefines(cfg, before);
      var ix := Run(cfg, before);
      assert Mentioned(tp, m0, op) <= RunPriorities(tp, ops);
      FewerRank(tp.compare, RunPriorities(tp, ops), Mentioned(tp, m0, op));
      hide Agree, Step, StepContents, Mentioned, Occurring, PreorderOn, RunPriorities;
      StepRefines(cfg, ix, m0, op);
      StepKeepsCapacity(cfg, ix, m0, op);
      if cfg.replaceKey || RunKeepsPriorities(cfg, ops) { StepKeepsCurrent(cfg, ix, m0, op); }
      m := StepContents(cfg, ix, m0, op);
    }
  }

  lemma RunBrings<C(!new)>(tp: TxPriority<C>, ops: seq<Op>)
    requires ops != []
    ensures RunPriorities(tp, ops[..|ops| - 1]) <= RunPriorities(tp, ops)
    ensures PreorderOn(tp.compare, RunPriorities(tp, ops)) ==> PreorderOn(tp.compare, RunPriorities(tp, ops[..|ops| - 1]))
    ensures ops[|ops| - 1].Insert? ==> tp.getTxPriority(ops[|ops| - 1].tx) in RunPriorities(tp, ops)
  {
  }

  lemma EmptyAgrees<C(!new)>(tp: TxPriority<C>)
    ensures Agree(tp, EmptyIndices<C>(), map[])
  {
    var m: Contents<C> := map[];
    var senders: map<string, seq<Node<C>>> := map[];
    forall s ensures ListAgrees(tp, ListOf(senders, s), s, m) {
      forall n: Node<C> ensures EntryAgrees(tp, ListOf(senders, s), m, s, n) {
      }
    }
    var nodes: seq<Node<C>> := [];
    forall n: Node<C> ensures NodeAgrees(nodes, m, n) {
    }
    var scores: map<Id, Score<C>> := map[];
    forall id ensures ScoreAgrees(scores, m, id) && NamedAt(tp, m, id) {
    }
  }

  /** In every reachable pool whose sender lists are current, the selection holds each transaction
      of the plain map exactly once and passes the order check at every step. */
  lemma RunSelection<C(!new)>(cfg: Config<C>, ops: seq<Op>)
    requires PreorderOn(cfg.txPriority.compare, RunPriorities(cfg.txPriority, ops))
    requires cfg.replaceKey || RunKeepsPriorities(cfg, ops)
    ensures var r := Selection(cfg.txPriority, Run(cfg, ops));
            var pool := PlainRun(cfg, ops);
            && (forall n :: n in r ==> IdOf(n.key) in pool && pool[IdOf(n.key)] == n.value)
            && (forall id :: id in pool ==> pool[id] in Values(r))
            && (forall i, j :: 0 <= i < j < |r| ==> IdOf(r[i].key) != IdOf(r[j].key))
            && (forall i, j :: 0 <= i < j < |r| && r[i].key.sender == r[j].key.sender ==> r[i].key.nonce < r[j].key.nonce)
            && (forall i :: 0 <= i < |r| - 1 ==> AcceptsPair(cfg.txPriority, Values(r)[i], Values(r)[i + 1]))
  {
    var tp := cfg.txPriority;
    var m := RunRefines(cfg, ops);
    var ix := Run(cfg, ops);
    var r := Selection(tp, ix);
    FewerRank(tp.compare, RunPriorities(tp, ops), Occurring(tp, m));
    RankedSelectionOnce(tp, ix, m);
    hide Selection, Agree, AcceptsPair, Run, Occurring, PreorderOn;
    forall id | id in PlainRun(cfg, ops) ensures PlainRun(cfg, ops)[id] in Values(r) {
      assert IsListed(tp, m, id.sender, ListedOf(tp, id, m[id]));
      var at :| 0 <= at < |r| && r[at] == ListedOf(tp, id, m[id]);
      assert Values(r)[at] == m[id].tx;
    }
    forall i | 0 <= i < |r| - 1 ensures AcceptsPair(tp, Values(r)[i], Values(r)[i + 1]) {
      RankedSelectionPasses(tp, ix, m, i);
    }
  }
}
