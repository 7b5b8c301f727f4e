/** The four linked indices of the priority-nonce mempool as one value, the updates Insert,
    Remove and Select make to them, and the agreement between them that every update keeps. */
module PriorityIndex {
  import opened Types
  import opened SkipLists
  import opened Ordering

  /** A transaction is named by the signer and sequence of its first signature. */
  datatype Id = Id(sender: string, nonce: uint64)

  datatype Score<+C> = Score(priority: C, weight: C)

  type Node<C> = Entry<Meta<C>, Tx>

  datatype Indices<C(==)> = Indices(
    priorityIndex: seq<Node<C>>,
    priorityCounts: map<C, int>,
    senderIndices: map<string, seq<Node<C>>>,
    scores: map<Id, Score<C>>)

  function TxId(tx: Tx): Option<Id> {
    if tx.signers.None? || tx.signers.value == [] then None
    else Some(Id(tx.signers.value[0].signer, tx.signers.value[0].sequence))
  }

  function IdOf<C>(key: Meta<C>): Id {
    Id(key.sender, key.nonce)
  }

  /** Go's map read: a missing key counts zero. */
  function CountAt<C(==)>(counts: map<C, int>, p: C): int {
    if p in counts then counts[p] else 0
  }

  function ListOf<C>(senders: map<string, seq<Node<C>>>, sender: string): seq<Node<C>> {
    if sender in senders then senders[sender] else []
  }

  // ----- what the indices hold ------------------------------------------------------------

  /** What is stored under one sender and nonce: the transaction, its priority and tie-break
      weight, and the priority recorded in the key of the sender's list. */
  datatype Stored<+C> = Stored(tx: Tx, priority: C, weight: C, listed: C)

  type Contents<C> = map<Id, Stored<C>>

  function NodeOf<C>(id: Id, s: Stored<C>): Node<C> {
    Entry(Meta(id.nonce, s.priority, id.sender, s.weight, Some(id.nonce)), s.tx)
  }

  function ListedOf<C>(tp: TxPriority<C>, id: Id, s: Stored<C>): Node<C> {
    Entry(Meta(id.nonce, s.listed, id.sender, tp.zeroValue, None), s.tx)
  }

  ghost function CountOf<C>(nodes: seq<Node<C>>, p: C): nat {
    if nodes == [] then 0
    else (if nodes[0].key.priority == p then 1 else 0) + CountOf(nodes[1..], p)
  }

  ghost predicate IsNode<C(!new)>(m: Contents<C>, n: Node<C>) {
    IdOf(n.key) in m && n == NodeOf(IdOf(n.key), m[IdOf(n.key)])
  }

  ghost predicate IsListed<C(!new)>(tp: TxPriority<C>, m: Contents<C>, sender: string, n: Node<C>) {
    n.key.sender == sender && IdOf(n.key) in m && n == ListedOf(tp, IdOf(n.key), m[IdOf(n.key)])
  }

  ghost predicate NodeAgrees<C(!new)>(nodes: seq<Node<C>>, m: Contents<C>, n: Node<C>) {
    n in nodes <==> IsNode(m, n)
  }

  ghost predicate EntryAgrees<C(!new)>(tp: TxPriority<C>, list: seq<Node<C>>, m: Contents<C>, sender: string, n: Node<C>) {
    n in list <==> IsListed(tp, m, sender, n)
  }

  /** The priority index holds exactly one node for each stored transaction. */
  ghost predicate IndexAgrees<C(!new)>(tp: TxPriority<C>, nodes: seq<Node<C>>, m: Contents<C>) {
    && Sorted(PriorityOrder(tp.compare), nodes)
    && |nodes| == |m|
    && forall n :: NodeAgrees(nodes, m, n)
  }

  ghost predicate ListAgrees<C(!new)>(tp: TxPriority<C>, list: seq<Node<C>>, sender: string, m: Contents<C>) {
    Sorted(NonceOrder<C>(), list) && forall n :: EntryAgrees(tp, list, m, sender, n)
  }

  /** The sender lists together hold exactly the stored transactions, each list in nonce order. */
  ghost predicate SendersAgree<C(!new)>(tp: TxPriority<C>, senders: map<string, seq<Node<C>>>, m: Contents<C>) {
    forall s :: ListAgrees(tp, ListOf(senders, s), s, m)
  }

  ghost predicate CountsAgree<C(!new)>(counts: map<C, int>, nodes: seq<Node<C>>) {
    forall p: C :: CountAt(counts, p) == CountOf(nodes, p)
  }

  ghost predicate ScoreAgrees<C(!new)>(scores: map<Id, Score<C>>, m: Contents<C>, id: Id) {
    && (id in scores <==> id in m)
    && (id in m ==> scores[id] == Score(m[id].priority, m[id].weight))
  }

  ghost predicate ScoresAgree<C(!new)>(scores: map<Id, Score<C>>, m: Contents<C>) {
    forall id :: ScoreAgrees(scores, m, id)
  }

  ghost predicate NamedAt<C(!new)>(tp: TxPriority<C>, m: Contents<C>, id: Id) {
    id in m ==> TxId(m[id].tx) == Some(id) && m[id].priority == tp.getTxPriority(m[id].tx)
  }

  /** Every transaction is stored under its own sender and nonce, with its own priority. */
  ghost predicate Named<C(!new)>(tp: TxPriority<C>, m: Contents<C>) {
    forall id :: NamedAt(tp, m, id)
  }

  /** All four indices describe the same transactions `m`. */
  ghost predicate Agree<C(!new)>(tp: TxPriority<C>, ix: Indices<C>, m: Contents<C>) {
    && IndexAgrees(tp, ix.priorityIndex, m)
    && SendersAgree(tp, ix.senderIndices, m)
    && CountsAgree(ix.priorityCounts, ix.priorityIndex)
    && ScoresAgree(ix.scores, m)
    && Named(tp, m)
  }

  /** The sender lists' keys carry the current priorities. */
  ghost predicate Current<C(!new)>(m: Contents<C>) {
    forall id :: id in m ==> m[id].listed == m[id].priority
  }

  function EmptyIndices<C>(): Indices<C> {
    Indices([], map[], map[], map[])
  }

  // ----- the updates ----------------------------------------------------------------------

  /** The key under which a scored transaction is looked up in the priority index. */
  function ScoredKey<C>(id: Id, score: Score<C>): Meta<C> {
    Meta(id.nonce, score.priority, id.sender, score.weight, None)
  }

  /** Insert's first half: drop the old priority key if the sender and nonce are known. */
  function Dropped<C>(tp: TxPriority<C>, ix: Indices<C>, id: Id): Indices<C> {
    if id !in ix.scores then ix
    else
      var old_ := ix.scores[id];
      ix.(priorityIndex := Remove(PriorityOrder(tp.compare), ix.priorityIndex, ScoredKey(id, old_)),
          priorityCounts := ix.priorityCounts[old_.priority := CountAt(ix.priorityCounts, old_.priority) - 1])
  }

  /** Insert's second half: set the sender list, the score and the new priority key. */
  function Added<C>(tp: TxPriority<C>, ix: Indices<C>, id: Id, tx: Tx, replaceKey: bool): Indices<C> {
    var p := tp.getTxPriority(tx);
    var key := Meta(id.nonce, p, id.sender, tp.zeroValue, None);
    Indices(
      Set(PriorityOrder(tp.compare), ix.priorityIndex, key.(element := Some(id.nonce)), tx, replaceKey),
      ix.priorityCounts[p := CountAt(ix.priorityCounts, p) + 1],
      ix.senderIndices[id.sender := Set(NonceOrder<C>(), ListOf(ix.senderIndices, id.sender), key, tx, replaceKey)],
      ix.scores[id := Score(p, tp.zeroValue)])
  }

  /** Insert, after its guards. */
  function Inserted<C>(tp: TxPriority<C>, ix: Indices<C>, id: Id, tx: Tx, replaceKey: bool): Indices<C> {
    Added(tp, Dropped(tp, ix, id), id, tx, replaceKey)
  }

  /** Remove, once the score and the sender's list are found. */
  function Removed<C>(tp: TxPriority<C>, ix: Indices<C>, id: Id): Indices<C>
    requires id in ix.scores
  {
    var score := ix.scores[id];
    var key := ScoredKey(id, score);
    Indices(
      Remove(PriorityOrder(tp.compare), ix.priorityIndex, key),
      ix.priorityCounts[score.priority := CountAt(ix.priorityCounts, score.priority) - 1],
      ix.senderIndices[id.sender := Remove(NonceOrder<C>(), ListOf(ix.senderIndices, id.sender), key)],
      ix.scores - {id})
  }

  // ----- lemmas about one index -----------------------------------------------------------

  lemma {:induction false} CountSplit<C>(a: seq<Node<C>>, b: seq<Node<C>>, p: C)
    ensures CountOf(a + b, p) == CountOf(a, p) + CountOf(b, p)
  {
    if a == [] {
      assert a + b == b;
    } else {
      assert (a + b)[1..] == a[1..] + b;
      CountSplit(a[1..], b, p);
    }
  }

  lemma CountWithout<C>(nodes: seq<Node<C>>, at: nat, p: C)
    requires at < |nodes|
    ensures CountOf(nodes, p)
         == CountOf(nodes[..at] + nodes[at + 1..], p) + if nodes[at].key.priority == p then 1 else 0
  {
    var front, n, back := nodes[..at], nodes[at], nodes[at + 1..];
    assert CountOf([n], p) == if n.key.priority == p then 1 else 0;
    hide CountOf;
    CountSplit(front, [n] + back, p);
    CountSplit([n], back, p);
    CountSplit(front, back, p);
    assert nodes == front + ([n] + back);
  }

  lemma CountWith<C>(nodes: seq<Node<C>>, at: nat, n: Node<C>, p: C)
    requires at <= |nodes|
    ensures CountOf(nodes[..at] + [n] + nodes[at..], p)
         == CountOf(nodes, p) + if n.key.priority == p then 1 else 0
  {
    var front, back := nodes[..at], nodes[at..];
    assert CountOf([n], p) == if n.key.priority == p then 1 else 0;
    hide CountOf;
    CountSplit(front + [n], back, p);
    CountSplit(front, [n], p);
    CountSplit(front, back, p);
    assert nodes == front + back;
  }

  lemma SameRank<C(!new)>(compare: (C, C) -> int, a: Meta<C>, b: Meta<C>)
    requires TotalPreorder(compare)
    ensures PriorityOrder(compare)(a, b) == 0 ==> IdOf(a) == IdOf(b)
    ensures a == b.(element := a.element) ==> PriorityOrder(compare)(a, b) == 0
  {
    assert Antisymmetric(compare, a.priority, a.priority);
    assert Antisymmetric(compare, a.weight, a.weight);
  }

  lemma IndexAdd<C(!new)>(tp: TxPriority<C>, nodes: seq<Node<C>>, m: Contents<C>, id: Id, s: Stored<C>, replaceKey: bool)
    requires TotalPreorder(tp.compare) && IndexAgrees(tp, nodes, m)
    requires id !in m
    ensures IndexAgrees(tp, Set(PriorityOrder(tp.compare), nodes, NodeOf(id, s).key, s.tx, replaceKey), m[id := s])
  {
    var n := NodeOf(id, s);
    IndexFresh(tp, nodes, m, n);
    PriorityOrderIsTotal(tp.compare);
    SetNew(PriorityOrder(tp.compare), nodes, n.key, s.tx, replaceKey);
    var nodes' := Set(PriorityOrder(tp.compare), nodes, n.key, s.tx, replaceKey);
    assert n == Entry(n.key, s.tx);
    var m' := m[id := s];
    forall e ensures NodeAgrees(nodes', m', e) {
      assert NodeAgrees(nodes, m, e);
    }
  }

  lemma IndexFresh<C(!new)>(tp: TxPriority<C>, nodes: seq<Node<C>>, m: Contents<C>, n: Node<C>)
    requires TotalPreorder(tp.compare) && IndexAgrees(tp, nodes, m)
    requires IdOf(n.key) !in m
    ensures forall e :: e in nodes ==> PriorityOrder(tp.compare)(n.key, e.key) != 0
  {
    forall e | e in nodes ensures PriorityOrder(tp.compare)(n.key, e.key) != 0 {
      assert NodeAgrees(nodes, m, e);
      SameRank(tp.compare, n.key, e.key);
    }
  }

  lemma CountAdd<C(!new)>(tp: TxPriority<C>, nodes: seq<Node<C>>, n: Node<C>, replaceKey: bool, p: C)
    requires TotalPreorder(tp.compare) && Sorted(PriorityOrder(tp.compare), nodes)
    requires forall e :: e in nodes ==> PriorityOrder(tp.compare)(n.key, e.key) != 0
    ensures CountOf(Set(PriorityOrder(tp.compare), nodes, n.key, n.value, replaceKey), p)
         == CountOf(nodes, p) + if n.key.priority == p then 1 else 0
  {
    PriorityOrderIsTotal(tp.compare);
    var at := SetFresh(PriorityOrder(tp.compare), nodes, n.key, n.value, replaceKey);
    CountWith(nodes, at, n, p);
  }

  lemma IndexDrop<C(!new)>(tp: TxPriority<C>, nodes: seq<Node<C>>, m: Contents<C>, id: Id)
    requires TotalPreorder(tp.compare) && IndexAgrees(tp, nodes, m)
    requires id in m
    ensures IndexAgrees(tp, Remove(PriorityOrder(tp.compare), nodes, ScoredKey(id, Score(m[id].priority, m[id].weight))), m - {id})
  {
    var n := NodeOf(id, m[id]);
    assert NodeAgrees(nodes, m, n);
    var key := ScoredKey(id, Score(m[id].priority, m[id].weight));
    SameRank(tp.compare, key, n.key);
    PriorityOrderIsTotal(tp.compare);
    RemoveStored(PriorityOrder(tp.compare), nodes, key, n);
    assert (m - {id})[id := m[id]] == m;
    var nodes' := Remove(PriorityOrder(tp.compare), nodes, key);
    forall e ensures NodeAgrees(nodes', m - {id}, e) {
      assert NodeAgrees(nodes, m, e);
    }
  }

  lemma CountDrop<C(!new)>(tp: TxPriority<C>, nodes: seq<Node<C>>, n: Node<C>, key: Meta<C>, p: C)
    requires TotalPreorder(tp.compare) && Sorted(PriorityOrder(tp.compare), nodes)
    requires n in nodes && n.key == key.(element := n.key.element)
    ensures CountOf(nodes, p)
         == CountOf(Remove(PriorityOrder(tp.compare), nodes, key), p) + if n.key.priority == p then 1 else 0
  {
    PriorityOrderIsTotal(tp.compare);
    var at :| 0 <= at < |nodes| && nodes[at] == n;
    SameRank(tp.compare, key, n.key);
    RemovePresent(PriorityOrder(tp.compare), nodes, key, at);
    CountWithout(nodes, at, p);
  }

  /** No sender and nonce is indexed twice. */
  lemma NodesDistinct<C(!new)>(tp: TxPriority<C>, nodes: seq<Node<C>>, m: Contents<C>, i: nat, j: nat)
    requires TotalPreorder(tp.compare) && IndexAgrees(tp, nodes, m)
    requires i < |nodes| && j < |nodes| && i != j
    ensures IdOf(nodes[i].key) != IdOf(nodes[j].key)
  {
    assert nodes[i] in nodes && nodes[j] in nodes;
    assert NodeAgrees(nodes, m, nodes[i]) && NodeAgrees(nodes, m, nodes[j]);
    PriorityOrderIsTotal(tp.compare);
    DifferentEntries(PriorityOrder(tp.compare), nodes, i, j);
  }

  /** Setting an entry of one sender's list. */
  lemma SendersSet<C(!new)>(tp: TxPriority<C>, senders: map<string, seq<Node<C>>>, m: Contents<C>, id: Id, p: C, replaceKey: bool, s: Stored<C>)
    requires SendersAgree(tp, senders, m)
    requires s.listed == if id in m && !replaceKey then m[id].listed else p
    ensures var key := Meta(id.nonce, p, id.sender, tp.zeroValue, None);
            SendersAgree(tp, senders[id.sender := Set(NonceOrder<C>(), ListOf(senders, id.sender), key, s.tx, replaceKey)], m[id := s])
  {
    var key: Meta<C> := Meta(id.nonce, p, id.sender, tp.zeroValue, None);
    var list := ListOf(senders, id.sender);
    assert ListAgrees(tp, list, id.sender, m);
    if id in m { ListReplace(tp, list, m, id, key, replaceKey, s); } else { ListAdd(tp, list, m, id, key, replaceKey, s); }
    OtherSenders(tp, senders, m, id, Set(NonceOrder<C>(), list, key, s.tx, replaceKey), m[id := s]);
  }

  lemma ListReplace<C(!new)>(tp: TxPriority<C>, list: seq<Node<C>>, m: Contents<C>, id: Id, key: Meta<C>, replaceKey: bool, s: Stored<C>)
    requires ListAgrees(tp, list, id.sender, m) && id in m
    requires key == Meta(id.nonce, key.priority, id.sender, tp.zeroValue, None)
    requires s.listed == if replaceKey then key.priority else m[id].listed
    ensures ListAgrees(tp, Set(NonceOrder<C>(), list, key, s.tx, replaceKey), id.sender, m[id := s])
  {
    var list' := Set(NonceOrder<C>(), list, key, s.tx, replaceKey);
    var before := ListedOf(tp, id, m[id]);
    assert EntryAgrees(tp, list, m, id.sender, before);
    NonceOrderIsTotal<C>();
    SetStored(NonceOrder<C>(), list, key, s.tx, replaceKey, before);
    var m' := m[id := s];
    forall e ensures EntryAgrees(tp, list', m', id.sender, e) {
      assert EntryAgrees(tp, list, m, id.sender, e);
    }
  }

  lemma ListAdd<C(!new)>(tp: TxPriority<C>, list: seq<Node<C>>, m: Contents<C>, id: Id, key: Meta<C>, replaceKey: bool, s: Stored<C>)
    requires ListAgrees(tp, list, id.sender, m) && id !in m
    requires key == Meta(id.nonce, s.listed, id.sender, tp.zeroValue, None)
    ensures ListAgrees(tp, Set(NonceOrder<C>(), list, key, s.tx, replaceKey), id.sender, m[id := s])
  {
    var list' := Set(NonceOrder<C>(), list, key, s.tx, replaceKey);
    NonceOrderIsTotal<C>();
    forall e | e in list ensures NonceOrder<C>()(key, e.key) != 0 {
      assert EntryAgrees(tp, list, m, id.sender, e);
    }
    SetNew(NonceOrder<C>(), list, key, s.tx, replaceKey);
    var m' := m[id := s];
    forall e ensures EntryAgrees(tp, list', m', id.sender, e) {
      assert EntryAgrees(tp, list, m, id.sender, e);
    }
  }

  lemma SendersDrop<C(!new)>(tp: TxPriority<C>, senders: map<string, seq<Node<C>>>, m: Contents<C>, id: Id, key: Meta<C>)
    requires SendersAgree(tp, senders, m)
    requires id in m && key.nonce == id.nonce
    ensures SendersAgree(tp, senders[id.sender := Remove(NonceOrder<C>(), ListOf(senders, id.sender), key)], m - {id})
  {
    var list := ListOf(senders, id.sender);
    var list' := Remove(NonceOrder<C>(), list, key);
    var n := ListedOf(tp, id, m[id]);
    assert ListAgrees(tp, list, id.sender, m);
    assert EntryAgrees(tp, list, m, id.sender, n);
    NonceOrderIsTotal<C>();
    RemoveStored(NonceOrder<C>(), list, key, n);
    forall e ensures EntryAgrees(tp, list', m - {id}, id.sender, e) {
      assert EntryAgrees(tp, list, m, id.sender, e);
    }
    OtherSenders(tp, senders, m, id, list', m - {id});
  }

  /** An update of one sender's list leaves every other sender's list alone. */
  lemma OtherSenders<C(!new)>(tp: TxPriority<C>, senders: map<string, seq<Node<C>>>, m: Contents<C>, id: Id, list: seq<Node<C>>, m': Contents<C>)
    requires SendersAgree(tp, senders, m)
    requires ListAgrees(tp, list, id.sender, m')
    requires forall other :: other != id ==> (other in m <==> other in m') && (other in m ==> m[other] == m'[other])
    ensures SendersAgree(tp, senders[id.sender := list], m')
  {
    var senders' := senders[id.sender := list];
    forall s ensures ListAgrees(tp, ListOf(senders', s), s, m') {
      assert ListAgrees(tp, ListOf(senders, s), s, m);
      if s != id.sender {
        forall n ensures EntryAgrees(tp, ListOf(senders', s), m', s, n) {
          assert EntryAgrees(tp, ListOf(senders, s), m, s, n);
        }
      }
    }
  }

  // ----- every update keeps the agreement -------------------------------------------------

  /** What Insert leaves stored under the transaction's sender and nonce. */
  function StoredBy<C>(tp: TxPriority<C>, m: Contents<C>, id: Id, tx: Tx, replaceKey: bool): Stored<C> {
    var p := tp.getTxPriority(tx);
    Stored(tx, p, tp.zeroValue, if id in m && !replaceKey then m[id].listed else p)
  }

  /** Insert stores the transaction under its sender and nonce, in all four indices, and
      leaves every other transaction as it was. */
  lemma InsertedAgrees<C(!new)>(tp: TxPriority<C>, ix: Indices<C>, m: Contents<C>, id: Id, tx: Tx, replaceKey: bool)
    requires TotalPreorder(tp.compare) && Agree(tp, ix, m)
    requires TxId(tx) == Some(id)
    ensures Agree(tp, Inserted(tp, ix, id, tx, replaceKey), m[id := StoredBy(tp, m, id, tx, replaceKey)])
  {
    InsertedNodes(tp, ix, m, id, tx, replaceKey);
    SendersSet(tp, ix.senderIndices, m, id, tp.getTxPriority(tx), replaceKey, StoredBy(tp, m, id, tx, replaceKey));
    InsertedCounts(tp, ix, m, id, tx, replaceKey);
    var ix', m' := Inserted(tp, ix, id, tx, replaceKey), m[id := StoredBy(tp, m, id, tx, replaceKey)];
    forall other ensures ScoreAgrees(ix'.scores, m', other) && NamedAt(tp, m', other) {
      assert ScoreAgrees(ix.scores, m, other) && NamedAt(tp, m, other);
    }
  }

  lemma InsertedNodes<C(!new)>(tp: TxPriority<C>, ix: Indices<C>, m: Contents<C>, id: Id, tx: Tx, replaceKey: bool)
    requires TotalPreorder(tp.compare) && Agree(tp, ix, m)
    ensures IndexAgrees(tp, Inserted(tp, ix, id, tx, replaceKey).priorityIndex, m[id := StoredBy(tp, m, id, tx, replaceKey)])
  {
    var s := StoredBy(tp, m, id, tx, replaceKey);
    assert ScoreAgrees(ix.scores, m, id);
    if id in m {
      IndexDrop(tp, ix.priorityIndex, m, id);
      var nodes := Remove(PriorityOrder(tp.compare), ix.priorityIndex, ScoredKey(id, ix.scores[id]));
      IndexAdd(tp, nodes, m - {id}, id, s, replaceKey);
      assert (m - {id})[id := s] == m[id := s];
    } else {
      IndexAdd(tp, ix.priorityIndex, m, id, s, replaceKey);
    }
  }

  lemma InsertedCounts<C(!new)>(tp: TxPriority<C>, ix: Indices<C>, m: Contents<C>, id: Id, tx: Tx, replaceKey: bool)
    requires TotalPreorder(tp.compare) && Agree(tp, ix, m)
    ensures var ix' := Inserted(tp, ix, id, tx, replaceKey);
            CountsAgree(ix'.priorityCounts, ix'.priorityIndex)
  {
    var ix' := Inserted(tp, ix, id, tx, replaceKey);
    var n := NodeOf(id, StoredBy(tp, m, id, tx, replaceKey));
    var kept := if id in m then m - {id} else m;
    assert ScoreAgrees(ix.scores, m, id);
    var nodes := if id in m then Remove(PriorityOrder(tp.compare), ix.priorityIndex, ScoredKey(id, ix.scores[id]))
                 else ix.priorityIndex;
    if id in m { IndexDrop(tp, ix.priorityIndex, m, id); }
    IndexFresh(tp, nodes, kept, n);
    forall p: C ensures CountAt(ix'.priorityCounts, p) == CountOf(ix'.priorityIndex, p) {
      CountAdd(tp, nodes, n, replaceKey, p);
      if id in m {
        assert NodeAgrees(ix.priorityIndex, m, NodeOf(id, m[id]));
        CountDrop(tp, ix.priorityIndex, NodeOf(id, m[id]), ScoredKey(id, ix.scores[id]), p);
      }
    }
  }

  /** Remove deletes exactly one transaction from all four indices. */
  lemma RemovedAgrees<C(!new)>(tp: TxPriority<C>, ix: Indices<C>, m: Contents<C>, id: Id)
    requires TotalPreorder(tp.compare) && Agree(tp, ix, m)
    requires id in m && ScoreAgrees(ix.scores, m, id)
    ensures Agree(tp, Removed(tp, ix, id), m - {id})
  {
    IndexDrop(tp, ix.priorityIndex, m, id);
    SendersDrop(tp, ix.senderIndices, m, id, ScoredKey(id, ix.scores[id]));
    var ix' := Removed(tp, ix, id);
    forall p: C ensures CountAt(ix'.priorityCounts, p) == CountOf(ix'.priorityIndex, p) {
      assert NodeAgrees(ix.priorityIndex, m, NodeOf(id, m[id]));
      CountDrop(tp, ix.priorityIndex, NodeOf(id, m[id]), ScoredKey(id, ix.scores[id]), p);
    }
    forall other ensures ScoreAgrees(ix'.scores, m - {id}, other) && NamedAt(tp, m - {id}, other) {
      assert ScoreAgrees(ix.scores, m, other) && NamedAt(tp, m, other);
    }
  }
}
