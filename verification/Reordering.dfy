/** Select's first step: re-weighing transactions that share a priority. */
module Reordering {
  import opened Types
  import opened SkipLists
  import opened Ordering
  import opened PriorityIndex

  /** The entry an element pointer leads to: the first one with that nonce, or the list's length. */
  function Position<C>(list: seq<Node<C>>, nonce: uint64): (r: nat)
    ensures r <= |list|
    ensures r < |list| ==> list[r].key.nonce == nonce
  {
    if list == [] || list[0].key.nonce == nonce then 0 else 1 + Position(list[1..], nonce)
  }

  /** The loop of senderWeight from position `i` on. */
  function WeightFrom<C>(compare: (C, C) -> int, list: seq<Node<C>>, i: nat, weight: C): C
    decreases |list| - i
  {
    if i >= |list| then weight
    else
      var p := list[i].key.priority;
      WeightFrom(compare, list, i + 1, if compare(p, weight) != 0 then p else weight)
  }

  function SenderWeight<C>(tp: TxPriority<C>, list: seq<Node<C>>, element: Option<uint64>): C {
    if element.None? then tp.minValue
    else
      var at := Position(list, element.value);
      if at >= |list| then tp.minValue
      else WeightFrom(tp.compare, list, at + 1, list[at].key.priority)
  }

  /** The weight a transaction gets is the priority of its sender's LAST transaction: the loop
      does not stop at the first priority that differs. */
  lemma {:induction false} WeightIsLastPriority<C(!new)>(compare: (C, C) -> int, list: seq<Node<C>>, i: nat, weight: C)
    requires TotalPreorder(compare)
    requires 0 < i <= |list| && compare(weight, list[i - 1].key.priority) == 0
    ensures compare(WeightFrom(compare, list, i, weight), list[|list| - 1].key.priority) == 0
    decreases |list| - i
  {
    if i < |list| {
      var p := list[i].key.priority;
      assert Antisymmetric(compare, p, p);
      assert Antisymmetric(compare, p, weight) && Antisymmetric(compare, weight, p);
      WeightIsLastPriority(compare, list, i + 1, if compare(p, weight) != 0 then p else weight);
    }
  }

  /** The weight as senderWeight's comment describes it: the first later priority that differs. */
  function DocumentedWeight<C>(compare: (C, C) -> int, list: seq<Node<C>>, i: nat, own: C): C
    decreases |list| - i
  {
    if i >= |list| then own
    else if compare(list[i].key.priority, own) != 0 then list[i].key.priority
    else DocumentedWeight(compare, list, i + 1, own)
  }

  /** Exactly when the loop computes what its comment says: when the first differing priority is
      also the priority of the sender's last transaction. */
  lemma WeightMatchesComment<C(!new)>(compare: (C, C) -> int, list: seq<Node<C>>, at: nat)
    requires TotalPreorder(compare) && at < |list|
    ensures var own := list[at].key.priority;
            compare(WeightFrom(compare, list, at + 1, own), DocumentedWeight(compare, list, at + 1, own)) == 0
            <==> compare(DocumentedWeight(compare, list, at + 1, own), list[|list| - 1].key.priority) == 0
  {
    var own := list[at].key.priority;
    var w := WeightFrom(compare, list, at + 1, own);
    var d := DocumentedWeight(compare, list, at + 1, own);
    var last := list[|list| - 1].key.priority;
    assert Antisymmetric(compare, own, own);
    WeightIsLastPriority(compare, list, at + 1, own);
    assert Antisymmetric(compare, w, last) && Antisymmetric(compare, last, w);
    assert Antisymmetric(compare, d, last) && Antisymmetric(compare, last, d);
    assert Antisymmetric(compare, d, w) && Antisymmetric(compare, w, d);
    assert Transitive(compare, w, last, d) && Transitive(compare, d, last, w);
    assert Transitive(compare, d, w, last) && Transitive(compare, last, w, d);
  }

  /** The comment and the loop do differ: priorities 5, 3, 7 give 3 by the comment, 7 by the loop. */
  lemma WeightDiffersFromComment(list: seq<Node<int>>)
    requires |list| == 3
    requires list[0].key.priority == 5 && list[1].key.priority == 3 && list[2].key.priority == 7
    ensures var compare := (a: int, b: int) => a - b;
            && DocumentedWeight(compare, list, 1, 5) == 3
            && WeightFrom(compare, list, 1, 5) == 7
  {
    var compare := (a: int, b: int) => a - b;
    assert WeightFrom(compare, list, 1, 5) == WeightFrom(compare, list, 2, 3);
    assert WeightFrom(compare, list, 2, 3) == WeightFrom(compare, list, 3, 7);
  }

  // ----- reorderPriorityTies --------------------------------------------------------------

  datatype ReorderKey<+C> = ReorderKey(deleteKey: Meta<C>, insertKey: Meta<C>, tx: Tx)

  function TieOf<C>(tp: TxPriority<C>, senders: map<string, seq<Node<C>>>, n: Node<C>): ReorderKey<C> {
    ReorderKey(n.key, n.key.(weight := SenderWeight(tp, ListOf(senders, n.key.sender), n.key.element)), n.value)
  }

  /** The first loop: the nodes from position `i` on whose priority is shared, with their new keys. */
  function TiesFrom<C>(tp: TxPriority<C>, ix: Indices<C>, i: nat): seq<ReorderKey<C>>
    decreases |ix.priorityIndex| - i
  {
    if i >= |ix.priorityIndex| then []
    else
      var n := ix.priorityIndex[i];
      (if CountAt(ix.priorityCounts, n.key.priority) > 1 then [TieOf(tp, ix.senderIndices, n)] else [])
      + TiesFrom(tp, ix, i + 1)
  }

  /** One step of the second loop. */
  function ApplyTie<C>(tp: TxPriority<C>, ix: Indices<C>, k: ReorderKey<C>): Indices<C> {
    ix.(priorityIndex := Set(PriorityOrder(tp.compare),
                             Remove(PriorityOrder(tp.compare), ix.priorityIndex, k.deleteKey),
                             k.insertKey, k.tx, true),
        scores := (ix.scores - {IdOf(k.deleteKey)})[IdOf(k.insertKey) := Score(k.insertKey.priority, k.insertKey.weight)])
  }

  function ApplyTies<C>(tp: TxPriority<C>, ix: Indices<C>, ks: seq<ReorderKey<C>>): Indices<C>
    decreases |ks|
  {
    if ks == [] then ix else ApplyTies(tp, ApplyTie(tp, ix, ks[0]), ks[1..])
  }

  function Reordered<C>(tp: TxPriority<C>, ix: Indices<C>): Indices<C> {
    ApplyTies(tp, ix, TiesFrom(tp, ix, 0))
  }

  // ----- what re-weighing leaves stored ---------------------------------------------------

  function Reweigh<C>(tp: TxPriority<C>, ix: Indices<C>, id: Id, s: Stored<C>): Stored<C> {
    if CountAt(ix.priorityCounts, s.priority) > 1
    then s.(weight := SenderWeight(tp, ListOf(ix.senderIndices, id.sender), Some(id.nonce)))
    else s
  }

  /** The contents after Select: the same transactions, priorities and lists; only a transaction
      that shares its priority has a new weight. */
  function Reweighed<C>(tp: TxPriority<C>, ix: Indices<C>, m: Contents<C>): Contents<C> {
    map id | id in m :: Reweigh(tp, ix, id, m[id])
  }

  function ReweighedUpTo<C>(tp: TxPriority<C>, ix: Indices<C>, m: Contents<C>, i: nat): Contents<C>
    requires i <= |ix.priorityIndex|
  {
    map id | id in m :: if NodeOf(id, m[id]) in ix.priorityIndex[..i] then Reweigh(tp, ix, id, m[id]) else m[id]
  }

  /** Re-weighing one node keeps all four indices in agreement. */
  lemma ApplyTieAgrees<C(!new)>(tp: TxPriority<C>, ix: Indices<C>, m: Contents<C>, id: Id, w: C)
    requires TotalPreorder(tp.compare) && Agree(tp, ix, m) && id in m
    ensures var n := NodeOf(id, m[id]);
            Agree(tp, ApplyTie(tp, ix, ReorderKey(n.key, n.key.(weight := w), n.value)), m[id := m[id].(weight := w)])
  {
    var n := NodeOf(id, m[id]);
    var s := m[id].(weight := w);
    var m' := m[id := s];
    var ix' := ApplyTie(tp, ix, ReorderKey(n.key, n.key.(weight := w), n.value));
    DropNode(tp, ix.priorityIndex, m, id);
    IndexAdd(tp, Remove(PriorityOrder(tp.compare), ix.priorityIndex, n.key), m - {id}, id, s, true);
    assert (m - {id})[id := s] == m';
    TieKeepsCounts(tp, ix, m, id, s);
    SameLists(tp, ix.senderIndices, m, m');
    forall other ensures ScoreAgrees(ix'.scores, m', other) && NamedAt(tp, m', other) {
      assert ScoreAgrees(ix.scores, m, other) && NamedAt(tp, m, other);
    }
  }

  lemma TieKeepsCounts<C(!new)>(tp: TxPriority<C>, ix: Indices<C>, m: Contents<C>, id: Id, s: Stored<C>)
    requires TotalPreorder(tp.compare) && IndexAgrees(tp, ix.priorityIndex, m)
    requires CountsAgree(ix.priorityCounts, ix.priorityIndex)
    requires id in m && s == m[id].(weight := s.weight)
    ensures var nodes := Remove(PriorityOrder(tp.compare), ix.priorityIndex, NodeOf(id, m[id]).key);
            CountsAgree(ix.priorityCounts, Set(PriorityOrder(tp.compare), nodes, NodeOf(id, s).key, s.tx, true))
  {
    var n := NodeOf(id, m[id]);
    assert NodeAgrees(ix.priorityIndex, m, n);
    DropNode(tp, ix.priorityIndex, m, id);
    var nodes := Remove(PriorityOrder(tp.compare), ix.priorityIndex, n.key);
    IndexFresh(tp, nodes, m - {id}, NodeOf(id, s));
    forall p: C ensures CountAt(ix.priorityCounts, p) == CountOf(Set(PriorityOrder(tp.compare), nodes, NodeOf(id, s).key, s.tx, true), p) {
      CountDrop(tp, ix.priorityIndex, n, n.key, p);
      CountAdd(tp, nodes, NodeOf(id, s), true, p);
    }
  }

  lemma DropNode<C(!new)>(tp: TxPriority<C>, nodes: seq<Node<C>>, m: Contents<C>, id: Id)
    requires TotalPreorder(tp.compare) && IndexAgrees(tp, nodes, m) && id in m
    ensures IndexAgrees(tp, Remove(PriorityOrder(tp.compare), nodes, NodeOf(id, m[id]).key), m - {id})
  {
    IndexDrop(tp, nodes, m, id);
    SameRemoval(PriorityOrder(tp.compare), nodes, NodeOf(id, m[id]).key, ScoredKey(id, Score(m[id].priority, m[id].weight)));
  }

  lemma {:induction false} SameRemoval<K, V>(cmp: (K, K) -> int, l: seq<Entry<K, V>>, a: K, b: K)
    requires forall k :: k in l ==> (cmp(a, k.key) == 0 <==> cmp(b, k.key) == 0)
    ensures Remove(cmp, l, a) == Remove(cmp, l, b)
  {
    if l != [] {
      assert l[0] in l;
      SameRemoval(cmp, l[1..], a, b);
    }
  }

  lemma SameLists<C(!new)>(tp: TxPriority<C>, senders: map<string, seq<Node<C>>>, m: Contents<C>, m': Contents<C>)
    requires SendersAgree(tp, senders, m)
    requires m.Keys == m'.Keys
    requires forall id :: id in m ==> m'[id].tx == m[id].tx && m'[id].listed == m[id].listed
    ensures SendersAgree(tp, senders, m')
  {
    forall s ensures ListAgrees(tp, ListOf(senders, s), s, m') {
      assert ListAgrees(tp, ListOf(senders, s), s, m);
      forall n ensures EntryAgrees(tp, ListOf(senders, s), m', s, n) {
        assert EntryAgrees(tp, ListOf(senders, s), m, s, n);
      }
    }
  }

  /** reorderPriorityTies keeps the agreement, and gives every transaction that shares its
      priority the weight of its own place in its sender's list. */
  lemma ReorderedAgrees<C(!new)>(tp: TxPriority<C>, ix: Indices<C>, m: Contents<C>)
    requires TotalPreorder(tp.compare) && Agree(tp, ix, m)
    ensures Agree(tp, Reordered(tp, ix), Reweighed(tp, ix, m))
    ensures Reordered(tp, ix).senderIndices == ix.senderIndices
    ensures Reordered(tp, ix).priorityCounts == ix.priorityCounts
  {
    assert ReweighedUpTo(tp, ix, m, 0) == m;
    TiesAgree(tp, ix, m, ix, 0);
  }

  lemma {:induction false} TiesAgree<C(!new)>(tp: TxPriority<C>, ix: Indices<C>, m: Contents<C>, now: Indices<C>, i: nat)
    requires TotalPreorder(tp.compare) && Agree(tp, ix, m) && i <= |ix.priorityIndex|
    requires Agree(tp, now, ReweighedUpTo(tp, ix, m, i))
    requires now.senderIndices == ix.senderIndices && now.priorityCounts == ix.priorityCounts
    ensures Agree(tp, ApplyTies(tp, now, TiesFrom(tp, ix, i)), Reweighed(tp, ix, m))
    ensures ApplyTies(tp, now, TiesFrom(tp, ix, i)).senderIndices == ix.senderIndices
    ensures ApplyTies(tp, now, TiesFrom(tp, ix, i)).priorityCounts == ix.priorityCounts
    decreases |ix.priorityIndex| - i
  {
    if i == |ix.priorityIndex| {
      AllReweighed(tp, ix, m);
    } else {
      var n := ix.priorityIndex[i];
      ReweighNext(tp, ix, m, i);
      var id := IdOf(n.key);
      if CountAt(ix.priorityCounts, n.key.priority) > 1 {
        var k := TieOf(tp, ix.senderIndices, n);
        assert TiesFrom(tp, ix, i) == [k] + TiesFrom(tp, ix, i + 1);
        assert ([k] + TiesFrom(tp, ix, i + 1))[1..] == TiesFrom(tp, ix, i + 1);
        ApplyTieAgrees(tp, now, ReweighedUpTo(tp, ix, m, i), id, k.insertKey.weight);
        TiesAgree(tp, ix, m, ApplyTie(tp, now, k), i + 1);
      } else {
        assert TiesFrom(tp, ix, i) == TiesFrom(tp, ix, i + 1);
        var upTo := ReweighedUpTo(tp, ix, m, i);
        assert upTo[id := upTo[id]] == upTo;
        TiesAgree(tp, ix, m, now, i + 1);
      }
    }
  }

  lemma NodeOfStored<C(!new)>(m: Contents<C>, id: Id)
    requires id in m
    ensures IsNode(m, NodeOf(id, m[id]))
  {
  }

  lemma AllReweighed<C(!new)>(tp: TxPriority<C>, ix: Indices<C>, m: Contents<C>)
    requires Agree(tp, ix, m)
    ensures ReweighedUpTo(tp, ix, m, |ix.priorityIndex|) == Reweighed(tp, ix, m)
  {
    assert ix.priorityIndex[..|ix.priorityIndex|] == ix.priorityIndex;
    hide SendersAgree, CountsAgree, ScoresAgree, Named, Reweigh, Sorted, IsNode;
    forall id | id in m ensures NodeOf(id, m[id]) in ix.priorityIndex {
      NodeOfStored(m, id);
      assert NodeAgrees(ix.priorityIndex, m, NodeOf(id, m[id]));
    }
  }

  /** The node at position `i` is the next to be re-weighed, and has not been touched yet. */
  lemma ReweighNext<C(!new)>(tp: TxPriority<C>, ix: Indices<C>, m: Contents<C>, i: nat)
    requires TotalPreorder(tp.compare) && Agree(tp, ix, m) && i < |ix.priorityIndex|
    ensures var n := ix.priorityIndex[i];
            var id := IdOf(n.key);
            && id in m && n == NodeOf(id, m[id])
            && ReweighedUpTo(tp, ix, m, i)[id] == m[id]
            && ReweighedUpTo(tp, ix, m, i + 1) == ReweighedUpTo(tp, ix, m, i)[id := Reweigh(tp, ix, id, m[id])]
  {
    var nodes := ix.priorityIndex;
    var n := nodes[i];
    var id := IdOf(n.key);
    assert n in nodes;
    assert NodeAgrees(nodes, m, n);
    if n in nodes[..i] {
      var j :| 0 <= j < i && nodes[j] == n;
      NodesDistinct(tp, nodes, m, j, i);
      assert false;
    }
    assert nodes[..i + 1] == nodes[..i] + [n];
    forall other | other in m && other != id
      ensures NodeOf(other, m[other]) in nodes[..i + 1] <==> NodeOf(other, m[other]) in nodes[..i]
    {
      assert IdOf(NodeOf(other, m[other]).key) == other;
    }
  }
}
