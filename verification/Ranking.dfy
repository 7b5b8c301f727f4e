/** Comparisons that rank only some values. The mempool behaves as under a total preorder as long as
    its comparison is one on the priorities that occur in it. */
module Ranking {
  import opened Types
  import opened SkipLists
  import opened Ordering
  import opened PriorityIndex
  import opened Reordering
  import opened Iteration

  /** The comparison is a total preorder on these values. */
  ghost predicate PreorderOn<K(!new)>(cmp: (K, K) -> int, dom: iset<K>) {
    && (forall a, b :: a in dom && b in dom ==> Antisymmetric(cmp, a, b))
    && (forall a, b, c :: a in dom && b in dom && c in dom ==> Transitive(cmp, a, b, c))
  }

  lemma FewerRank<K(!new)>(cmp: (K, K) -> int, dom: iset<K>, fewer: iset<K>)
    requires PreorderOn(cmp, dom) && fewer <= dom
    ensures PreorderOn(cmp, fewer)
  {
  }

  /** A value outside the domain counts as the zero value. */
  ghost function Into<C(!new)>(dom: iset<C>, zero: C, c: C): C {
    if c in dom then c else zero
  }

  /** The same ranking on the domain, extended to a total preorder. */
  ghost function Tamed<C(!new)>(tp: TxPriority<C>, dom: iset<C>): TxPriority<C> {
    TxPriority(tp.getTxPriority, TamedCompare(tp, dom), tp.minValue, tp.zeroValue)
  }

  ghost function TamedCompare<C(!new)>(tp: TxPriority<C>, dom: iset<C>): (C, C) -> int {
    (a: C, b: C) => tp.compare(Into(dom, tp.zeroValue, a), Into(dom, tp.zeroValue, b))
  }

  lemma TamedIsTotal<C(!new)>(tp: TxPriority<C>, dom: iset<C>)
    requires PreorderOn(tp.compare, dom) && tp.zeroValue in dom
    ensures TotalPreorder(Tamed(tp, dom).compare)
  {
    var cmp := Tamed(tp, dom).compare;
    forall a, b ensures Antisymmetric(cmp, a, b) {
      assert Antisymmetric(tp.compare, Into(dom, tp.zeroValue, a), Into(dom, tp.zeroValue, b));
    }
    forall a, b, c ensures Transitive(cmp, a, b, c) {
      assert Transitive(tp.compare, Into(dom, tp.zeroValue, a), Into(dom, tp.zeroValue, b), Into(dom, tp.zeroValue, c));
    }
  }

  // ----- the values that occur ----------------------------------------------------------------

  ghost predicate Occurs<C(!new)>(tp: TxPriority<C>, m: Contents<C>, c: C) {
    c == tp.zeroValue || c == tp.minValue || exists id :: id in m && (c == m[id].priority || c == m[id].weight || c == m[id].listed)
  }

  /** The priorities that occur in a pool: those stored, as priority, weight or key, with the zero and
      the minimal value. */
  ghost function Occurring<C(!new)>(tp: TxPriority<C>, m: Contents<C>): iset<C> {
    iset c | Occurs(tp, m, c)
  }

  ghost predicate NodesWithin<C(!new)>(dom: iset<C>, nodes: seq<Node<C>>) {
    forall n :: n in nodes ==> n.key.priority in dom && n.key.weight in dom
  }

  ghost predicate ScoresWithin<C(!new)>(dom: iset<C>, scores: map<Id, Score<C>>) {
    forall id :: id in scores ==> scores[id].priority in dom && scores[id].weight in dom
  }

  ghost predicate ListsWithin<C(!new)>(dom: iset<C>, senders: map<string, seq<Node<C>>>) {
    forall s :: NodesWithin(dom, ListOf(senders, s))
  }

  ghost predicate Within<C(!new)>(tp: TxPriority<C>, dom: iset<C>, ix: Indices<C>) {
    && tp.zeroValue in dom && tp.minValue in dom
    && NodesWithin(dom, ix.priorityIndex) && ListsWithin(dom, ix.senderIndices) && ScoresWithin(dom, ix.scores)
  }

  lemma AgreedWithin<C(!new)>(tp: TxPriority<C>, ix: Indices<C>, m: Contents<C>, dom: iset<C>)
    requires Agree(tp, ix, m) && Occurring(tp, m) <= dom
    ensures Within(tp, dom, ix)
  {
    assert Occurs(tp, m, tp.zeroValue) && Occurs(tp, m, tp.minValue);
    forall n | n in ix.priorityIndex ensures n.key.priority in dom && n.key.weight in dom {
      assert NodeAgrees(ix.priorityIndex, m, n);
      assert Occurs(tp, m, n.key.priority) && Occurs(tp, m, n.key.weight);
    }
    forall s ensures NodesWithin(dom, ListOf(ix.senderIndices, s)) {
      var list := ListOf(ix.senderIndices, s);
      forall n | n in list ensures n.key.priority in dom && n.key.weight in dom {
        assert ListAgrees(tp, list, s, m);
        assert EntryAgrees(tp, list, m, s, n);
        assert Occurs(tp, m, n.key.priority) && Occurs(tp, m, n.key.weight);
      }
    }
    forall id | id in ix.scores ensures ix.scores[id].priority in dom && ix.scores[id].weight in dom {
      assert ScoreAgrees(ix.scores, m, id);
      assert Occurs(tp, m, m[id].priority) && Occurs(tp, m, m[id].weight);
    }
  }

  // ----- the same lists -----------------------------------------------------------------------

  lemma {:induction false} SameSet<K, V>(f: (K, K) -> int, g: (K, K) -> int, l: seq<Entry<K, V>>, key: K, value: V, replaceKey: bool)
    requires forall e :: e in l ==> f(key, e.key) == g(key, e.key)
    ensures Set(f, l, key, value, replaceKey) == Set(g, l, key, value, replaceKey)
  {
    if l != [] {
      assert l[0] in l;
      SameSet(f, g, l[1..], key, value, replaceKey);
    }
  }

  lemma {:induction false} SameRemove<K, V>(f: (K, K) -> int, g: (K, K) -> int, l: seq<Entry<K, V>>, key: K)
    requires forall e :: e in l ==> f(key, e.key) == g(key, e.key)
    ensures Remove(f, l, key) == Remove(g, l, key)
  {
    if l != [] {
      assert l[0] in l;
      SameRemove(f, g, l[1..], key);
    }
  }

  lemma SameCompare<C(!new)>(tp: TxPriority<C>, dom: iset<C>, a: C, b: C)
    requires a in dom && b in dom
    ensures Tamed(tp, dom).compare(a, b) == tp.compare(a, b)
  {
    assert Into(dom, tp.zeroValue, a) == a && Into(dom, tp.zeroValue, b) == b;
    assert Tamed(tp, dom).compare(a, b) == TamedCompare(tp, dom)(a, b);
  }

  /** Keys within the domain are ordered the same. */
  lemma SameOrder<C(!new)>(tp: TxPriority<C>, dom: iset<C>, a: Meta<C>, b: Meta<C>)
    requires a.priority in dom && a.weight in dom && b.priority in dom && b.weight in dom
    ensures PriorityOrder(tp.compare)(a, b) == PriorityOrder(Tamed(tp, dom).compare)(a, b)
  {
    SameCompare(tp, dom, b.priority, a.priority);
    SameCompare(tp, dom, b.weight, a.weight);
    hide Tamed;
    assert Rank(tp.compare, b, a) == Rank(Tamed(tp, dom).compare, b, a);
  }

  lemma SameNodes<C(!new)>(tp: TxPriority<C>, dom: iset<C>, nodes: seq<Node<C>>, key: Meta<C>, tx: Tx, replaceKey: bool)
    requires NodesWithin(dom, nodes) && key.priority in dom && key.weight in dom
    ensures var f, g := PriorityOrder(tp.compare), PriorityOrder(Tamed(tp, dom).compare);
            && Set(f, nodes, key, tx, replaceKey) == Set(g, nodes, key, tx, replaceKey)
            && Remove(f, nodes, key) == Remove(g, nodes, key)
            && NodesWithin(dom, Set(f, nodes, key, tx, replaceKey)) && NodesWithin(dom, Remove(f, nodes, key))
  {
    var f, g := PriorityOrder(tp.compare), PriorityOrder(Tamed(tp, dom).compare);
    forall e | e in nodes ensures f(key, e.key) == g(key, e.key) {
      SameOrder(tp, dom, key, e.key);
    }
    SameSet(f, g, nodes, key, tx, replaceKey);
    SameRemove(f, g, nodes, key);
    StaysWithin(f, dom, nodes, key, tx, replaceKey);
  }

  lemma {:induction false} StaysWithin<C(!new)>(f: (Meta<C>, Meta<C>) -> int, dom: iset<C>, nodes: seq<Node<C>>, key: Meta<C>, tx: Tx, replaceKey: bool)
    requires NodesWithin(dom, nodes) && key.priority in dom && key.weight in dom
    ensures NodesWithin(dom, Set(f, nodes, key, tx, replaceKey)) && NodesWithin(dom, Remove(f, nodes, key))
  {
    if nodes != [] {
      assert nodes[0] in nodes;
      assert NodesWithin(dom, nodes[1..]);
      StaysWithin(f, dom, nodes[1..], key, tx, replaceKey);
    }
  }

  lemma SameSorted<C(!new)>(tp: TxPriority<C>, dom: iset<C>, nodes: seq<Node<C>>)
    requires NodesWithin(dom, nodes)
    ensures Sorted(PriorityOrder(tp.compare), nodes) <==> Sorted(PriorityOrder(Tamed(tp, dom).compare), nodes)
  {
    forall i, j | 0 <= i < j < |nodes|
      ensures PriorityOrder(tp.compare)(nodes[i].key, nodes[j].key) == PriorityOrder(Tamed(tp, dom).compare)(nodes[i].key, nodes[j].key)
    {
      assert nodes[i] in nodes && nodes[j] in nodes;
      SameOrder(tp, dom, nodes[i].key, nodes[j].key);
    }
  }

  lemma SameAgree<C(!new)>(tp: TxPriority<C>, dom: iset<C>, ix: Indices<C>, m: Contents<C>)
    requires Within(tp, dom, ix)
    ensures Agree(tp, ix, m) <==> Agree(Tamed(tp, dom), ix, m)
  {
    SameSorted(tp, dom, ix.priorityIndex);
    var t := Tamed(tp, dom);
    forall s ensures ListAgrees(tp, ListOf(ix.senderIndices, s), s, m) <==> ListAgrees(t, ListOf(ix.senderIndices, s), s, m) {
      forall n ensures EntryAgrees(tp, ListOf(ix.senderIndices, s), m, s, n) <==> EntryAgrees(t, ListOf(ix.senderIndices, s), m, s, n) {
      }
    }
    forall id ensures NamedAt(tp, m, id) <==> NamedAt(t, m, id) {
    }
  }

  // ----- the same operations --------------------------------------------------------------------

  lemma {:induction false} SameWeightFrom<C(!new)>(tp: TxPriority<C>, dom: iset<C>, list: seq<Node<C>>, i: nat, weight: C)
    requires NodesWithin(dom, list) && weight in dom
    ensures WeightFrom(tp.compare, list, i, weight) == WeightFrom(Tamed(tp, dom).compare, list, i, weight)
    ensures WeightFrom(tp.compare, list, i, weight) in dom
    decreases |list| - i
  {
    if i < |list| {
      var p := list[i].key.priority;
      assert list[i] in list;
      SameCompare(tp, dom, p, weight);
      SameWeightFrom(tp, dom, list, i + 1, if tp.compare(p, weight) != 0 then p else weight);
    }
  }

  lemma SameWeight<C(!new)>(tp: TxPriority<C>, dom: iset<C>, list: seq<Node<C>>, element: Option<uint64>)
    requires NodesWithin(dom, list) && tp.minValue in dom
    ensures SenderWeight(tp, list, element) == SenderWeight(Tamed(tp, dom), list, element)
    ensures SenderWeight(tp, list, element) in dom
  {
    if element.Some? {
      var at := Position(list, element.value);
      if at < |list| {
        assert list[at] in list;
        SameWeightFrom(tp, dom, list, at + 1, list[at].key.priority);
      }
    }
  }

  ghost predicate TiesWithin<C(!new)>(dom: iset<C>, ks: seq<ReorderKey<C>>) {
    forall k :: k in ks ==> k.deleteKey.priority in dom && k.deleteKey.weight in dom && k.insertKey.priority in dom && k.insertKey.weight in dom
  }

  lemma {:induction false} SameTies<C(!new)>(tp: TxPriority<C>, dom: iset<C>, ix: Indices<C>, i: nat)
    requires Within(tp, dom, ix)
    ensures TiesFrom(tp, ix, i) == TiesFrom(Tamed(tp, dom), ix, i) && TiesWithin(dom, TiesFrom(tp, ix, i))
    decreases |ix.priorityIndex| - i
  {
    if i < |ix.priorityIndex| {
      var n := ix.priorityIndex[i];
      assert n in ix.priorityIndex;
      SameWeight(tp, dom, ListOf(ix.senderIndices, n.key.sender), n.key.element);
      SameTies(tp, dom, ix, i + 1);
    }
  }

  lemma SameTie<C(!new)>(tp: TxPriority<C>, dom: iset<C>, ix: Indices<C>, k: ReorderKey<C>)
    requires Within(tp, dom, ix) && TiesWithin(dom, [k])
    ensures ApplyTie(tp, ix, k) == ApplyTie(Tamed(tp, dom), ix, k) && Within(tp, dom, ApplyTie(tp, ix, k))
  {
    assert k in [k];
    SameNodes(tp, dom, ix.priorityIndex, k.deleteKey, k.tx, true);
    SameNodes(tp, dom, Remove(PriorityOrder(tp.compare), ix.priorityIndex, k.deleteKey), k.insertKey, k.tx, true);
    hide Tamed, PriorityOrder, Set, Remove, NodesWithin, ListsWithin;
  }

  lemma {:induction false} SameReorder<C(!new)>(tp: TxPriority<C>, dom: iset<C>, ix: Indices<C>, ks: seq<ReorderKey<C>>)
    requires Within(tp, dom, ix) && TiesWithin(dom, ks)
    ensures ApplyTies(tp, ix, ks) == ApplyTies(Tamed(tp, dom), ix, ks) && Within(tp, dom, ApplyTies(tp, ix, ks))
    decreases |ks|
  {
    hide Within, Tamed;
    if ks != [] {
      assert ks[0] in ks;
      SameTie(tp, dom, ix, ks[0]);
      SameReorder(tp, dom, ApplyTie(tp, ix, ks[0]), ks[1..]);
    }
  }

  lemma SameReordered<C(!new)>(tp: TxPriority<C>, dom: iset<C>, ix: Indices<C>)
    requires Within(tp, dom, ix)
    ensures Reordered(tp, ix) == Reordered(Tamed(tp, dom), ix) && Within(tp, dom, Reordered(tp, ix))
  {
    SameTies(tp, dom, ix, 0);
    SameReorder(tp, dom, ix, TiesFrom(tp, ix, 0));
  }

  lemma SameReweighed<C(!new)>(tp: TxPriority<C>, dom: iset<C>, ix: Indices<C>, m: Contents<C>)
    requires Within(tp, dom, ix)
    ensures Reweighed(tp, ix, m) == Reweighed(Tamed(tp, dom), ix, m)
    ensures Occurring(tp, m) <= dom ==> Occurring(tp, Reweighed(tp, ix, m)) <= dom
  {
    forall id | id in m
      ensures Reweigh(tp, ix, id, m[id]) == Reweigh(Tamed(tp, dom), ix, id, m[id])
      ensures Reweigh(tp, ix, id, m[id]).weight in dom || Reweigh(tp, ix, id, m[id]) == m[id]
    {
      SameWeight(tp, dom, ListOf(ix.senderIndices, id.sender), Some(id.nonce));
    }
    hide Reweigh;
    if Occurring(tp, m) <= dom {
      var m' := Reweighed(tp, ix, m);
      forall c | Occurs(tp, m', c) ensures c in dom {
        if c != tp.zeroValue && c != tp.minValue {
          var id :| id in m' && (c == m'[id].priority || c == m'[id].weight || c == m'[id].listed);
          ReweighKeeps(tp, ix, id, m[id]);
          if c != m'[id].weight { assert Occurs(tp, m, c); }
          assert Occurs(tp, m, m[id].weight);
        }
      }
    }
  }

  lemma ReweighKeeps<C(!new)>(tp: TxPriority<C>, ix: Indices<C>, id: Id, s: Stored<C>)
    ensures Reweigh(tp, ix, id, s) == s.(weight := Reweigh(tp, ix, id, s).weight)
  {
  }

  lemma SameInserted<C(!new)>(tp: TxPriority<C>, dom: iset<C>, ix: Indices<C>, id: Id, tx: Tx, replaceKey: bool)
    requires Within(tp, dom, ix) && tp.getTxPriority(tx) in dom
    ensures Inserted(tp, ix, id, tx, replaceKey) == Inserted(Tamed(tp, dom), ix, id, tx, replaceKey)
  {
    var f := PriorityOrder(tp.compare);
    var kept := Dropped(tp, ix, id).priorityIndex;
    if id in ix.scores { SameNodes(tp, dom, ix.priorityIndex, ScoredKey(id, ix.scores[id]), tx, replaceKey); }
    var key := Meta(id.nonce, tp.getTxPriority(tx), id.sender, tp.zeroValue, Some(id.nonce));
    SameNodes(tp, dom, kept, key, tx, replaceKey);
    hide PriorityOrder, Set, Remove, NodesWithin, ListsWithin;
  }

  lemma SameRemoved<C(!new)>(tp: TxPriority<C>, dom: iset<C>, ix: Indices<C>, id: Id, tx: Tx)
    requires Within(tp, dom, ix) && id in ix.scores
    ensures Removed(tp, ix, id) == Removed(Tamed(tp, dom), ix, id)
  {
    SameNodes(tp, dom, ix.priorityIndex, ScoredKey(id, ix.scores[id]), tx, true);
    hide PriorityOrder, Set, Remove, NodesWithin, ListsWithin;
  }

  // ----- the same iteration ---------------------------------------------------------------------

  lemma SameBlocked<C(!new)>(tp: TxPriority<C>, dom: iset<C>, ix: Indices<C>, k: nat, key: Meta<C>)
    requires Within(tp, dom, ix) && key.priority in dom
    ensures Blocked(tp, ix, k, key) == Blocked(Tamed(tp, dom), ix, k, key)
  {
    if k + 1 < |ix.priorityIndex| {
      var next := ix.priorityIndex[k + 1];
      assert next in ix.priorityIndex;
      SameCompare(tp, dom, key.priority, next.key.priority);
      SameCompare(tp, dom, WeightOf(tp, ix, IdOf(key)), next.key.weight);
    }
  }

  lemma {:induction false} SameEmit<C(!new)>(tp: TxPriority<C>, dom: iset<C>, ix: Indices<C>, k: nat, cursors: map<string, nat>)
    requires Within(tp, dom, ix)
    ensures Emit(tp, ix, k, cursors) == Emit(Tamed(tp, dom), ix, k, cursors)
    decreases |ix.priorityIndex| - k,
              if k < |ix.priorityIndex|
              then |ListOf(ix.senderIndices, ix.priorityIndex[k].key.sender)| - Returned(cursors, ix.priorityIndex[k].key.sender)
              else 0
  {
    hide Tamed, Blocked;
    if k < |ix.priorityIndex| {
      var sender := ix.priorityIndex[k].key.sender;
      var list := ListOf(ix.senderIndices, sender);
      var at := Returned(cursors, sender);
      if at < |list| {
        assert NodesWithin(dom, list) && list[at] in list;
        SameBlocked(tp, dom, ix, k, list[at].key);
      }
      if at >= |list| || Blocked(tp, ix, k, list[at].key) {
        SameEmit(tp, dom, ix, k + 1, cursors);
      } else {
        SameEmit(tp, dom, ix, k, cursors[sender := at + 1]);
      }
    }
  }

  /** A ranking that is a total preorder on the priorities that occur selects as its extension does. */
  lemma SameSelection<C(!new)>(tp: TxPriority<C>, dom: iset<C>, ix: Indices<C>)
    requires Within(tp, dom, ix)
    ensures Selection(tp, ix) == Selection(Tamed(tp, dom), ix)
  {
    SameReordered(tp, dom, ix);
    SameEmit(tp, dom, Reordered(tp, ix), 0, map[]);
  }

  // ----- the promises of the iteration, on the priorities that occur -----------------------------

  /** The ranking is a total preorder on what occurs in the pool. */
  ghost predicate Ranked<C(!new)>(tp: TxPriority<C>, m: Contents<C>) {
    PreorderOn(tp.compare, Occurring(tp, m))
  }

  /** What a pool looks like to the extended ranking. */
  lemma Extend<C(!new)>(tp: TxPriority<C>, ix: Indices<C>, m: Contents<C>, dom: iset<C>)
    requires PreorderOn(tp.compare, dom) && Agree(tp, ix, m) && Occurring(tp, m) <= dom
    ensures TotalPreorder(Tamed(tp, dom).compare) && Agree(Tamed(tp, dom), ix, m) && Within(tp, dom, ix)
  {
    AgreedWithin(tp, ix, m, dom);
    TamedIsTotal(tp, dom);
    SameAgree(tp, dom, ix, m);
  }

  /** Re-weighing keeps the indices in agreement and brings in no new priority. */
  lemma ReorderedRanked<C(!new)>(tp: TxPriority<C>, ix: Indices<C>, m: Contents<C>)
    requires Ranked(tp, m) && Agree(tp, ix, m)
    ensures Agree(tp, Reordered(tp, ix), Reweighed(tp, ix, m)) && Occurring(tp, Reweighed(tp, ix, m)) <= Occurring(tp, m)
    ensures Reordered(tp, ix).senderIndices == ix.senderIndices
  {
    var dom := Occurring(tp, m);
    Extend(tp, ix, m, dom);
    ReorderedAgrees(Tamed(tp, dom), ix, m);
    SameReordered(tp, dom, ix);
    SameReweighed(tp, dom, ix, m);
    SameAgree(tp, dom, Reordered(tp, ix), Reweighed(tp, ix, m));
  }

  /** Each stored transaction is selected exactly once, one sender's in nonce order. */
  lemma RankedSelectionOnce<C(!new)>(tp: TxPriority<C>, ix: Indices<C>, m: Contents<C>)
    requires Ranked(tp, m) && Agree(tp, ix, m) && Current(m)
    ensures var r := Selection(tp, ix);
            && (forall n :: n in r <==> IsListed(tp, m, n.key.sender, n))
            && (forall i, j :: 0 <= i < j < |r| && r[i].key.sender == r[j].key.sender ==> r[i].key.nonce < r[j].key.nonce)
  {
    var dom := Occurring(tp, m);
    Extend(tp, ix, m, dom);
    SelectionOnce(Tamed(tp, dom), ix, m);
    SameSelection(tp, dom, ix);
    hide Tamed, Agree, Within, Selection;
    forall n: Node<C> ensures IsListed(tp, m, n.key.sender, n) <==> IsListed(Tamed(tp, dom), m, n.key.sender, n) {
      SameZero(tp, dom);
    }
  }

  lemma SameZero<C(!new)>(tp: TxPriority<C>, dom: iset<C>)
    ensures Tamed(tp, dom).zeroValue == tp.zeroValue && Tamed(tp, dom).getTxPriority == tp.getTxPriority
  {
  }

  /** Neighbours of a full selection pass the order check of ProcessLaneHandler. */
  lemma RankedSelectionPasses<C(!new)>(tp: TxPriority<C>, ix: Indices<C>, m: Contents<C>, i: nat)
    requires Ranked(tp, m) && Agree(tp, ix, m) && Current(m)
    requires i + 1 < |Selection(tp, ix)|
    ensures AcceptsPair(tp, Selection(tp, ix)[i].value, Selection(tp, ix)[i + 1].value)
  {
    var dom := Occurring(tp, m);
    Extend(tp, ix, m, dom);
    SameSelection(tp, dom, ix);
    SelectionPassesOrderCheck(Tamed(tp, dom), ix, m, i);
    SelectedOccurs(tp, ix, m, i);
    SelectedOccurs(tp, ix, m, i + 1);
    var a, b := Selection(tp, ix)[i].value, Selection(tp, ix)[i + 1].value;
    SameZero(tp, dom);
    SameCompare(tp, dom, tp.getTxPriority(a), tp.getTxPriority(b));
    hide Tamed, Agree, Within, Selection;
  }

  lemma SelectedOccurs<C(!new)>(tp: TxPriority<C>, ix: Indices<C>, m: Contents<C>, i: nat)
    requires Ranked(tp, m) && Agree(tp, ix, m) && i < |Selection(tp, ix)|
    ensures tp.getTxPriority(Selection(tp, ix)[i].value) in Occurring(tp, m)
    ensures var n := Selection(tp, ix)[i]; IdOf(n.key) in m && m[IdOf(n.key)].tx == n.value
  {
    ReorderedRanked(tp, ix, m);
    EmitsStored(tp, Reordered(tp, ix), Reweighed(tp, ix, m), 0, map[], i);
    var id := IdOf(Selection(tp, ix)[i].key);
    assert NamedAt(tp, m, id);
    assert Occurs(tp, m, m[id].priority);
  }

  /** Exactly when an iteration returns all of a sender's transactions, stale keys or not. */
  lemma RankedCompleteExactly<C(!new)>(tp: TxPriority<C>, ix: Indices<C>, m: Contents<C>, s: string)
    requires Ranked(tp, m) && Agree(tp, ix, m)
    ensures var ix' := Reordered(tp, ix);
            var list := ListOf(ix.senderIndices, s);
            var k := LastNode(ix'.priorityIndex, s);
            OfSender(Selection(tp, ix), s) == list
            <==> forall i :: 0 <= i < |list| ==> !Blocked(tp, ix', k, list[i].key)
  {
    var dom := Occurring(tp, m);
    Extend(tp, ix, m, dom);
    SameSelection(tp, dom, ix);
    CompleteExactlyWhenUnblocked(Tamed(tp, dom), ix, m, s);
    SameReordered(tp, dom, ix);
    var ix': Indices<C> := Reordered(tp, ix);
    var list := ListOf(ix.senderIndices, s);
    ReorderedRanked(tp, ix, m);
    hide Tamed, Agree, Selection, Blocked, Reordered, LastNode;
    forall i | 0 <= i < |list|
      ensures Blocked(tp, ix', LastNode(ix'.priorityIndex, s), list[i].key)
           == Blocked(Tamed(tp, dom), ix', LastNode(ix'.priorityIndex, s), list[i].key)
    {
      assert NodesWithin(dom, ListOf(ix.senderIndices, s)) && list[i] in list;
      SameBlocked(tp, dom, ix', LastNode(ix'.priorityIndex, s), list[i].key);
    }
  }
}
