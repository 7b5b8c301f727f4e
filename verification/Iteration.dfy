/** What a full iteration of the mempool returns: the sequence produced by the iterator's two
    mutually recursive functions, and why it is complete and in order. */
module Iteration {
  import opened Types
  import opened SkipLists
  import opened Ordering
  import opened PriorityIndex
  import opened Reordering

  /** How many transactions of a sender the iteration has returned. */
  function Returned(cursors: map<string, nat>, sender: string): nat {
    if sender in cursors then cursors[sender] else 0
  }

  function WeightOf<C>(tp: TxPriority<C>, ix: Indices<C>, id: Id): C {
    if id in ix.scores then ix.scores[id].weight else tp.zeroValue
  }

  /** Next's test: the sender's next transaction ranks below the next node of the priority index. */
  predicate Blocked<C>(tp: TxPriority<C>, ix: Indices<C>, k: nat, key: Meta<C>) {
    && k + 1 < |ix.priorityIndex|
    && var next := ix.priorityIndex[k + 1].key;
       var c := tp.compare(key.priority, next.priority);
       c < 0 || (c == 0 && tp.compare(WeightOf(tp, ix, IdOf(key)), next.weight) < 0)
  }

  /** The entries still to come when the iterator stands at node `k` of the priority index. */
  function Emit<C>(tp: TxPriority<C>, ix: Indices<C>, k: nat, cursors: map<string, nat>): seq<Node<C>>
    decreases |ix.priorityIndex| - k,
              if k < |ix.priorityIndex|
              then |ListOf(ix.senderIndices, ix.priorityIndex[k].key.sender)| - Returned(cursors, ix.priorityIndex[k].key.sender)
              else 0
  {
    if k >= |ix.priorityIndex| then []
    else
      var sender := ix.priorityIndex[k].key.sender;
      var list := ListOf(ix.senderIndices, sender);
      var at := Returned(cursors, sender);
      if at >= |list| || Blocked(tp, ix, k, list[at].key) then Emit(tp, ix, k + 1, cursors)
      else [list[at]] + Emit(tp, ix, k, cursors[sender := at + 1])
  }

  function Values<C>(nodes: seq<Node<C>>): (r: seq<Tx>)
    ensures |r| == |nodes|
    ensures forall i :: 0 <= i < |nodes| ==> r[i] == nodes[i].value
  {
    if nodes == [] then [] else [nodes[0].value] + Values(nodes[1..])
  }

  lemma EmitEnds<C>(tp: TxPriority<C>, ix: Indices<C>, k: nat, cursors: map<string, nat>)
    requires k >= |ix.priorityIndex|
    ensures Values(Emit(tp, ix, k, cursors)) == []
  {
  }

  lemma EmitSkips<C>(tp: TxPriority<C>, ix: Indices<C>, k: nat, cursors: map<string, nat>)
    requires k < |ix.priorityIndex|
    requires var sender := ix.priorityIndex[k].key.sender;
             var list := ListOf(ix.senderIndices, sender);
             var at := Returned(cursors, sender);
             at >= |list| || Blocked(tp, ix, k, list[at].key)
    ensures Emit(tp, ix, k, cursors) == Emit(tp, ix, k + 1, cursors)
  {
  }

  lemma EmitServes<C>(tp: TxPriority<C>, ix: Indices<C>, k: nat, cursors: map<string, nat>)
    requires k < |ix.priorityIndex|
    requires var sender := ix.priorityIndex[k].key.sender;
             var list := ListOf(ix.senderIndices, sender);
             var at := Returned(cursors, sender);
             at < |list| && !Blocked(tp, ix, k, list[at].key)
    ensures var sender := ix.priorityIndex[k].key.sender;
            var at := Returned(cursors, sender);
            Values(Emit(tp, ix, k, cursors)) ==
            [ListOf(ix.senderIndices, sender)[at].value] + Values(Emit(tp, ix, k, cursors[sender := at + 1]))
  {
    var sender := ix.priorityIndex[k].key.sender;
    var at := Returned(cursors, sender);
    var rest := Emit(tp, ix, k, cursors[sender := at + 1]);
    assert ([ListOf(ix.senderIndices, sender)[at]] + rest)[1..] == rest;
  }

  /** The whole sequence Select and repeated Next return. */
  function Selection<C>(tp: TxPriority<C>, ix: Indices<C>): seq<Node<C>> {
    Emit(tp, Reordered(tp, ix), 0, map[])
  }

  // ----- the invariant of the iteration ---------------------------------------------------

  /** The sender's first unreturned transaction is not among the first `k` priority nodes. */
  ghost predicate Waiting<C(!new)>(ix: Indices<C>, k: nat, cursors: map<string, nat>, sender: string) {
    var list := ListOf(ix.senderIndices, sender);
    var at := Returned(cursors, sender);
    at < |list| ==> forall i :: 0 <= i < k && i < |ix.priorityIndex| ==> IdOf(ix.priorityIndex[i].key) != IdOf(list[at].key)
  }

  ghost predicate InRange<C(!new)>(ix: Indices<C>, cursors: map<string, nat>, sender: string) {
    Returned(cursors, sender) <= |ListOf(ix.senderIndices, sender)|
  }

  /** On arrival at node `k`, every sender waits at or behind it. */
  ghost predicate Arrived<C(!new)>(ix: Indices<C>, k: nat, cursors: map<string, nat>) {
    forall s :: InRange(ix, cursors, s) && Waiting(ix, k, cursors, s)
  }

  /** While node `k` is being served, only its own sender may be ahead. */
  ghost predicate Serving<C(!new)>(ix: Indices<C>, k: nat, cursors: map<string, nat>) {
    forall s :: InRange(ix, cursors, s)
             && ((k < |ix.priorityIndex| && s == ix.priorityIndex[k].key.sender) || Waiting(ix, k, cursors, s))
  }

  /** Earlier nodes rank at least as high in priority and weight. */
  lemma NodesDescend<C(!new)>(tp: TxPriority<C>, ix: Indices<C>, i: nat, j: nat)
    requires TotalPreorder(tp.compare) && Sorted(PriorityOrder(tp.compare), ix.priorityIndex)
    requires i <= j < |ix.priorityIndex|
    ensures var a, b := ix.priorityIndex[i].key, ix.priorityIndex[j].key;
            RankPair(tp.compare, a.priority, a.weight, b.priority, b.weight) >= 0
  {
    var a, b := ix.priorityIndex[i].key, ix.priorityIndex[j].key;
    assert Antisymmetric(tp.compare, a.priority, a.priority) && Antisymmetric(tp.compare, a.weight, a.weight);
    if i < j {
      assert PriorityOrder(tp.compare)(a, b) < 0;
      RankIsPairFirst(tp.compare, b, a);
      PairFlip(tp.compare, a.priority, a.weight, b.priority, b.weight);
      PairFlip(tp.compare, b.priority, b.weight, a.priority, a.weight);
    }
  }

  /** The priority node of an entry of a sender's list. */
  lemma NodeOfEntry<C(!new)>(tp: TxPriority<C>, ix: Indices<C>, m: Contents<C>, sender: string, at: nat) returns (i: nat)
    requires Agree(tp, ix, m) && Current(m)
    requires at < |ListOf(ix.senderIndices, sender)|
    ensures i < |ix.priorityIndex|
    ensures var e := ListOf(ix.senderIndices, sender)[at];
            var n := ix.priorityIndex[i];
            && e.key.sender == sender && IdOf(n.key) == IdOf(e.key)
            && n.key.priority == e.key.priority && n.key.weight == WeightOf(tp, ix, IdOf(e.key))
            && n.value == e.value
  {
    var list := ListOf(ix.senderIndices, sender);
    var e := list[at];
    assert ListAgrees(tp, list, sender, m);
    assert e in list;
    assert EntryAgrees(tp, list, m, sender, e);
    var id := IdOf(e.key);
    assert NodeAgrees(ix.priorityIndex, m, NodeOf(id, m[id]));
    i :| 0 <= i < |ix.priorityIndex| && ix.priorityIndex[i] == NodeOf(id, m[id]);
    assert ScoreAgrees(ix.scores, m, id);
  }

  /** Leaving node `k`: its sender is exhausted, or waits behind the next node. */
  lemma Leave<C(!new)>(tp: TxPriority<C>, ix: Indices<C>, m: Contents<C>, k: nat, cursors: map<string, nat>)
    requires TotalPreorder(tp.compare) && Agree(tp, ix, m) && Current(m)
    requires k < |ix.priorityIndex| && Serving(ix, k, cursors)
    requires var sender := ix.priorityIndex[k].key.sender;
             var list := ListOf(ix.senderIndices, sender);
             var at := Returned(cursors, sender);
             at >= |list| || Blocked(tp, ix, k, list[at].key)
    ensures Arrived(ix, k + 1, cursors)
  {
    var sender := ix.priorityIndex[k].key.sender;
    var next := k + 1;
    forall s ensures InRange(ix, cursors, s) && Waiting(ix, next, cursors, s) {
      assert InRange(ix, cursors, s);
      var list := ListOf(ix.senderIndices, s);
      var at := Returned(cursors, s);
      if at < |list| {
        var i := NodeOfEntry(tp, ix, m, s, at);
        if s == sender {
          if i <= k + 1 {
            NodesDescend(tp, ix, i, k + 1);
            assert false;
          }
        } else {
          assert InRange(ix, cursors, s) && Waiting(ix, k, cursors, s);
          assert ix.priorityIndex[i].key.sender == s;
        }
        assert i > k;
        forall j | 0 <= j < k + 1 ensures IdOf(ix.priorityIndex[j].key) != IdOf(list[at].key) {
          if j != i { NodesDistinct(tp, ix.priorityIndex, m, i, j); }
        }
      }
    }
  }

  lemma Advance<C(!new)>(ix: Indices<C>, k: nat, cursors: map<string, nat>)
    requires k < |ix.priorityIndex| && Serving(ix, k, cursors)
    requires Returned(cursors, ix.priorityIndex[k].key.sender) < |ListOf(ix.senderIndices, ix.priorityIndex[k].key.sender)|
    ensures var sender := ix.priorityIndex[k].key.sender;
            Serving(ix, k, cursors[sender := Returned(cursors, sender) + 1])
  {
    var sender := ix.priorityIndex[k].key.sender;
    var cursors' := cursors[sender := Returned(cursors, sender) + 1];
    forall s ensures InRange(ix, cursors', s) && (s == sender || Waiting(ix, k, cursors', s)) {
      assert InRange(ix, cursors, s);
      assert s == sender || Waiting(ix, k, cursors, s);
    }
  }

  lemma ArrivedServes<C(!new)>(ix: Indices<C>, k: nat, cursors: map<string, nat>)
    requires Arrived(ix, k, cursors)
    ensures Serving(ix, k, cursors)
  {
    forall s ensures InRange(ix, cursors, s) && Waiting(ix, k, cursors, s) {
    }
  }

  // ----- every stored transaction exactly once --------------------------------------------

  /** The entries of one sender, in the order they come out. */
  function OfSender<C>(nodes: seq<Node<C>>, sender: string): seq<Node<C>> {
    if nodes == [] then []
    else (if nodes[0].key.sender == sender then [nodes[0]] else []) + OfSender(nodes[1..], sender)
  }

  /** From node `k` on, each sender's remaining transactions come out completely, once each and
      in nonce order. */
  lemma {:induction false} EmitsRest<C(!new)>(tp: TxPriority<C>, ix: Indices<C>, m: Contents<C>, k: nat, cursors: map<string, nat>, s: string)
    requires TotalPreorder(tp.compare) && Agree(tp, ix, m) && Current(m)
    requires k <= |ix.priorityIndex| && Serving(ix, k, cursors)
    ensures InRange(ix, cursors, s)
    ensures OfSender(Emit(tp, ix, k, cursors), s) == ListOf(ix.senderIndices, s)[Returned(cursors, s)..]
    decreases |ix.priorityIndex| - k,
              if k < |ix.priorityIndex|
              then |ListOf(ix.senderIndices, ix.priorityIndex[k].key.sender)| - Returned(cursors, ix.priorityIndex[k].key.sender)
              else 0
  {
    hide Agree, Current;
    assert InRange(ix, cursors, s);
    if k == |ix.priorityIndex| {
      NothingLeft(tp, ix, m, cursors, s);
    } else {
      var sender := ix.priorityIndex[k].key.sender;
      var list := ListOf(ix.senderIndices, sender);
      var at := Returned(cursors, sender);
      if at >= |list| || Blocked(tp, ix, k, list[at].key) {
        Leave(tp, ix, m, k, cursors);
        ArrivedServes(ix, k + 1, cursors);
        EmitsRest(tp, ix, m, k + 1, cursors, s);
      } else {
        Advance(ix, k, cursors);
        EmitsRest(tp, ix, m, k, cursors[sender := at + 1], s);
        ConsOfSender(list, at, sender, Emit(tp, ix, k, cursors[sender := at + 1]), s);
        var _ := NodeOfEntry(tp, ix, m, sender, at);
      }
    }
  }

  lemma ConsOfSender<C>(list: seq<Node<C>>, at: nat, sender: string, rest: seq<Node<C>>, s: string)
    requires at < |list|
    ensures OfSender([list[at]] + rest, s) == (if list[at].key.sender == s then [list[at]] else []) + OfSender(rest, s)
    ensures list[at..] == [list[at]] + list[at + 1..]
  {
    assert ([list[at]] + rest)[1..] == rest;
  }

  /** Past the last node every sender is exhausted. */
  lemma NothingLeft<C(!new)>(tp: TxPriority<C>, ix: Indices<C>, m: Contents<C>, cursors: map<string, nat>, s: string)
    requires Agree(tp, ix, m) && Current(m)
    requires Serving(ix, |ix.priorityIndex|, cursors)
    ensures Returned(cursors, s) == |ListOf(ix.senderIndices, s)|
  {
    assert InRange(ix, cursors, s) && Waiting(ix, |ix.priorityIndex|, cursors, s);
    if Returned(cursors, s) < |ListOf(ix.senderIndices, s)| {
      var i := NodeOfEntry(tp, ix, m, s, Returned(cursors, s));
      assert false;
    }
  }

  /** Before the first node nothing has been returned. */
  lemma StartArrived<C(!new)>(ix: Indices<C>)
    ensures Arrived(ix, 0, map[])
  {
    forall s ensures InRange(ix, map[], s) && Waiting(ix, 0, map[], s) {
    }
  }

  // ----- what comes out of one sender, stale keys or not --------------------------------------

  /** The sender's last node of the priority index, or the number of nodes when it has none. */
  function LastNode<C>(nodes: seq<Node<C>>, s: string): (r: nat)
    ensures r <= |nodes|
    ensures r < |nodes| ==> nodes[r].key.sender == s && forall i :: r < i < |nodes| ==> nodes[i].key.sender != s
    ensures r == |nodes| ==> forall i :: 0 <= i < |nodes| ==> nodes[i].key.sender != s
  {
    if nodes == [] then 0
    else
      var l := LastNode(nodes[1..], s);
      assert forall i :: 0 < i < |nodes| ==> nodes[i] == nodes[1..][i - 1];
      if l < |nodes| - 1 then l + 1 else if nodes[0].key.sender == s then 0 else |nodes|
  }

  /** The entries in front of the first one that ranks below the node after `k`. */
  function Unblocked<C>(tp: TxPriority<C>, ix: Indices<C>, k: nat, list: seq<Node<C>>): seq<Node<C>> {
    if list == [] || Blocked(tp, ix, k, list[0].key) then []
    else [list[0]] + Unblocked(tp, ix, k, list[1..])
  }

  lemma {:induction false} AllUnblocked<C>(tp: TxPriority<C>, ix: Indices<C>, k: nat, list: seq<Node<C>>)
    ensures Unblocked(tp, ix, k, list) == list <==> forall i :: 0 <= i < |list| ==> !Blocked(tp, ix, k, list[i].key)
  {
    hide Blocked;
    if list != [] {
      AllUnblocked(tp, ix, k, list[1..]);
      assert forall i :: 0 < i < |list| ==> list[i] == list[1..][i - 1];
      assert list == [list[0]] + list[1..];
    }
  }

  /** What is not blocked at one node is not blocked at a later one. */
  lemma StaysUnblocked<C(!new)>(tp: TxPriority<C>, ix: Indices<C>, k: nat, l: nat, key: Meta<C>)
    requires TotalPreorder(tp.compare) && Sorted(PriorityOrder(tp.compare), ix.priorityIndex)
    requires k <= l && !Blocked(tp, ix, k, key)
    ensures !Blocked(tp, ix, l, key)
  {
    if l + 1 < |ix.priorityIndex| {
      var w := WeightOf(tp, ix, IdOf(key));
      var a, b := ix.priorityIndex[k + 1].key, ix.priorityIndex[l + 1].key;
      NodesDescend(tp, ix, k + 1, l + 1);
      assert RankPair(tp.compare, key.priority, w, a.priority, a.weight) >= 0;
      PairChain(tp.compare, key.priority, w, a.priority, a.weight, b.priority, b.weight);
    }
  }

  /** Every list holds its own sender's entries. */
  ghost predicate OwnLists<C(!new)>(ix: Indices<C>) {
    forall t, i :: 0 <= i < |ListOf(ix.senderIndices, t)| ==> ListOf(ix.senderIndices, t)[i].key.sender == t
  }

  /** A sender without nodes from `k` on returns nothing more. */
  lemma {:induction false} NothingWithoutNodes<C(!new)>(tp: TxPriority<C>, ix: Indices<C>, k: nat, cursors: map<string, nat>, s: string)
    requires OwnLists(ix)
    requires forall i :: k <= i < |ix.priorityIndex| ==> ix.priorityIndex[i].key.sender != s
    ensures OfSender(Emit(tp, ix, k, cursors), s) == []
    decreases |ix.priorityIndex| - k,
              if k < |ix.priorityIndex|
              then |ListOf(ix.senderIndices, ix.priorityIndex[k].key.sender)| - Returned(cursors, ix.priorityIndex[k].key.sender)
              else 0
  {
    hide Blocked, OfSender, ListOf;
    if k < |ix.priorityIndex| {
      var sender := ix.priorityIndex[k].key.sender;
      var list := ListOf(ix.senderIndices, sender);
      var at := Returned(cursors, sender);
      if at >= |list| || Blocked(tp, ix, k, list[at].key) {
        NothingWithoutNodes(tp, ix, k + 1, cursors, s);
      } else {
        NothingWithoutNodes(tp, ix, k, cursors[sender := at + 1], s);
        ConsOfSender(list, at, sender, Emit(tp, ix, k, cursors[sender := at + 1]), s);
      }
    } else {
      OfSenderNone<C>(s);
    }
  }

  lemma OfSenderNone<C>(s: string)
    ensures OfSender<C>([], s) == []
  {
  }

  /** From node `k` on, what comes out of a sender with last node `last` is the rest of its list up
      to the first entry blocked at that last node; no assumption on the priorities in the list. */
  lemma {:induction false} EmitsUnblocked<C(!new)>(tp: TxPriority<C>, ix: Indices<C>, k: nat, cursors: map<string, nat>, s: string, last: nat)
    requires TotalPreorder(tp.compare) && Sorted(PriorityOrder(tp.compare), ix.priorityIndex)
    requires OwnLists(ix)
    requires k <= last < |ix.priorityIndex| && last == LastNode(ix.priorityIndex, s)
    requires InRange(ix, cursors, s)
    ensures OfSender(Emit(tp, ix, k, cursors), s)
         == Unblocked(tp, ix, last, ListOf(ix.senderIndices, s)[Returned(cursors, s)..])
    decreases |ix.priorityIndex| - k,
              |ListOf(ix.senderIndices, ix.priorityIndex[k].key.sender)| - Returned(cursors, ix.priorityIndex[k].key.sender)
  {
    hide Blocked, Sorted, TotalPreorder, LastNode, ListOf, OfSender;
    var sender := ix.priorityIndex[k].key.sender;
    var list := ListOf(ix.senderIndices, sender);
    var at := Returned(cursors, sender);
    if at < |list| && !Blocked(tp, ix, k, list[at].key) {
      EmitsUnblocked(tp, ix, k, cursors[sender := at + 1], s, last);
      ConsOfSender(list, at, sender, Emit(tp, ix, k, cursors[sender := at + 1]), s);
      if sender == s {
        StaysUnblocked(tp, ix, k, last, list[at].key);
        UnblockedCons(tp, ix, last, list, at);
      }
    } else if k < last {
      EmitsUnblocked(tp, ix, k + 1, cursors, s, last);
    } else {
      NothingWithoutNodes(tp, ix, k + 1, cursors, s);
    }
  }

  lemma UnblockedCons<C>(tp: TxPriority<C>, ix: Indices<C>, k: nat, list: seq<Node<C>>, at: nat)
    requires at < |list| && !Blocked(tp, ix, k, list[at].key)
    ensures Unblocked(tp, ix, k, list[at..]) == [list[at]] + Unblocked(tp, ix, k, list[at + 1..])
  {
    hide Blocked;
    assert list[at..][0] == list[at] && list[at..][1..] == list[at + 1..];
  }

  lemma ListsAreTheirSenders<C(!new)>(tp: TxPriority<C>, ix: Indices<C>, m: Contents<C>)
    requires Agree(tp, ix, m)
    ensures OwnLists(ix)
  {
    forall t, i | 0 <= i < |ListOf(ix.senderIndices, t)| ensures ListOf(ix.senderIndices, t)[i].key.sender == t {
      var list := ListOf(ix.senderIndices, t);
      assert ListAgrees(tp, list, t, m);
      assert list[i] in list;
      assert EntryAgrees(tp, list, m, t, list[i]);
    }
  }

  /** A sender with anything stored has a node. */
  lemma ListedHasNode<C(!new)>(tp: TxPriority<C>, ix: Indices<C>, m: Contents<C>, s: string)
    requires Agree(tp, ix, m) && ListOf(ix.senderIndices, s) != []
    ensures LastNode(ix.priorityIndex, s) < |ix.priorityIndex|
  {
    var list := ListOf(ix.senderIndices, s);
    assert ListAgrees(tp, list, s, m);
    assert list[0] in list;
    assert EntryAgrees(tp, list, m, s, list[0]);
    var id := IdOf(list[0].key);
    assert NodeAgrees(ix.priorityIndex, m, NodeOf(id, m[id]));
    var i :| 0 <= i < |ix.priorityIndex| && ix.priorityIndex[i] == NodeOf(id, m[id]);
  }

  /** In every pool, stale keys or not, what an iteration returns of a sender is its list up to the
      first entry that ranks below the node after the sender's last one. */
  lemma SelectionOfSender<C(!new)>(tp: TxPriority<C>, ix: Indices<C>, m: Contents<C>, s: string)
    requires TotalPreorder(tp.compare) && Agree(tp, ix, m)
    ensures OfSender(Selection(tp, ix), s)
         == Unblocked(tp, Reordered(tp, ix), LastNode(Reordered(tp, ix).priorityIndex, s), ListOf(ix.senderIndices, s))
  {
    ReorderedAgrees(tp, ix, m);
    var ix' := Reordered(tp, ix);
    var last := LastNode(ix'.priorityIndex, s);
    var list := ListOf(ix'.senderIndices, s);
    ListsAreTheirSenders(tp, ix', Reweighed(tp, ix, m));
    if list != [] { ListedHasNode(tp, ix', Reweighed(tp, ix, m), s); }
    NodesSorted(tp, ix', Reweighed(tp, ix, m));
    hide Agree, Reordered, Blocked, LastNode;
    if last < |ix'.priorityIndex| {
      EmitsUnblocked(tp, ix', 0, map[], s, last);
      assert list[0..] == list;
    } else {
      NothingWithoutNodes(tp, ix', 0, map[], s);
    }
  }

  /** Exactly when an iteration returns all of a sender's transactions: when no key of its list ranks
      below the node after the sender's last one. */
  lemma CompleteExactlyWhenUnblocked<C(!new)>(tp: TxPriority<C>, ix: Indices<C>, m: Contents<C>, s: string)
    requires TotalPreorder(tp.compare) && Agree(tp, ix, m)
    ensures var ix' := Reordered(tp, ix);
            var list := ListOf(ix.senderIndices, s);
            var k := LastNode(ix'.priorityIndex, s);
            OfSender(Selection(tp, ix), s) == list
            <==> forall i :: 0 <= i < |list| ==> !Blocked(tp, ix', k, list[i].key)
  {
    SelectionOfSender(tp, ix, m, s);
    var ix' := Reordered(tp, ix);
    AllUnblocked(tp, ix', LastNode(ix'.priorityIndex, s), ListOf(ix.senderIndices, s));
  }

  /** Current keys are never blocked there: an entry's own node is at or before the sender's last. */
  lemma CurrentIsUnblocked<C(!new)>(tp: TxPriority<C>, ix: Indices<C>, m: Contents<C>, s: string, at: nat)
    requires TotalPreorder(tp.compare) && Agree(tp, ix, m) && Current(m)
    requires at < |ListOf(ix.senderIndices, s)|
    ensures !Blocked(tp, ix, LastNode(ix.priorityIndex, s), ListOf(ix.senderIndices, s)[at].key)
  {
    var e := ListOf(ix.senderIndices, s)[at];
    var i := NodeOfEntry(tp, ix, m, s, at);
    var last := LastNode(ix.priorityIndex, s);
    if last + 1 < |ix.priorityIndex| {
      NodesDescend(tp, ix, i, last + 1);
    }
  }

  /** With current keys Select returns every stored transaction exactly once: sender by sender, what
      comes out is that sender's list. */
  lemma SelectionIsExact<C(!new)>(tp: TxPriority<C>, ix: Indices<C>, m: Contents<C>, s: string)
    requires TotalPreorder(tp.compare) && Agree(tp, ix, m) && Current(m)
    ensures OfSender(Selection(tp, ix), s) == ListOf(ix.senderIndices, s)
  {
    ReorderedAgrees(tp, ix, m);
    var ix', m' := Reordered(tp, ix), Reweighed(tp, ix, m);
    var list := ListOf(ix.senderIndices, s);
    CompleteExactlyWhenUnblocked(tp, ix, m, s);
    hide Agree, Blocked, LastNode, Reordered, Reweighed, Selection;
    forall i | 0 <= i < |list| ensures !Blocked(tp, ix', LastNode(ix'.priorityIndex, s), list[i].key) {
      CurrentIsUnblocked(tp, ix', m', s, i);
    }
  }

  lemma {:induction false} OfSenderHolds<C>(nodes: seq<Node<C>>, n: Node<C>)
    ensures n in nodes <==> n in OfSender(nodes, n.key.sender)
  {
    if nodes != [] { OfSenderHolds(nodes[1..], n); }
  }

  /** If each sender's entries come out in nonce order, any two entries of one sender do. */
  lemma {:induction false} SenderNoncesRise<C(!new)>(nodes: seq<Node<C>>, i: nat, j: nat)
    requires forall s :: Sorted(NonceOrder<C>(), OfSender(nodes, s))
    requires i < j < |nodes| && nodes[i].key.sender == nodes[j].key.sender
    ensures nodes[i].key.nonce < nodes[j].key.nonce
  {
    var s := nodes[j].key.sender;
    var all := OfSender(nodes, s);
    var rest := OfSender(nodes[1..], s);
    assert Sorted(NonceOrder<C>(), all);
    if i == 0 {
      assert nodes[1..][j - 1] == nodes[j];
      OfSenderHolds(nodes[1..], nodes[j]);
      var at :| 0 <= at < |rest| && rest[at] == nodes[j];
      assert all == [nodes[0]] + rest;
      assert all[at + 1] == nodes[j];
      assert NonceOrder<C>()(all[0].key, all[at + 1].key) < 0;
    } else {
      forall s' ensures Sorted(NonceOrder<C>(), OfSender(nodes[1..], s')) {
        var all' := OfSender(nodes, s');
        var rest' := OfSender(nodes[1..], s');
        assert Sorted(NonceOrder<C>(), all');
        if nodes[0].key.sender == s' {
          assert all' == [nodes[0]] + rest';
          forall a, b | 0 <= a < b < |rest'| ensures NonceOrder<C>()(rest'[a].key, rest'[b].key) < 0 {
            assert rest'[a] == all'[a + 1] && rest'[b] == all'[b + 1];
          }
        } else {
          assert all' == rest';
        }
      }
      SenderNoncesRise(nodes[1..], i - 1, j - 1);
    }
  }

  /** The selection holds a transaction if and only if it is stored, never twice, and any two
      transactions of one sender come out in nonce order. */
  lemma SelectionOnce<C(!new)>(tp: TxPriority<C>, ix: Indices<C>, m: Contents<C>)
    requires TotalPreorder(tp.compare) && Agree(tp, ix, m) && Current(m)
    ensures var r := Selection(tp, ix);
            && (forall n :: n in r <==> IsListed(tp, m, n.key.sender, n))
            && (forall i, j :: 0 <= i < j < |r| && r[i].key.sender == r[j].key.sender ==> r[i].key.nonce < r[j].key.nonce)
  {
    var r := Selection(tp, ix);
    forall n ensures n in r <==> IsListed(tp, m, n.key.sender, n) {
      OfSenderHolds(r, n);
      SelectionIsExact(tp, ix, m, n.key.sender);
      assert ListAgrees(tp, ListOf(ix.senderIndices, n.key.sender), n.key.sender, m);
      assert EntryAgrees(tp, ListOf(ix.senderIndices, n.key.sender), m, n.key.sender, n);
    }
    forall s ensures Sorted(NonceOrder<C>(), OfSender(r, s)) {
      SelectionIsExact(tp, ix, m, s);
      assert ListAgrees(tp, ListOf(ix.senderIndices, s), s, m);
    }
    forall i, j | 0 <= i < j < |r| && r[i].key.sender == r[j].key.sender ensures r[i].key.nonce < r[j].key.nonce {
      SenderNoncesRise(r, i, j);
    }
  }

  /** Whatever comes out is stored, also when the sender lists' priorities are out of date. */
  lemma {:induction false} EmitsStored<C(!new)>(tp: TxPriority<C>, ix: Indices<C>, m: Contents<C>, k: nat, cursors: map<string, nat>, i: nat)
    requires Agree(tp, ix, m)
    requires i < |Emit(tp, ix, k, cursors)|
    ensures var n := Emit(tp, ix, k, cursors)[i]; IdOf(n.key) in m && m[IdOf(n.key)].tx == n.value
    decreases |ix.priorityIndex| - k,
              if k < |ix.priorityIndex|
              then |ListOf(ix.senderIndices, ix.priorityIndex[k].key.sender)| - Returned(cursors, ix.priorityIndex[k].key.sender)
              else 0
  {
    hide Blocked;
    var sender := ix.priorityIndex[k].key.sender;
    var list := ListOf(ix.senderIndices, sender);
    var at := Returned(cursors, sender);
    if at >= |list| || Blocked(tp, ix, k, list[at].key) {
      EmitsStored(tp, ix, m, k + 1, cursors, i);
    } else if i > 0 {
      EmitsStored(tp, ix, m, k, cursors[sender := at + 1], i - 1);
    } else {
      assert ListAgrees(tp, list, sender, m);
      assert list[at] in list;
      assert EntryAgrees(tp, list, m, sender, list[at]);
    }
  }

  // ----- the order of consecutive transactions --------------------------------------------

  /** The order the lanes check: nonces rise for one sender, priorities do not rise otherwise. */
  predicate InOrder<C>(compare: (C, C) -> int, a: Meta<C>, b: Meta<C>) {
    if a.sender == b.sender then a.nonce < b.nonce else compare(a.priority, b.priority) >= 0
  }

  /** The next entry to come out is its sender's first unreturned one. */
  lemma {:induction false} HeadIsNext<C(!new)>(tp: TxPriority<C>, ix: Indices<C>, m: Contents<C>, k: nat, cursors: map<string, nat>)
    requires TotalPreorder(tp.compare) && Agree(tp, ix, m) && Current(m)
    requires k <= |ix.priorityIndex| && Serving(ix, k, cursors)
    requires Emit(tp, ix, k, cursors) != []
    ensures var b := Emit(tp, ix, k, cursors)[0];
            var s := b.key.sender;
            && Returned(cursors, s) < |ListOf(ix.senderIndices, s)|
            && b == ListOf(ix.senderIndices, s)[Returned(cursors, s)]
  {
    var b := Emit(tp, ix, k, cursors)[0];
    EmitsRest(tp, ix, m, k, cursors, b.key.sender);
    var o := Emit(tp, ix, k, cursors);
    assert o == [b] + o[1..];
    assert OfSender(o, b.key.sender) == [b] + OfSender(o[1..], b.key.sender);
  }

  lemma NodesSorted<C(!new)>(tp: TxPriority<C>, ix: Indices<C>, m: Contents<C>)
    requires Agree(tp, ix, m)
    ensures Sorted(PriorityOrder(tp.compare), ix.priorityIndex)
  {
  }

  /** On arrival at node `k`, whatever comes out next ranks no higher than that node. */
  lemma {:induction false} HeadBelowNode<C(!new)>(tp: TxPriority<C>, ix: Indices<C>, m: Contents<C>, k: nat, cursors: map<string, nat>)
    requires TotalPreorder(tp.compare) && Agree(tp, ix, m) && Current(m)
    requires k <= |ix.priorityIndex| && Arrived(ix, k, cursors)
    requires Emit(tp, ix, k, cursors) != []
    ensures k < |ix.priorityIndex|
    ensures var b := Emit(tp, ix, k, cursors)[0].key;
            var n := ix.priorityIndex[k].key;
            RankPair(tp.compare, n.priority, n.weight, b.priority, WeightOf(tp, ix, IdOf(b))) >= 0
    decreases |ix.priorityIndex| - k
  {
    NodesSorted(tp, ix, m);
    hide Agree, Current, Sorted;
    var sender := ix.priorityIndex[k].key.sender;
    var list := ListOf(ix.senderIndices, sender);
    var at := Returned(cursors, sender);
    if at >= |list| || Blocked(tp, ix, k, list[at].key) {
      ArrivedServes(ix, k, cursors);
      Leave(tp, ix, m, k, cursors);
      HeadBelowNode(tp, ix, m, k + 1, cursors);
      NodesDescend(tp, ix, k, k + 1);
      var b, n, next := Emit(tp, ix, k, cursors)[0].key, ix.priorityIndex[k].key, ix.priorityIndex[k + 1].key;
      PairChain(tp.compare, n.priority, n.weight, next.priority, next.weight, b.priority, WeightOf(tp, ix, IdOf(b)));
    } else {
      assert Waiting(ix, k, cursors, sender);
      var i := NodeOfEntry(tp, ix, m, sender, at);
      assert i >= k;
      NodesDescend(tp, ix, k, i);
    }
  }

  /** Two consecutive transactions of an iteration are never out of order. */
  lemma {:induction false} EmitInOrder<C(!new)>(tp: TxPriority<C>, ix: Indices<C>, m: Contents<C>, k: nat, cursors: map<string, nat>, i: nat)
    requires TotalPreorder(tp.compare) && Agree(tp, ix, m) && Current(m)
    requires k <= |ix.priorityIndex| && Serving(ix, k, cursors)
    requires i + 1 < |Emit(tp, ix, k, cursors)|
    ensures InOrder(tp.compare, Emit(tp, ix, k, cursors)[i].key, Emit(tp, ix, k, cursors)[i + 1].key)
    decreases |ix.priorityIndex| - k,
              if k < |ix.priorityIndex|
              then |ListOf(ix.senderIndices, ix.priorityIndex[k].key.sender)| - Returned(cursors, ix.priorityIndex[k].key.sender)
              else 0
  {
    var sender := ix.priorityIndex[k].key.sender;
    var list := ListOf(ix.senderIndices, sender);
    var at := Returned(cursors, sender);
    if at >= |list| || Blocked(tp, ix, k, list[at].key) {
      Leave(tp, ix, m, k, cursors);
      ArrivedServes(ix, k + 1, cursors);
      EmitInOrder(tp, ix, m, k + 1, cursors, i);
    } else {
      var cursors' := cursors[sender := at + 1];
      Advance(ix, k, cursors);
      if i > 0 {
        EmitInOrder(tp, ix, m, k, cursors', i - 1);
      } else {
        NextInOrder(tp, ix, m, k, cursors);
      }
    }
  }

  /** The entry after one served at node `k` is in order with it. */
  lemma NextInOrder<C(!new)>(tp: TxPriority<C>, ix: Indices<C>, m: Contents<C>, k: nat, cursors: map<string, nat>)
    requires TotalPreorder(tp.compare) && Agree(tp, ix, m) && Current(m)
    requires k < |ix.priorityIndex| && Serving(ix, k, cursors)
    requires var sender := ix.priorityIndex[k].key.sender;
             var list := ListOf(ix.senderIndices, sender);
             var at := Returned(cursors, sender);
             && at < |list| && !Blocked(tp, ix, k, list[at].key)
             && Emit(tp, ix, k, cursors[sender := at + 1]) != []
    ensures var sender := ix.priorityIndex[k].key.sender;
            var at := Returned(cursors, sender);
            InOrder(tp.compare, ListOf(ix.senderIndices, sender)[at].key, Emit(tp, ix, k, cursors[sender := at + 1])[0].key)
  {
    var sender := ix.priorityIndex[k].key.sender;
    var list := ListOf(ix.senderIndices, sender);
    var at := Returned(cursors, sender);
    var cursors' := cursors[sender := at + 1];
    Advance(ix, k, cursors);
    HeadIsNext(tp, ix, m, k, cursors');
    var b := Emit(tp, ix, k, cursors')[0].key;
    var _ := NodeOfEntry(tp, ix, m, sender, at);
    var _ := NodeOfEntry(tp, ix, m, b.sender, Returned(cursors', b.sender));
    if b.sender == sender {
      assert ListAgrees(tp, list, sender, m);
      assert NonceOrder<C>()(list[at].key, list[at + 1].key) < 0;
    } else {
      LaterSenderBelow(tp, ix, m, k, cursors');
      ServedAboveNext(tp, ix, k, list[at].key, b);
    }
  }

  /** What another sender returns next ranks no higher than the next node. */
  lemma {:induction false} LaterSenderBelow<C(!new)>(tp: TxPriority<C>, ix: Indices<C>, m: Contents<C>, k: nat, cursors: map<string, nat>)
    requires TotalPreorder(tp.compare) && Agree(tp, ix, m) && Current(m)
    requires k < |ix.priorityIndex| && Serving(ix, k, cursors)
    requires Emit(tp, ix, k, cursors) != []
    requires Emit(tp, ix, k, cursors)[0].key.sender != ix.priorityIndex[k].key.sender
    ensures k + 1 < |ix.priorityIndex|
    ensures var b := Emit(tp, ix, k, cursors)[0].key;
            var n := ix.priorityIndex[k + 1].key;
            RankPair(tp.compare, n.priority, n.weight, b.priority, WeightOf(tp, ix, IdOf(b))) >= 0
  {
    HeadIsNext(tp, ix, m, k, cursors);
    var sender := ix.priorityIndex[k].key.sender;
    var at := Returned(cursors, sender);
    if at < |ListOf(ix.senderIndices, sender)| {
      var _ := NodeOfEntry(tp, ix, m, sender, at);
    }
    Leave(tp, ix, m, k, cursors);
    HeadBelowNode(tp, ix, m, k + 1, cursors);
  }

  lemma ServedAboveNext<C(!new)>(tp: TxPriority<C>, ix: Indices<C>, k: nat, a: Meta<C>, b: Meta<C>)
    requires TotalPreorder(tp.compare) && k + 1 < |ix.priorityIndex|
    requires !Blocked(tp, ix, k, a)
    requires var n := ix.priorityIndex[k + 1].key;
             RankPair(tp.compare, n.priority, n.weight, b.priority, WeightOf(tp, ix, IdOf(b))) >= 0
    ensures tp.compare(a.priority, b.priority) >= 0
  {
    var n := ix.priorityIndex[k + 1].key;
    PairChain(tp.compare, a.priority, WeightOf(tp, ix, IdOf(a)), n.priority, n.weight, b.priority, WeightOf(tp, ix, IdOf(b)));
  }

  // ----- Mempool.Compare ------------------------------------------------------------------

  /** Mempool.Compare: `None` is an error. */
  function CompareTxs<C>(tp: TxPriority<C>, this_: Tx, other: Tx): Option<int> {
    if TxId(this_).None? || TxId(other).None? then None
    else
      var a, b := TxId(this_).value, TxId(other).value;
      if a.sender == b.sender then
        if a.nonce < b.nonce then Some(1) else if a.nonce > b.nonce then Some(-1) else None
      else Some(tp.compare(tp.getTxPriority(this_), tp.getTxPriority(other)))
  }

  /** The process-side check: the earlier transaction must not rank lower, nor fail to compare. */
  predicate AcceptsPair<C>(tp: TxPriority<C>, before: Tx, after: Tx) {
    CompareTxs(tp, before, after).Some? && CompareTxs(tp, before, after).value != -1
  }

  /** What the check asks of two transactions: readable first signers, and a rising nonce when they are
      the same, or a comparison other than -1 when they differ. */
  ghost predicate MayFollow<C>(tp: TxPriority<C>, before: Tx, after: Tx) {
    && before.signers.Some? && before.signers.value != [] && after.signers.Some? && after.signers.value != []
    && var a, b := before.signers.value[0], after.signers.value[0];
       if a.signer == b.signer then a.sequence < b.sequence
       else tp.compare(tp.getTxPriority(before), tp.getTxPriority(after)) != -1
  }

  lemma AcceptsExactly<C>(tp: TxPriority<C>, before: Tx, after: Tx)
    ensures AcceptsPair(tp, before, after) <==> MayFollow(tp, before, after)
  {
  }

  /** A full selection always passes the order check of ProcessLaneHandler, whatever total order
      ranks the priorities. */
  lemma SelectionPassesOrderCheck<C(!new)>(tp: TxPriority<C>, ix: Indices<C>, m: Contents<C>, i: nat)
    requires TotalPreorder(tp.compare) && Agree(tp, ix, m) && Current(m)
    requires i + 1 < |Selection(tp, ix)|
    ensures InOrder(tp.compare, Selection(tp, ix)[i].key, Selection(tp, ix)[i + 1].key)
    ensures AcceptsPair(tp, Selection(tp, ix)[i].value, Selection(tp, ix)[i + 1].value)
  {
    ReorderedAgrees(tp, ix, m);
    var ix' := Reordered(tp, ix);
    StartArrived(ix');
    ArrivedServes(ix', 0, map[]);
    EmitInOrder(tp, ix', Reweighed(tp, ix, m), 0, map[], i);
    var a, b := Selection(tp, ix)[i], Selection(tp, ix)[i + 1];
    SelectionOnce(tp, ix, m);
    assert a in Selection(tp, ix) && b in Selection(tp, ix);
    assert NamedAt(tp, m, IdOf(a.key)) && NamedAt(tp, m, IdOf(b.key));
  }
}
