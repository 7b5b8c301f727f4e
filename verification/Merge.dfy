/** What the order of a selection is: a merge of the senders' lists in which the transaction with the
    highest priority among the senders' next ones comes out first, and of equal priorities the one whose
    sender ends on the higher priority. */
module Merge {
  import opened Types
  import opened SkipLists
  import opened Ordering
  import opened PriorityIndex
  import opened Reordering
  import opened Iteration
  import opened Ranking
  import opened MempoolRuns

  // ----- weights --------------------------------------------------------------------------------

  /** Another stored transaction has the very same priority. */
  ghost predicate Shared<C(!new)>(m: Contents<C>, id: Id) {
    id in m && exists other :: other in m && other != id && m[other].priority == m[id].priority
  }

  /** The last entry of the sender's list. */
  function LastEntry<C>(ix: Indices<C>, sender: string): Node<C>
    requires ListOf(ix.senderIndices, sender) != []
  {
    var list := ListOf(ix.senderIndices, sender);
    list[|list| - 1]
  }

  lemma CountsTwo<C>(nodes: seq<Node<C>>, i: nat, j: nat, p: C)
    requires i < j < |nodes| && nodes[i].key.priority == p && nodes[j].key.priority == p
    ensures CountOf(nodes, p) >= 2
  {
    CountWithout(nodes, j, p);
    var rest := nodes[..j] + nodes[j + 1..];
    assert rest[i] == nodes[i];
    CountWithout(rest, i, p);
  }

  /** Two stored transactions with one priority are counted as a tie. */
  lemma SharedIsCounted<C(!new)>(tp: TxPriority<C>, ix: Indices<C>, m: Contents<C>, id: Id)
    requires TotalPreorder(tp.compare) && Agree(tp, ix, m) && Shared(m, id)
    ensures CountAt(ix.priorityCounts, m[id].priority) > 1
  {
    var other :| other in m && other != id && m[other].priority == m[id].priority;
    var a, b := NodeOf(id, m[id]), NodeOf(other, m[other]);
    assert NodeAgrees(ix.priorityIndex, m, a) && NodeAgrees(ix.priorityIndex, m, b);
    var i :| 0 <= i < |ix.priorityIndex| && ix.priorityIndex[i] == a;
    var j :| 0 <= j < |ix.priorityIndex| && ix.priorityIndex[j] == b;
    if i < j { CountsTwo(ix.priorityIndex, i, j, m[id].priority); } else { CountsTwo(ix.priorityIndex, j, i, m[id].priority); }
    assert CountAt(ix.priorityCounts, m[id].priority) == CountOf(ix.priorityIndex, m[id].priority);
  }

  /** An entry of a sorted list is where its nonce leads. */
  lemma {:induction false} PositionOfEntry<C(!new)>(list: seq<Node<C>>, at: nat)
    requires Sorted(NonceOrder<C>(), list) && at < |list|
    ensures Position(list, list[at].key.nonce) == at
  {
    if at > 0 {
      assert NonceOrder<C>()(list[0].key, list[at].key) < 0;
      forall i, j | 0 <= i < j < |list[1..]| ensures NonceOrder<C>()(list[1..][i].key, list[1..][j].key) < 0 {
        assert NonceOrder<C>()(list[i + 1].key, list[j + 1].key) < 0;
      }
      PositionOfEntry(list[1..], at - 1);
    }
  }

  /** Where a stored transaction stands in its sender's list. */
  lemma EntryOf<C(!new)>(tp: TxPriority<C>, ix: Indices<C>, m: Contents<C>, id: Id) returns (at: nat)
    requires Agree(tp, ix, m) && id in m
    ensures at < |ListOf(ix.senderIndices, id.sender)| && ListOf(ix.senderIndices, id.sender)[at] == ListedOf(tp, id, m[id])
    ensures Sorted(NonceOrder<C>(), ListOf(ix.senderIndices, id.sender))
  {
    var list := ListOf(ix.senderIndices, id.sender);
    assert ListAgrees(tp, list, id.sender, m);
    assert EntryAgrees(tp, list, m, id.sender, ListedOf(tp, id, m[id]));
    at :| 0 <= at < |list| && list[at] == ListedOf(tp, id, m[id]);
  }

  /** After Select every transaction that shares its priority carries a weight that compares equal to the
      priority its sender's list ends on. */
  lemma TiesWeighTheLast<C(!new)>(tp: TxPriority<C>, ix: Indices<C>, m: Contents<C>, id: Id)
    requires TotalPreorder(tp.compare) && Agree(tp, ix, m) && Shared(m, id)
    ensures ListOf(ix.senderIndices, id.sender) != []
    ensures id in Reordered(tp, ix).scores && Reordered(tp, ix).scores[id].priority == m[id].priority
    ensures tp.compare(Reordered(tp, ix).scores[id].weight, LastEntry(ix, id.sender).key.priority) == 0
  {
    var at := EntryOf(tp, ix, m, id);
    var list := ListOf(ix.senderIndices, id.sender);
    PositionOfEntry(list, at);
    SharedIsCounted(tp, ix, m, id);
    ReorderedAgrees(tp, ix, m);
    assert ScoreAgrees(Reordered(tp, ix).scores, Reweighed(tp, ix, m), id);
    hide Agree, Reordered, Sorted, Shared, TotalPreorder;
    var own := list[at].key.priority;
    ComparesToItself(tp.compare, own);
    WeightIsLastPriority(tp.compare, list, at + 1, own);
  }

  lemma ComparesToItself<C(!new)>(compare: (C, C) -> int, c: C)
    requires TotalPreorder(compare)
    ensures compare(c, c) == 0
  {
    assert Antisymmetric(compare, c, c);
  }

  /** Two transactions counted under one priority are two stored ones. */
  lemma {:induction false} CountedTwice<C>(nodes: seq<Node<C>>, p: C) returns (i: nat, j: nat)
    requires CountOf(nodes, p) >= 2
    ensures i < j < |nodes| && nodes[i].key.priority == p && nodes[j].key.priority == p
  {
    if nodes[0].key.priority == p {
      i := 0;
      var k := CountedOnce(nodes[1..], p);
      j := k + 1;
    } else {
      var k, l := CountedTwice(nodes[1..], p);
      i, j := k + 1, l + 1;
    }
  }

  lemma {:induction false} CountedOnce<C>(nodes: seq<Node<C>>, p: C) returns (i: nat)
    requires CountOf(nodes, p) >= 1
    ensures i < |nodes| && nodes[i].key.priority == p
  {
    if nodes[0].key.priority == p {
      i := 0;
    } else {
      var k := CountedOnce(nodes[1..], p);
      i := k + 1;
    }
  }

  /** A transaction that shares its priority with no other keeps its weight. */
  lemma OthersKeepTheirWeight<C(!new)>(tp: TxPriority<C>, ix: Indices<C>, m: Contents<C>, id: Id)
    requires TotalPreorder(tp.compare) && Agree(tp, ix, m) && id in m && !Shared(m, id)
    ensures id in ix.scores && id in Reordered(tp, ix).scores && Reordered(tp, ix).scores[id] == ix.scores[id]
  {
    assert ScoreAgrees(ix.scores, m, id);
    ReorderedAgrees(tp, ix, m);
    assert ScoreAgrees(Reordered(tp, ix).scores, Reweighed(tp, ix, m), id);
    assert CountAt(ix.priorityCounts, m[id].priority) == CountOf(ix.priorityIndex, m[id].priority);
    hide Reordered;
    if CountOf(ix.priorityIndex, m[id].priority) >= 2 { CountedIsShared(tp, ix, m, id); }
  }

  lemma CountedIsShared<C(!new)>(tp: TxPriority<C>, ix: Indices<C>, m: Contents<C>, id: Id)
    requires TotalPreorder(tp.compare) && Agree(tp, ix, m) && id in m && CountOf(ix.priorityIndex, m[id].priority) >= 2
    ensures Shared(m, id)
  {
    var i, j := CountedTwice(ix.priorityIndex, m[id].priority);
    NodesDistinct(tp, ix.priorityIndex, m, i, j);
    var x, y := IdOf(ix.priorityIndex[i].key), IdOf(ix.priorityIndex[j].key);
    assert NodeAgrees(ix.priorityIndex, m, ix.priorityIndex[i]) && NodeAgrees(ix.priorityIndex, m, ix.priorityIndex[j]);
    var other := if x == id then y else x;
    assert other in m && other != id && m[other].priority == m[id].priority;
  }

  // ----- the merge ------------------------------------------------------------------------------

  /** At least as high a priority, and, if they compare equal, at least as much weight. */
  ghost predicate Ahead<C(!new)>(tp: TxPriority<C>, ix: Indices<C>, a: Meta<C>, b: Meta<C>) {
    RankPair(tp.compare, a.priority, WeightOf(tp, ix, IdOf(a)), b.priority, WeightOf(tp, ix, IdOf(b))) >= 0
  }

  /** When `r[i]` comes out, `r[j]` is the next transaction of another sender. */
  ghost predicate NextOfAnother<C(!new)>(r: seq<Node<C>>, i: nat, j: nat) {
    && i < j < |r| && r[i].key.sender != r[j].key.sender
    && forall l :: i < l < j ==> r[l].key.sender != r[j].key.sender
  }

  lemma {:induction false} FirstOfSender<C>(nodes: seq<Node<C>>, j: nat)
    requires j < |nodes| && forall l :: 0 <= l < j ==> nodes[l].key.sender != nodes[j].key.sender
    ensures OfSender(nodes, nodes[j].key.sender) != [] && OfSender(nodes, nodes[j].key.sender)[0] == nodes[j]
  {
    if j > 0 { FirstOfSender(nodes[1..], j - 1); }
  }

  /** Whatever comes out ranks at least as high as the next transaction of every other sender. */
  lemma {:induction false} EmitMerges<C(!new)>(tp: TxPriority<C>, ix: Indices<C>, m: Contents<C>, k: nat, cursors: map<string, nat>, i: nat, j: nat)
    requires TotalPreorder(tp.compare) && Agree(tp, ix, m) && Current(m)
    requires k <= |ix.priorityIndex| && Serving(ix, k, cursors)
    requires NextOfAnother(Emit(tp, ix, k, cursors), i, j)
    ensures Ahead(tp, ix, Emit(tp, ix, k, cursors)[i].key, Emit(tp, ix, k, cursors)[j].key)
    decreases |ix.priorityIndex| - k,
              if k < |ix.priorityIndex|
              then |ListOf(ix.senderIndices, ix.priorityIndex[k].key.sender)| - Returned(cursors, ix.priorityIndex[k].key.sender)
              else 0
  {
    hide Agree, Current, Blocked, Serving, Ahead, ListOf;
    var sender := ix.priorityIndex[k].key.sender;
    var list := ListOf(ix.senderIndices, sender);
    var at := Returned(cursors, sender);
    var r := Emit(tp, ix, k, cursors);
    if at >= |list| || Blocked(tp, ix, k, list[at].key) {
      Leave(tp, ix, m, k, cursors);
      ArrivedServes(ix, k + 1, cursors);
      EmitMerges(tp, ix, m, k + 1, cursors, i, j);
    } else {
      var cursors' := cursors[sender := at + 1];
      Advance(ix, k, cursors);
      var rest := Emit(tp, ix, k, cursors');
      assert r == [list[at]] + rest;
      if i > 0 {
        NextInTail(list[at], rest, i, j);
        EmitMerges(tp, ix, m, k, cursors', i - 1, j - 1);
      } else {
        NextInTail(list[at], rest, i, j);
        FirstOfSender(rest, j - 1);
        ListsAreTheirSenders(tp, ix, m);
        assert list[at].key.sender == sender;
        ServedAheadOf(tp, ix, m, k, cursors', list[at].key, r[j].key.sender);
      }
    }
  }

  lemma NextInTail<C(!new)>(first: Node<C>, rest: seq<Node<C>>, i: nat, j: nat)
    requires NextOfAnother([first] + rest, i, j)
    ensures i > 0 ==> NextOfAnother(rest, i - 1, j - 1)
    ensures i == 0 ==> forall l :: 0 <= l < j - 1 ==> rest[l].key.sender != rest[j - 1].key.sender
    ensures rest[j - 1] == ([first] + rest)[j]
  {
    forall l | i <= l < j - 1 ensures rest[l].key.sender != rest[j - 1].key.sender {
      assert ([first] + rest)[l + 1] == rest[l];
    }
  }

  /** What is served at node `k` ranks at least as high as another sender's next transaction, whose node
      lies behind. */
  lemma ServedAheadOf<C(!new)>(tp: TxPriority<C>, ix: Indices<C>, m: Contents<C>, k: nat, cursors: map<string, nat>, key: Meta<C>, s: string)
    requires TotalPreorder(tp.compare) && Agree(tp, ix, m) && Current(m)
    requires k < |ix.priorityIndex| && Serving(ix, k, cursors) && !Blocked(tp, ix, k, key)
    requires s != ix.priorityIndex[k].key.sender && OfSender(Emit(tp, ix, k, cursors), s) != []
    ensures Ahead(tp, ix, key, OfSender(Emit(tp, ix, k, cursors), s)[0].key)
  {
    hide *;
    EmitsRest(tp, ix, m, k, cursors, s);
    var list, at := ListOf(ix.senderIndices, s), Returned(cursors, s);
    RestHead(ix, cursors, s);
    var i := WaitsBehind(tp, ix, m, k, cursors, s);
    NodesSorted(tp, ix, m);
    NodesDescend(tp, ix, k + 1, i);
    NotBlockedAhead(tp, ix, k, key, list[at].key, i);
  }

  lemma RestHead<C(!new)>(ix: Indices<C>, cursors: map<string, nat>, s: string)
    requires InRange(ix, cursors, s) && ListOf(ix.senderIndices, s)[Returned(cursors, s)..] != []
    ensures Returned(cursors, s) < |ListOf(ix.senderIndices, s)|
    ensures ListOf(ix.senderIndices, s)[Returned(cursors, s)..][0] == ListOf(ix.senderIndices, s)[Returned(cursors, s)]
  {
  }

  /** The node of another sender's next transaction. */
  lemma WaitsBehind<C(!new)>(tp: TxPriority<C>, ix: Indices<C>, m: Contents<C>, k: nat, cursors: map<string, nat>, s: string) returns (i: nat)
    requires Agree(tp, ix, m) && Current(m)
    requires k < |ix.priorityIndex| && Serving(ix, k, cursors) && s != ix.priorityIndex[k].key.sender
    requires Returned(cursors, s) < |ListOf(ix.senderIndices, s)|
    ensures k < i < |ix.priorityIndex|
    ensures var e, n := ListOf(ix.senderIndices, s)[Returned(cursors, s)].key, ix.priorityIndex[i].key;
            n.priority == e.priority && n.weight == WeightOf(tp, ix, IdOf(e))
  {
    i := NodeOfEntry(tp, ix, m, s, Returned(cursors, s));
    hide Agree, Current;
    assert Waiting(ix, k, cursors, s);
  }

  lemma NotBlockedAhead<C(!new)>(tp: TxPriority<C>, ix: Indices<C>, k: nat, key: Meta<C>, other: Meta<C>, i: nat)
    requires TotalPreorder(tp.compare) && !Blocked(tp, ix, k, key) && k + 1 < |ix.priorityIndex| && i < |ix.priorityIndex|
    requires var next, n := ix.priorityIndex[k + 1].key, ix.priorityIndex[i].key;
             RankPair(tp.compare, next.priority, next.weight, n.priority, n.weight) >= 0
    requires ix.priorityIndex[i].key.priority == other.priority && ix.priorityIndex[i].key.weight == WeightOf(tp, ix, IdOf(other))
    ensures Ahead(tp, ix, key, other)
  {
    var next, n := ix.priorityIndex[k + 1].key, ix.priorityIndex[i].key;
    PairChain(tp.compare, key.priority, WeightOf(tp, ix, IdOf(key)), next.priority, next.weight, n.priority, n.weight);
  }

  lemma SelectionMerges<C(!new)>(tp: TxPriority<C>, ix: Indices<C>, m: Contents<C>, i: nat, j: nat)
    requires TotalPreorder(tp.compare) && Agree(tp, ix, m) && Current(m)
    requires NextOfAnother(Selection(tp, ix), i, j)
    ensures Ahead(tp, Reordered(tp, ix), Selection(tp, ix)[i].key, Selection(tp, ix)[j].key)
  {
    ReorderedAgrees(tp, ix, m);
    StartArrived(Reordered(tp, ix));
    ArrivedServes(Reordered(tp, ix), 0, map[]);
    hide Agree, Ahead, Emit, Reordered, Reweighed;
    assert Current(Reweighed(tp, ix, m)) by { ReweighedCurrent(tp, ix, m); }
    EmitMerges(tp, Reordered(tp, ix), Reweighed(tp, ix, m), 0, map[], i, j);
  }

  lemma ReweighedCurrent<C(!new)>(tp: TxPriority<C>, ix: Indices<C>, m: Contents<C>)
    requires Current(m)
    ensures Current(Reweighed(tp, ix, m))
  {
  }

  /** The order of a selection with current keys. Whatever comes out has at least the priority of every
      other sender's next transaction; and of two with the very same priority, the sender of the first
      ends on a priority that is at least that of the other's. */
  ghost predicate Merged<C(!new)>(tp: TxPriority<C>, ix: Indices<C>, a: Meta<C>, b: Meta<C>) {
    && tp.compare(a.priority, b.priority) >= 0
    && ListOf(ix.senderIndices, a.sender) != [] && ListOf(ix.senderIndices, b.sender) != []
    && (a.priority == b.priority ==> tp.compare(LastEntry(ix, a.sender).key.priority, LastEntry(ix, b.sender).key.priority) >= 0)
  }

  lemma SelectionIsMerged<C(!new)>(tp: TxPriority<C>, ix: Indices<C>, m: Contents<C>, i: nat, j: nat)
    requires TotalPreorder(tp.compare) && Agree(tp, ix, m) && Current(m)
    requires NextOfAnother(Selection(tp, ix), i, j)
    ensures Merged(tp, ix, Selection(tp, ix)[i].key, Selection(tp, ix)[j].key)
  {
    SelectionMerges(tp, ix, m, i, j);
    var a, b := Selection(tp, ix)[i], Selection(tp, ix)[j];
    SelectionOnce(tp, ix, m);
    assert a in Selection(tp, ix) && b in Selection(tp, ix);
    var x, y := IdOf(a.key), IdOf(b.key);
    var _ := EntryOf(tp, ix, m, x);
    var _ := EntryOf(tp, ix, m, y);
    hide Agree, Selection, Reordered;
    if a.key.priority == b.key.priority {
      assert m[x].priority == m[y].priority && x != y;
      assert Shared(m, x) && Shared(m, y);
      TiesWeighTheLast(tp, ix, m, x);
      TiesWeighTheLast(tp, ix, m, y);
      var p, q := LastEntry(ix, x.sender).key.priority, LastEntry(ix, y.sender).key.priority;
      var w, v := Reordered(tp, ix).scores[x].weight, Reordered(tp, ix).scores[y].weight;
      assert Antisymmetric(tp.compare, a.key.priority, a.key.priority);
      SameSides(tp.compare, w, v, p, q);
    }
  }

  lemma SameSides<C(!new)>(compare: (C, C) -> int, w: C, v: C, p: C, q: C)
    requires TotalPreorder(compare) && compare(w, v) >= 0 && compare(w, p) == 0 && compare(v, q) == 0
    ensures compare(p, q) >= 0
  {
    assert Antisymmetric(compare, w, v) && Antisymmetric(compare, v, w);
    assert Antisymmetric(compare, w, p) && Antisymmetric(compare, p, w);
    assert Antisymmetric(compare, p, q) && Antisymmetric(compare, q, p);
    assert Antisymmetric(compare, v, q) && Antisymmetric(compare, q, v);
    Before(compare, q, v, w);
    Before(compare, q, w, p);
  }

  // ----- on the priorities that occur -------------------------------------------------------------

  lemma StoredPrioritiesOccur<C(!new)>(tp: TxPriority<C>, ix: Indices<C>, m: Contents<C>, sender: string)
    requires Agree(tp, ix, m) && ListOf(ix.senderIndices, sender) != []
    ensures LastEntry(ix, sender).key.priority in Occurring(tp, m)
    ensures IdOf(LastEntry(ix, sender).key) in m && LastEntry(ix, sender) == ListedOf(tp, IdOf(LastEntry(ix, sender).key), m[IdOf(LastEntry(ix, sender).key)])
    ensures LastEntry(ix, sender).key.sender == sender
  {
    var list, e := ListOf(ix.senderIndices, sender), LastEntry(ix, sender);
    assert ListAgrees(tp, list, sender, m);
    assert e in list;
    assert EntryAgrees(tp, list, m, sender, e);
    assert Occurs(tp, m, m[IdOf(e.key)].listed);
  }

  lemma RankedTiesWeighTheLast<C(!new)>(tp: TxPriority<C>, ix: Indices<C>, m: Contents<C>, id: Id)
    requires Ranked(tp, m) && Agree(tp, ix, m) && Shared(m, id)
    ensures ListOf(ix.senderIndices, id.sender) != []
    ensures id in Reordered(tp, ix).scores && Reordered(tp, ix).scores[id].priority == m[id].priority
    ensures tp.compare(Reordered(tp, ix).scores[id].weight, LastEntry(ix, id.sender).key.priority) == 0
  {
    var dom := Occurring(tp, m);
    Extend(tp, ix, m, dom);
    TiesWeighTheLast(Tamed(tp, dom), ix, m, id);
    SameReordered(tp, dom, ix);
    StoredPrioritiesOccur(tp, ix, m, id.sender);
    hide Tamed, Agree, Reordered, Occurring;
    SameCompare(tp, dom, Reordered(tp, ix).scores[id].weight, LastEntry(ix, id.sender).key.priority);
  }

  /** The merge, under any ranking that is a total preorder on the priorities that occur. */
  lemma RankedSelectionIsMerged<C(!new)>(tp: TxPriority<C>, ix: Indices<C>, m: Contents<C>, i: nat, j: nat)
    requires Ranked(tp, m) && Agree(tp, ix, m) && Current(m)
    requires NextOfAnother(Selection(tp, ix), i, j)
    ensures Merged(tp, ix, Selection(tp, ix)[i].key, Selection(tp, ix)[j].key)
  {
    var dom := Occurring(tp, m);
    Extend(tp, ix, m, dom);
    SameSelection(tp, dom, ix);
    SelectionIsMerged(Tamed(tp, dom), ix, m, i, j);
    SelectedKey(tp, ix, m, i);
    SelectedKey(tp, ix, m, j);
    var a, b := Selection(tp, ix)[i].key, Selection(tp, ix)[j].key;
    hide Tamed, Agree, Selection, Occurring;
    SameCompare(tp, dom, a.priority, b.priority);
    StoredPrioritiesOccur(tp, ix, m, a.sender);
    StoredPrioritiesOccur(tp, ix, m, b.sender);
    SameCompare(tp, dom, LastEntry(ix, a.sender).key.priority, LastEntry(ix, b.sender).key.priority);
  }

  /** What is selected is stored, under a key that carries its own priority when keys are current. */
  lemma SelectedKey<C(!new)>(tp: TxPriority<C>, ix: Indices<C>, m: Contents<C>, i: nat)
    requires Ranked(tp, m) && Agree(tp, ix, m) && Current(m) && i < |Selection(tp, ix)|
    ensures var n := Selection(tp, ix)[i];
            && n.key.priority in Occurring(tp, m) && n.key.priority == tp.getTxPriority(n.value)
            && IdOf(n.key) in m && m[IdOf(n.key)].tx == n.value
  {
    RankedSelectionOnce(tp, ix, m);
    var n := Selection(tp, ix)[i];
    assert n in Selection(tp, ix);
    hide Selection;
    assert NamedAt(tp, m, IdOf(n.key));
    assert Occurs(tp, m, m[IdOf(n.key)].listed);
  }

  // ----- over runs ----------------------------------------------------------------------------------

  /** The sender's transaction with the highest nonce. */
  ghost predicate LastOf(pool: map<Id, Tx>, sender: string, id: Id) {
    id in pool && id.sender == sender && forall other :: other in pool && other.sender == sender ==> other.nonce <= id.nonce
  }

  lemma LastIsLastEntry<C(!new)>(tp: TxPriority<C>, ix: Indices<C>, m: Contents<C>, sender: string, id: Id)
    requires Agree(tp, ix, m) && Current(m) && LastOf(TxsOf(m), sender, id)
    ensures ListOf(ix.senderIndices, sender) != [] && LastEntry(ix, sender).key.priority == tp.getTxPriority(m[id].tx)
  {
    var at := EntryOf(tp, ix, m, id);
    StoredPrioritiesOccur(tp, ix, m, sender);
    var list := ListOf(ix.senderIndices, sender);
    var last := IdOf(LastEntry(ix, sender).key);
    assert last in TxsOf(m);
    assert last == id;
    assert NamedAt(tp, m, id);
  }

  /** After any run without stale keys, in terms of the plain map: whatever is selected has at least the
      priority of every other sender's next transaction, and of two with the very same priority, the last
      stored transaction of the first one's sender has at least the priority of the other's. */
  lemma RunIsMerged<C(!new)>(cfg: Config<C>, ops: seq<Op>, i: nat, j: nat)
    requires PreorderOn(cfg.txPriority.compare, RunPriorities(cfg.txPriority, ops))
    requires cfg.replaceKey || RunKeepsPriorities(cfg, ops)
    requires NextOfAnother(Selection(cfg.txPriority, Run(cfg, ops)), i, j)
    ensures var tp, r, pool := cfg.txPriority, Selection(cfg.txPriority, Run(cfg, ops)), PlainRun(cfg, ops);
            var p, q := tp.getTxPriority(r[i].value), tp.getTxPriority(r[j].value);
            && tp.compare(p, q) >= 0
            && forall x, y :: p == q && LastOf(pool, r[i].key.sender, x) && LastOf(pool, r[j].key.sender, y) ==>
                 tp.compare(tp.getTxPriority(pool[x]), tp.getTxPriority(pool[y])) >= 0
  {
    var tp := cfg.txPriority;
    var m := RunRefines(cfg, ops);
    var ix := Run(cfg, ops);
    var r := Selection(tp, ix);
    var pool := PlainRun(cfg, ops);
    FewerRank(tp.compare, RunPriorities(tp, ops), Occurring(tp, m));
    assert Ranked(tp, m);
    hide Agree, Run, PlainRun, Selection, Occurring, PreorderOn, Ranked, NextOfAnother, LastOf, RunPriorities;
    InRangeOf(r, i, j);
    RankedSelectionIsMerged(tp, ix, m, i, j);
    SelectedKey(tp, ix, m, i);
    SelectedKey(tp, ix, m, j);
    forall x, y | LastOf(pool, r[i].key.sender, x) && LastOf(pool, r[j].key.sender, y)
      ensures x in pool && y in pool
      ensures r[i].key.priority == r[j].key.priority ==> tp.compare(tp.getTxPriority(pool[x]), tp.getTxPriority(pool[y])) >= 0
    {
      LastIsLastEntry(tp, ix, m, r[i].key.sender, x);
      LastIsLastEntry(tp, ix, m, r[j].key.sender, y);
      IsStored(pool, r[i].key.sender, x);
      IsStored(pool, r[j].key.sender, y);
    }
  }

  lemma IsStored(pool: map<Id, Tx>, sender: string, id: Id)
    requires LastOf(pool, sender, id)
    ensures id in pool
  {
  }

  lemma InRangeOf<C(!new)>(r: seq<Node<C>>, i: nat, j: nat)
    requires NextOfAnother(r, i, j)
    ensures i < j < |r|
  {
  }
}
