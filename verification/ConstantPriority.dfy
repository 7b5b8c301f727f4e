/** The selection order under DefaultTxPriority, which ranks every transaction the same. */
module ConstantPriority {
  import opened SkipLists
  import opened Ordering
  import opened PriorityIndex
  import opened Reordering
  import opened Iteration

  /** DefaultTxPriority: the zero priority for every transaction, and every comparison a tie. */
  function DefaultTxPriority<C>(zero: C): TxPriority<C> {
    TxPriority(_ => zero, (_, _) => 0, zero, zero)
  }

  ghost predicate Constant<C(!new)>(compare: (C, C) -> int) {
    forall a, b :: compare(a, b) == 0
  }

  lemma DefaultIsConstant<C(!new)>(zero: C)
    ensures Constant(DefaultTxPriority(zero).compare) && TotalPreorder(DefaultTxPriority(zero).compare)
    ensures forall a, b :: DefaultTxPriority(zero).getTxPriority(a) == DefaultTxPriority(zero).getTxPriority(b)
  {
  }

  /** The simple sort: senders in descending order, each sender's nonces ascending. */
  predicate SimplyBefore<C>(a: Meta<C>, b: Meta<C>) {
    CompareStrings(a.sender, b.sender) > 0 || (a.sender == b.sender && a.nonce < b.nonce)
  }

  ghost predicate SimplySorted<C(!new)>(r: seq<Node<C>>) {
    forall i, j :: 0 <= i < j < |r| ==> SimplyBefore(r[i].key, r[j].key)
  }

  lemma NodeSendersDescend<C(!new)>(compare: (C, C) -> int, nodes: seq<Node<C>>, i: nat, j: nat)
    requires Constant(compare) && Sorted(PriorityOrder(compare), nodes)
    requires i <= j < |nodes|
    ensures CompareStrings(nodes[i].key.sender, nodes[j].key.sender) >= 0
  {
    if i < j {
      assert PriorityOrder(compare)(nodes[i].key, nodes[j].key) < 0;
      StringsFlip(nodes[i].key.sender, nodes[j].key.sender);
    }
  }

  /** No sender above `top` comes out, and senders never rise. */
  ghost predicate SendersDescend<C(!new)>(top: string, r: seq<Node<C>>) {
    && (forall i :: 0 <= i < |r| ==> CompareStrings(top, r[i].key.sender) >= 0)
    && (forall i, j :: 0 <= i < j < |r| ==> CompareStrings(r[i].key.sender, r[j].key.sender) >= 0)
  }

  lemma LowerTop<C(!new)>(top: string, lower: string, r: seq<Node<C>>)
    requires CompareStrings(top, lower) >= 0 && SendersDescend(lower, r)
    ensures SendersDescend(top, r)
  {
    forall i | 0 <= i < |r| ensures CompareStrings(top, r[i].key.sender) >= 0 {
      StringsFlip(top, lower);
      StringsFlip(lower, r[i].key.sender);
      StringsFlip(top, r[i].key.sender);
      StringsChain(r[i].key.sender, lower, top);
    }
  }

  lemma EntrySender<C(!new)>(tp: TxPriority<C>, ix: Indices<C>, m: Contents<C>, sender: string, at: nat)
    requires Agree(tp, ix, m) && at < |ListOf(ix.senderIndices, sender)|
    ensures ListOf(ix.senderIndices, sender)[at].key.sender == sender
  {
    var list := ListOf(ix.senderIndices, sender);
    assert ListAgrees(tp, list, sender, m);
    assert list[at] in list;
    assert EntryAgrees(tp, list, m, sender, list[at]);
  }

  lemma NeverBlocked<C(!new)>(tp: TxPriority<C>, ix: Indices<C>, k: nat, key: Meta<C>)
    requires Constant(tp.compare)
    ensures !Blocked(tp, ix, k, key)
  {
  }

  /** From node `k` on, no sender above that node's sender comes out, and senders never rise. */
  lemma {:induction false} EmitSendersDescend<C(!new)>(tp: TxPriority<C>, ix: Indices<C>, m: Contents<C>, k: nat, cursors: map<string, nat>)
    requires Constant(tp.compare) && Agree(tp, ix, m) && k < |ix.priorityIndex|
    ensures SendersDescend(ix.priorityIndex[k].key.sender, Emit(tp, ix, k, cursors))
    decreases |ix.priorityIndex| - k,
              |ListOf(ix.senderIndices, ix.priorityIndex[k].key.sender)| - Returned(cursors, ix.priorityIndex[k].key.sender)
  {
    NodesSorted(tp, ix, m);
    var sender := ix.priorityIndex[k].key.sender;
    var list := ListOf(ix.senderIndices, sender);
    var at := Returned(cursors, sender);
    hide Agree, Sorted, Blocked, Constant, SendersDescend, Emit, ListOf, PriorityOrder, CompareStrings;
    if at >= |list| {
      EmitSkips(tp, ix, k, cursors);
      if k + 1 < |ix.priorityIndex| {
        EmitSendersDescend(tp, ix, m, k + 1, cursors);
        NodeSendersDescend(tp.compare, ix.priorityIndex, k, k + 1);
        LowerTop(sender, ix.priorityIndex[k + 1].key.sender, Emit(tp, ix, k + 1, cursors));
      } else {
        NothingDescends(tp, ix, sender, cursors);
      }
    } else {
      NeverBlocked(tp, ix, k, list[at].key);
      EmitTakes(tp, ix, k, cursors);
      EmitSendersDescend(tp, ix, m, k, cursors[sender := at + 1]);
      EntrySender(tp, ix, m, sender, at);
      ConsDescends(sender, list[at], Emit(tp, ix, k, cursors[sender := at + 1]));
    }
  }

  lemma EmitSkips<C(!new)>(tp: TxPriority<C>, ix: Indices<C>, k: nat, cursors: map<string, nat>)
    requires k < |ix.priorityIndex|
    requires var sender := ix.priorityIndex[k].key.sender; Returned(cursors, sender) >= |ListOf(ix.senderIndices, sender)|
    ensures Emit(tp, ix, k, cursors) == Emit(tp, ix, k + 1, cursors)
  {
  }

  lemma EmitTakes<C(!new)>(tp: TxPriority<C>, ix: Indices<C>, k: nat, cursors: map<string, nat>)
    requires k < |ix.priorityIndex|
    requires var sender := ix.priorityIndex[k].key.sender;
             var list, at := ListOf(ix.senderIndices, sender), Returned(cursors, sender);
             at < |list| && !Blocked(tp, ix, k, list[at].key)
    ensures var sender := ix.priorityIndex[k].key.sender;
            var list, at := ListOf(ix.senderIndices, sender), Returned(cursors, sender);
            Emit(tp, ix, k, cursors) == [list[at]] + Emit(tp, ix, k, cursors[sender := at + 1])
  {
    hide Blocked;
  }

  lemma NothingDescends<C(!new)>(tp: TxPriority<C>, ix: Indices<C>, top: string, cursors: map<string, nat>)
    ensures SendersDescend(top, Emit(tp, ix, |ix.priorityIndex|, cursors))
  {
  }

  lemma ConsDescends<C(!new)>(top: string, first: Node<C>, rest: seq<Node<C>>)
    requires first.key.sender == top && SendersDescend(top, rest)
    ensures SendersDescend(top, [first] + rest)
  {
    assert CompareStrings(top, top) == 0;
    hide CompareStrings;
  }

  /** With constant priorities the selection is sorted, every pair of it, not just neighbours. */
  lemma SelectionIsSimplySorted<C(!new)>(tp: TxPriority<C>, ix: Indices<C>, m: Contents<C>)
    requires Constant(tp.compare) && Agree(tp, ix, m) && Current(m)
    ensures SimplySorted(Selection(tp, ix))
  {
    assert TotalPreorder(tp.compare);
    ReorderedAgrees(tp, ix, m);
    if Reordered(tp, ix).priorityIndex != [] {
      EmitSendersDescend(tp, Reordered(tp, ix), Reweighed(tp, ix, m), 0, map[]);
    }
    SelectionOnce(tp, ix, m);
  }

  /** The selection IS the simple sort: any listing of the stored transactions in that order is
      the selection. */
  lemma SelectionIsTheSimpleSort<C(!new)>(tp: TxPriority<C>, ix: Indices<C>, m: Contents<C>, other: seq<Node<C>>)
    requires Constant(tp.compare) && Agree(tp, ix, m) && Current(m)
    requires SimplySorted(other)
    requires forall n :: n in other <==> IsListed(tp, m, n.key.sender, n)
    ensures Selection(tp, ix) == other
  {
    assert TotalPreorder(tp.compare);
    SelectionIsSimplySorted(tp, ix, m);
    SelectionOnce(tp, ix, m);
    SortIsUnique(Selection(tp, ix), other);
  }

  lemma BeforeIsStrict<C>(a: Meta<C>, b: Meta<C>)
    ensures !(SimplyBefore(a, b) && SimplyBefore(b, a))
  {
    StringsFlip(a.sender, b.sender);
  }

  lemma {:induction false} SortIsUnique<C(!new)>(a: seq<Node<C>>, b: seq<Node<C>>)
    requires SimplySorted(a) && SimplySorted(b)
    requires forall n :: n in a <==> n in b
    ensures a == b
  {
    assert b != [] ==> b[0] in b;
    if a != [] {
      assert a[0] in a;
      var j :| 0 <= j < |b| && b[j] == a[0];
      assert b[0] in b;
      var i :| 0 <= i < |a| && a[i] == b[0];
      BeforeIsStrict(a[0].key, b[0].key);
      BeforeIsStrict(a[0].key, a[0].key);
      assert a[0] == b[0];
      forall n ensures n in a[1..] <==> n in b[1..] {
        HeadNotInTail(a, n);
        HeadNotInTail(b, n);
      }
      SortIsUnique(a[1..], b[1..]);
    }
  }

  lemma HeadNotInTail<C(!new)>(a: seq<Node<C>>, n: Node<C>)
    requires SimplySorted(a) && a != []
    ensures n in a[1..] <==> n in a && n != a[0]
  {
    if n in a[1..] {
      var i :| 0 <= i < |a[1..]| && a[1..][i] == n;
      BeforeIsStrict(a[0].key, a[0].key);
      assert a[i + 1] == n;
    }
  }

  /** Any two transactions of the selection, however far apart, pass the order check; so every
      subsequence of it does. */
  lemma AnyPairAccepted<C(!new)>(tp: TxPriority<C>, ix: Indices<C>, m: Contents<C>, i: nat, j: nat)
    requires Constant(tp.compare) && Agree(tp, ix, m) && Current(m)
    requires i < j < |Selection(tp, ix)|
    ensures AcceptsPair(tp, Selection(tp, ix)[i].value, Selection(tp, ix)[j].value)
  {
    assert TotalPreorder(tp.compare);
    SelectionIsSimplySorted(tp, ix, m);
    SelectionOnce(tp, ix, m);
    var a, b := Selection(tp, ix)[i], Selection(tp, ix)[j];
    hide Selection, IndexAgrees, SendersAgree, CountsAgree, ScoresAgree, AcceptsPair, SimplyBefore, IsListed;
    assert a in Selection(tp, ix) && b in Selection(tp, ix);
    PairAccepted(tp, m, a, b);
  }

  /** Two stored transactions in the simple order pass the order check. */
  lemma PairAccepted<C(!new)>(tp: TxPriority<C>, m: Contents<C>, a: Node<C>, b: Node<C>)
    requires Constant(tp.compare) && Named(tp, m) && SimplyBefore(a.key, b.key)
    requires IsListed(tp, m, a.key.sender, a) && IsListed(tp, m, b.key.sender, b)
    ensures AcceptsPair(tp, a.value, b.value)
  {
    assert NamedAt(tp, m, IdOf(a.key)) && NamedAt(tp, m, IdOf(b.key));
  }
}
