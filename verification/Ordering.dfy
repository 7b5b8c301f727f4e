/** The comparators of the mempool: byte-wise string order, the priority-index order and the
    nonce order of a sender's list. */
module Ordering {
  import opened Types
  import opened SkipLists

  /** skiplist.String: lexicographic comparison, with results -1, 0 and 1. */
  function CompareStrings(a: string, b: string): (r: int)
    ensures r == -1 || r == 0 || r == 1
    ensures r == 0 <==> a == b
  {
    if a == [] then if b == [] then 0 else -1
    else if b == [] then 1
    else if a[0] != b[0] then if a[0] < b[0] then -1 else 1
    else
      assert a == b <==> a[1..] == b[1..] by {
        assert a == [a[0]] + a[1..] && b == [b[0]] + b[1..];
      }
      CompareStrings(a[1..], b[1..])
  }

  lemma {:induction false} StringsFlip(a: string, b: string)
    ensures CompareStrings(a, b) == -CompareStrings(b, a)
  {
    if a != [] && b != [] { StringsFlip(a[1..], b[1..]); }
  }

  lemma {:induction false} StringsChain(a: string, b: string, c: string)
    requires CompareStrings(a, b) <= 0 && CompareStrings(b, c) <= 0
    ensures CompareStrings(a, c) <= 0
  {
    if a != [] && b != [] && c != [] && a[0] == b[0] && b[0] == c[0] {
      StringsChain(a[1..], b[1..], c[1..]);
    }
  }

  /** Up to `k` the strings are the same, and there the first one ends or has the smaller character. */
  predicate SmallerAt(a: string, b: string, k: nat) {
    && k <= |a| && k < |b| && a[..k] == b[..k]
    && (k == |a| || a[k] < b[k])
  }

  /** Which string comes first: a proper prefix, or the smaller character at the first difference. */
  lemma StringsInOrder(a: string, b: string)
    ensures CompareStrings(a, b) < 0 <==> exists k :: SmallerAt(a, b, k)
    ensures CompareStrings(a, b) > 0 <==> exists k :: SmallerAt(b, a, k)
  {
    SmallerExactly(a, b);
    SmallerExactly(b, a);
    StringsFlip(a, b);
  }

  lemma {:induction false} SmallerExactly(a: string, b: string)
    ensures CompareStrings(a, b) < 0 <==> exists k :: SmallerAt(a, b, k)
  {
    if a == [] || b == [] || a[0] != b[0] {
      assert CompareStrings(a, b) < 0 ==> SmallerAt(a, b, 0);
    } else {
      SmallerExactly(a[1..], b[1..]);
      if k: nat :| SmallerAt(a[1..], b[1..], k) {
        assert a[..k + 1] == [a[0]] + a[1..][..k] && b[..k + 1] == [b[0]] + b[1..][..k];
        assert SmallerAt(a, b, k + 1);
      }
      if k: nat :| SmallerAt(a, b, k) {
        assert k > 0;
        assert a[1..][..k - 1] == a[..k][1..] && b[1..][..k - 1] == b[..k][1..];
        assert SmallerAt(a[1..], b[1..], k - 1);
      }
    }
  }

  /** TxPriority: how a lane ranks transactions. `zeroValue` is Go's zero value of C. */
  datatype TxPriority<!C> = TxPriority(
    getTxPriority: Tx -> C,
    compare: (C, C) -> int,
    minValue: C,
    zeroValue: C)

  /** txMeta: the key of both kinds of index. `element` stands for the pointer to the entry of
      the sender's list, named by the nonce that entry is stored under. */
  datatype Meta<+C> = Meta(nonce: uint64, priority: C, sender: string, weight: C, element: Option<uint64>)

  /** skiplistComparable before the reversal the skip list applies: priority, weight, sender, nonce. */
  function Rank<C>(compare: (C, C) -> int, a: Meta<C>, b: Meta<C>): int {
    if compare(a.priority, b.priority) != 0 then compare(a.priority, b.priority)
    else if compare(a.weight, b.weight) != 0 then compare(a.weight, b.weight)
    else if a.sender != b.sender then CompareStrings(a.sender, b.sender)
    else a.nonce - b.nonce
  }

  /** Order of the priority index: the highest rank is at the front. */
  function PriorityOrder<C>(compare: (C, C) -> int): (Meta<C>, Meta<C>) -> int {
    (a: Meta<C>, b: Meta<C>) => Rank(compare, b, a)
  }

  /** Order of a sender's list: the lowest nonce is at the front. */
  function NonceOrder<C>(): (Meta<C>, Meta<C>) -> int {
    (a: Meta<C>, b: Meta<C>) => a.nonce - b.nonce
  }

  lemma NonceOrderIsTotal<C(!new)>()
    ensures TotalPreorder(NonceOrder<C>())
  {
  }

  /** Comparison by priority, then weight. */
  function RankPair<C>(compare: (C, C) -> int, p: C, w: C, q: C, v: C): int {
    if compare(p, q) != 0 then compare(p, q) else compare(w, v)
  }

  lemma PairFlip<C(!new)>(compare: (C, C) -> int, p: C, w: C, q: C, v: C)
    requires TotalPreorder(compare)
    ensures RankPair(compare, p, w, q, v) < 0 <==> RankPair(compare, q, v, p, w) > 0
    ensures RankPair(compare, p, w, q, v) == 0 <==> RankPair(compare, q, v, p, w) == 0
  {
    assert Antisymmetric(compare, p, q) && Antisymmetric(compare, q, p);
    assert Antisymmetric(compare, w, v) && Antisymmetric(compare, v, w);
  }

  lemma PairChain<C(!new)>(compare: (C, C) -> int, p: C, w: C, q: C, v: C, r: C, u: C)
    requires TotalPreorder(compare)
    requires RankPair(compare, p, w, q, v) >= 0 && RankPair(compare, q, v, r, u) >= 0
    ensures RankPair(compare, p, w, r, u) >= 0
    ensures RankPair(compare, p, w, q, v) > 0 || RankPair(compare, q, v, r, u) > 0
        ==> RankPair(compare, p, w, r, u) > 0
  {
    PairFlip(compare, p, w, q, v);
    PairFlip(compare, q, v, r, u);
    PairFlip(compare, p, w, r, u);
    assert Antisymmetric(compare, p, q) && Antisymmetric(compare, q, p);
    assert Antisymmetric(compare, r, q) && Antisymmetric(compare, q, r);
    assert Antisymmetric(compare, w, v) && Antisymmetric(compare, v, w);
    assert Antisymmetric(compare, u, v) && Antisymmetric(compare, v, u);
    Before(compare, r, q, p);
    if compare(p, q) == 0 && compare(q, r) == 0 {
      Before(compare, p, q, r);
      assert Antisymmetric(compare, r, p) && Antisymmetric(compare, p, r);
      assert compare(p, r) == 0;
      Before(compare, u, v, w);
      assert Antisymmetric(compare, u, w) && Antisymmetric(compare, w, u);
    } else {
      assert Antisymmetric(compare, r, p);
    }
  }

  /** Whatever total order ranks the priorities, the priority index is totally ordered, and two
      keys are equal in it only if they name the same sender and nonce. */
  lemma PriorityOrderIsTotal<C(!new)>(compare: (C, C) -> int)
    requires TotalPreorder(compare)
    ensures TotalPreorder(PriorityOrder(compare))
  {
    var cmp := PriorityOrder(compare);
    forall a, b ensures Antisymmetric(cmp, a, b) {
      PairFlip(compare, a.priority, a.weight, b.priority, b.weight);
      StringsFlip(a.sender, b.sender);
      assert Antisymmetric(compare, a.priority, b.priority) && Antisymmetric(compare, b.priority, a.priority);
      assert Antisymmetric(compare, a.weight, b.weight) && Antisymmetric(compare, b.weight, a.weight);
    }
    forall a, b, c ensures Transitive(cmp, a, b, c) {
      if cmp(a, b) <= 0 && cmp(b, c) <= 0 { RankChain(compare, c, b, a); }
    }
  }

  lemma RankChain<C(!new)>(compare: (C, C) -> int, a: Meta<C>, b: Meta<C>, c: Meta<C>)
    requires TotalPreorder(compare)
    requires Rank(compare, a, b) <= 0 && Rank(compare, b, c) <= 0
    ensures Rank(compare, a, c) <= 0
  {
    PairFlip(compare, a.priority, a.weight, b.priority, b.weight);
    PairFlip(compare, b.priority, b.weight, c.priority, c.weight);
    PairFlip(compare, a.priority, a.weight, c.priority, c.weight);
    PairChain(compare, c.priority, c.weight, b.priority, b.weight, a.priority, a.weight);
    RankIsPairFirst(compare, a, b);
    RankIsPairFirst(compare, b, c);
    RankIsPairFirst(compare, a, c);
    if RankPair(compare, a.priority, a.weight, c.priority, c.weight) == 0 {
      assert RankPair(compare, a.priority, a.weight, b.priority, b.weight) == 0;
      assert RankPair(compare, b.priority, b.weight, c.priority, c.weight) == 0;
      if a.sender != c.sender { StringsChain(a.sender, b.sender, c.sender); }
      if a.sender == c.sender && a.sender != b.sender {
        StringsFlip(a.sender, b.sender);
      }
    }
  }

  lemma RankIsPairFirst<C>(compare: (C, C) -> int, a: Meta<C>, b: Meta<C>)
    ensures var pair := RankPair(compare, a.priority, a.weight, b.priority, b.weight);
            if pair != 0 then Rank(compare, a, b) == pair
            else Rank(compare, a, b) == if a.sender != b.sender then CompareStrings(a.sender, b.sender)
                                        else a.nonce - b.nonce
  {
  }
}
