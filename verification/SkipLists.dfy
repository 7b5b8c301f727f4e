/** The ordered, duplicate-free lists the mempool is built from. A skip list is modelled by the
    sequence of its entries from front to back. */
module SkipLists {

  datatype Entry<+K, +V> = Entry(key: K, value: V)

  /** Comparators: negative when the first key comes first, zero when the keys are the same. */
  ghost predicate TotalPreorder<K(!new)>(cmp: (K, K) -> int) {
    && (forall a, b :: Antisymmetric(cmp, a, b))
    && (forall a, b, c :: Transitive(cmp, a, b, c))
  }

  ghost predicate Antisymmetric<K>(cmp: (K, K) -> int, a: K, b: K) {
    cmp(a, b) < 0 <==> cmp(b, a) > 0
  }

  ghost predicate Transitive<K>(cmp: (K, K) -> int, a: K, b: K, c: K) {
    cmp(a, b) <= 0 && cmp(b, c) <= 0 ==> cmp(a, c) <= 0
  }

  lemma Before<K(!new)>(cmp: (K, K) -> int, a: K, b: K, c: K)
    requires TotalPreorder(cmp)
    requires cmp(a, b) <= 0 && cmp(b, c) <= 0
    ensures cmp(a, c) <= 0
    ensures cmp(a, b) < 0 || cmp(b, c) < 0 ==> cmp(a, c) < 0
  {
    assert Transitive(cmp, a, b, c);
    assert Antisymmetric(cmp, a, c) && Antisymmetric(cmp, c, a);
    assert Antisymmetric(cmp, b, a) && Antisymmetric(cmp, c, b);
    assert Antisymmetric(cmp, a, b) && Antisymmetric(cmp, b, c);
    assert Transitive(cmp, c, a, b) && Transitive(cmp, b, c, a);
  }

  ghost predicate Sorted<K(!new), V>(cmp: (K, K) -> int, l: seq<Entry<K, V>>) {
    forall i, j :: 0 <= i < j < |l| ==> cmp(l[i].key, l[j].key) < 0
  }

  /** Stores `value` under `key`. On an equal key the value is replaced; whether the stored key
      is replaced too is the library's choice, here `replaceKey`. */
  function Set<K, V>(cmp: (K, K) -> int, l: seq<Entry<K, V>>, key: K, value: V, replaceKey: bool): (r: seq<Entry<K, V>>)
    ensures |r| <= |l| + 1
  {
    if l == [] then [Entry(key, value)]
    else
      var c := cmp(key, l[0].key);
      if c < 0 then [Entry(key, value)] + l
      else if c == 0 then [Entry(if replaceKey then key else l[0].key, value)] + l[1..]
      else [l[0]] + Set(cmp, l[1..], key, value, replaceKey)
  }

  /** Removes the entry whose key equals `key`, if there is one. */
  function Remove<K, V>(cmp: (K, K) -> int, l: seq<Entry<K, V>>, key: K): (r: seq<Entry<K, V>>)
    ensures |r| <= |l|
  {
    if l == [] then []
    else if cmp(key, l[0].key) == 0 then l[1..]
    else [l[0]] + Remove(cmp, l[1..], key)
  }

  lemma {:induction false} SetFresh<K(!new), V>(cmp: (K, K) -> int, l: seq<Entry<K, V>>, key: K, value: V, replaceKey: bool)
    returns (at: nat)
    requires forall e :: e in l ==> cmp(key, e.key) != 0
    ensures at <= |l|
    ensures Set(cmp, l, key, value, replaceKey) == l[..at] + [Entry(key, value)] + l[at..]
    ensures at > 0 ==> cmp(key, l[at - 1].key) > 0
    ensures at < |l| ==> cmp(key, l[at].key) < 0
  {
    if l == [] || cmp(key, l[0].key) < 0 {
      at := 0;
    } else {
      assert l[0] in l;
      var tailAt := SetFresh(cmp, l[1..], key, value, replaceKey);
      at := tailAt + 1;
      assert l[..at] + [Entry(key, value)] + l[at..]
          == [l[0]] + (l[1..][..tailAt] + [Entry(key, value)] + l[1..][tailAt..]);
    }
  }

  lemma {:induction false} SetPresent<K(!new), V>(cmp: (K, K) -> int, l: seq<Entry<K, V>>, key: K, value: V, replaceKey: bool, at: nat)
    requires TotalPreorder(cmp) && Sorted(cmp, l)
    requires at < |l| && cmp(key, l[at].key) == 0
    ensures Set(cmp, l, key, value, replaceKey)
         == l[at := Entry(if replaceKey then key else l[at].key, value)]
  {
    if at > 0 {
      OnlyMatch(cmp, l, key, at, 0);
      SetPresent(cmp, l[1..], key, value, replaceKey, at - 1);
    }
  }

  lemma {:induction false} RemovePresent<K(!new), V>(cmp: (K, K) -> int, l: seq<Entry<K, V>>, key: K, at: nat)
    requires TotalPreorder(cmp) && Sorted(cmp, l)
    requires at < |l| && cmp(key, l[at].key) == 0
    ensures Remove(cmp, l, key) == l[..at] + l[at + 1..]
  {
    if at > 0 {
      OnlyMatch(cmp, l, key, at, 0);
      RemovePresent(cmp, l[1..], key, at - 1);
      WithoutTail(l, at);
      hide TotalPreorder, Sorted;
    }
  }

  lemma WithoutTail<K, V>(l: seq<Entry<K, V>>, at: nat)
    requires 0 < at < |l|
    ensures l[..at] + l[at + 1..] == [l[0]] + (l[1..][..at - 1] + l[1..][at..])
  {
  }

  /** An entry in front of the one that equals `key` comes before `key`. */
  lemma OnlyMatch<K(!new), V>(cmp: (K, K) -> int, l: seq<Entry<K, V>>, key: K, at: nat, i: nat)
    requires TotalPreorder(cmp) && Sorted(cmp, l)
    requires i < at < |l| && cmp(key, l[at].key) == 0
    ensures cmp(l[i].key, key) < 0 && cmp(key, l[i].key) > 0
  {
    assert cmp(l[i].key, l[at].key) < 0;
    assert Antisymmetric(cmp, key, l[at].key) && Antisymmetric(cmp, l[at].key, key);
    Before(cmp, l[i].key, l[at].key, key);
    assert Antisymmetric(cmp, l[i].key, key);
  }

  lemma FreshKeepsSorted<K(!new), V>(cmp: (K, K) -> int, l: seq<Entry<K, V>>, entry: Entry<K, V>, at: nat)
    requires TotalPreorder(cmp) && Sorted(cmp, l) && at <= |l|
    requires at > 0 ==> cmp(entry.key, l[at - 1].key) > 0
    requires at < |l| ==> cmp(entry.key, l[at].key) < 0
    ensures Sorted(cmp, l[..at] + [entry] + l[at..])
  {
    forall i | 0 <= i < at ensures cmp(l[i].key, entry.key) < 0 {
      assert Antisymmetric(cmp, l[at - 1].key, entry.key);
      if i < at - 1 { Before(cmp, l[i].key, l[at - 1].key, entry.key); }
    }
    forall i | at <= i < |l| ensures cmp(entry.key, l[i].key) < 0 {
      if i > at { Before(cmp, entry.key, l[at].key, l[i].key); }
    }
  }

  lemma RemovalKeepsSorted<K(!new), V>(cmp: (K, K) -> int, l: seq<Entry<K, V>>, at: nat)
    requires Sorted(cmp, l) && at < |l|
    ensures Sorted(cmp, l[..at] + l[at + 1..])
  {
  }

  /** Replacing an entry by one with an equal key keeps the list in order. */
  lemma ReplacementKeepsSorted<K(!new), V>(cmp: (K, K) -> int, l: seq<Entry<K, V>>, entry: Entry<K, V>, at: nat)
    requires TotalPreorder(cmp) && Sorted(cmp, l) && at < |l|
    requires cmp(entry.key, l[at].key) == 0
    ensures Sorted(cmp, l[at := entry])
  {
    var r := l[at := entry];
    assert Antisymmetric(cmp, entry.key, l[at].key) && Antisymmetric(cmp, l[at].key, entry.key);
    forall i, j | 0 <= i < j < |r| ensures cmp(r[i].key, r[j].key) < 0 {
      assert cmp(l[i].key, l[j].key) < 0;
      if i == at { Before(cmp, entry.key, l[at].key, l[j].key); }
      if j == at { Before(cmp, l[i].key, l[at].key, entry.key); }
    }
  }

  // ----- the library's contract, as the mempool uses it -----------------------------------

  /** Setting a new key adds exactly that entry and keeps the order. */
  lemma SetNew<K(!new), V>(cmp: (K, K) -> int, l: seq<Entry<K, V>>, key: K, value: V, replaceKey: bool)
    requires TotalPreorder(cmp) && Sorted(cmp, l)
    requires forall e :: e in l ==> cmp(key, e.key) != 0
    ensures var r := Set(cmp, l, key, value, replaceKey);
            && Sorted(cmp, r) && |r| == |l| + 1
            && forall e :: e in r <==> e in l || e == Entry(key, value)
  {
    var at := SetFresh(cmp, l, key, value, replaceKey);
    FreshKeepsSorted(cmp, l, Entry(key, value), at);
    assert l == l[..at] + l[at..];
  }

  /** Setting a stored key replaces exactly that entry and keeps the order. */
  lemma SetStored<K(!new), V>(cmp: (K, K) -> int, l: seq<Entry<K, V>>, key: K, value: V, replaceKey: bool, stored: Entry<K, V>)
    requires TotalPreorder(cmp) && Sorted(cmp, l)
    requires stored in l && cmp(key, stored.key) == 0
    ensures var r := Set(cmp, l, key, value, replaceKey);
            && Sorted(cmp, r) && |r| == |l|
            && forall e :: e in r <==> (e in l && e != stored) || e == Entry(if replaceKey then key else stored.key, value)
  {
    var at :| 0 <= at < |l| && l[at] == stored;
    SetPresent(cmp, l, key, value, replaceKey, at);
    var n := Entry(if replaceKey then key else stored.key, value);
    assert Antisymmetric(cmp, stored.key, stored.key);
    ReplacementKeepsSorted(cmp, l, n, at);
    var r := l[at := n];
    assert r[at] == n;
    forall e | e in r ensures (e in l && e != stored) || e == n {
      var k :| 0 <= k < |r| && r[k] == e;
      if k != at { DifferentEntries(cmp, l, k, at); }
    }
    forall e | e in l && e != stored ensures e in r {
      var k :| 0 <= k < |l| && l[k] == e;
      assert r[k] == e;
    }
  }

  /** Removing a stored key removes exactly that entry and keeps the order. */
  lemma RemoveStored<K(!new), V>(cmp: (K, K) -> int, l: seq<Entry<K, V>>, key: K, stored: Entry<K, V>)
    requires TotalPreorder(cmp) && Sorted(cmp, l)
    requires stored in l && cmp(key, stored.key) == 0
    ensures var r := Remove(cmp, l, key);
            && Sorted(cmp, r) && |r| == |l| - 1
            && forall e :: e in r <==> e in l && e != stored
  {
    var at :| 0 <= at < |l| && l[at] == stored;
    RemovePresent(cmp, l, key, at);
    RemovalKeepsSorted(cmp, l, at);
    forall e ensures e in l[..at] + l[at + 1..] <==> e in l && e != stored {
      WithoutOne(cmp, l, at, e);
    }
  }

  lemma WithoutOne<K(!new), V>(cmp: (K, K) -> int, l: seq<Entry<K, V>>, at: nat, e: Entry<K, V>)
    requires TotalPreorder(cmp) && Sorted(cmp, l) && at < |l|
    ensures e in l[..at] + l[at + 1..] <==> e in l && e != l[at]
  {
    assert l == l[..at] + [l[at]] + l[at + 1..];
    if e in l[..at] {
      var k :| 0 <= k < at && l[k] == e;
      DifferentEntries(cmp, l, k, at);
    }
    if e in l[at + 1..] {
      var k :| 0 <= k < |l| - at - 1 && l[at + 1..][k] == e;
      DifferentEntries(cmp, l, at + 1 + k, at);
    }
  }

  lemma DifferentEntries<K(!new), V>(cmp: (K, K) -> int, l: seq<Entry<K, V>>, i: nat, j: nat)
    requires TotalPreorder(cmp) && Sorted(cmp, l)
    requires i < |l| && j < |l| && i != j
    ensures l[i] != l[j]
  {
    assert cmp(l[i].key, l[j].key) < 0 || cmp(l[j].key, l[i].key) < 0;
    assert Antisymmetric(cmp, l[i].key, l[i].key);
  }
}
