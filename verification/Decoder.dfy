/** The caching decoder: a ring buffer of hashes beside a map, which must agree with the decoder it
    speeds up. */
module Decoder {
  import opened Types

  /** No two byte strings share a hash. */
  ghost predicate CollisionFree(codec: Codec) {
    forall a, b :: codec.hash(a) == codec.hash(b) ==> a == b
  }

  /** The last `n` elements, or all of them. */
  function Recent(misses: seq<Bytes>, n: nat): (r: seq<Bytes>)
    ensures |r| == if |misses| < n then |misses| else n
  {
    if |misses| <= n then misses else misses[|misses| - n..]
  }

  ghost predicate NoRepeats(s: seq<Bytes>) {
    forall i, j :: 0 <= i < j < |s| ==> s[i] != s[j]
  }

  ghost predicate AllDecode(codec: Codec, s: seq<Bytes>) {
    forall i :: 0 <= i < |s| ==> codec.decode(s[i]).Some?
  }

  /** The map a cache holding these transactions is. */
  function CacheOf(codec: Codec, s: seq<Bytes>): map<string, Tx>
    requires AllDecode(codec, s)
  {
    if s == [] then map[]
    else
      var last := s[|s| - 1];
      CacheOf(codec, s[..|s| - 1])[codec.hash(last) := codec.decode(last).value]
  }

  lemma {:induction false} CacheHolds(codec: Codec, s: seq<Bytes>, raw: Bytes)
    requires CollisionFree(codec) && AllDecode(codec, s)
    ensures codec.hash(raw) in CacheOf(codec, s) <==> raw in s
    ensures raw in s ==> codec.decode(raw) == Some(CacheOf(codec, s)[codec.hash(raw)])
  {
    if s != [] {
      CacheHolds(codec, s[..|s| - 1], raw);
      assert s == s[..|s| - 1] + [s[|s| - 1]];
    }
  }

  lemma {:induction false} CacheSize(codec: Codec, s: seq<Bytes>)
    requires CollisionFree(codec) && AllDecode(codec, s) && NoRepeats(s)
    ensures |CacheOf(codec, s)| == |s|
  {
    if s != [] {
      CacheSize(codec, s[..|s| - 1]);
      CacheHolds(codec, s[..|s| - 1], s[|s| - 1]);
    }
  }

  lemma CachePushed(codec: Codec, s: seq<Bytes>, raw: Bytes)
    requires AllDecode(codec, s) && codec.decode(raw).Some?
    ensures AllDecode(codec, s + [raw])
    ensures CacheOf(codec, s + [raw]) == CacheOf(codec, s)[codec.hash(raw) := codec.decode(raw).value]
  {
    assert (s + [raw])[..|s|] == s;
  }

  lemma {:induction false} CachePurged(codec: Codec, s: seq<Bytes>)
    requires CollisionFree(codec) && AllDecode(codec, s) && s != [] && NoRepeats(s)
    ensures CacheOf(codec, s[1..]) == CacheOf(codec, s) - {codec.hash(s[0])}
  {
    if |s| == 1 {
      assert CacheOf(codec, s[..0]) == map[];
    } else {
      CachePurged(codec, s[..|s| - 1]);
      assert s[1..][..|s| - 2] == s[..|s| - 1][1..];
      assert codec.hash(s[|s| - 1]) != codec.hash(s[0]);
    }
  }

  /** The successful misses after one more call: decoding failures and hits add nothing. */
  function Missed(codec: Codec, maxSize: nat, misses: seq<Bytes>, raw: Bytes): seq<Bytes> {
    if raw in Recent(misses, maxSize) || codec.decode(raw).None? then misses else misses + [raw]
  }

  function Misses(codec: Codec, maxSize: nat, calls: seq<Bytes>): seq<Bytes> {
    if calls == [] then []
    else Missed(codec, maxSize, Misses(codec, maxSize, calls[..|calls| - 1]), calls[|calls| - 1])
  }

  /** In every run of calls the cached transactions are distinct and decodable. */
  lemma {:induction false} CachedAreDistinct(codec: Codec, maxSize: nat, calls: seq<Bytes>)
    ensures NoRepeats(Recent(Misses(codec, maxSize, calls), maxSize))
    ensures AllDecode(codec, Misses(codec, maxSize, calls))
  {
    if calls != [] {
      CachedAreDistinct(codec, maxSize, calls[..|calls| - 1]);
      var before, raw := Misses(codec, maxSize, calls[..|calls| - 1]), calls[|calls| - 1];
      if maxSize > 0 && raw !in Recent(before, maxSize) && codec.decode(raw).Some? { MissKeeps(codec, before, raw, maxSize); }
    }
  }

  /** What stays cached when one more transaction comes in. */
  function Kept(misses: seq<Bytes>, n: nat): (r: seq<Bytes>)
    requires n > 0
  {
    if |misses| < n then misses else Recent(misses, n)[1..]
  }

  lemma MissKeeps(codec: Codec, misses: seq<Bytes>, raw: Bytes, n: nat)
    requires n > 0 && AllDecode(codec, misses) && NoRepeats(Recent(misses, n))
    requires raw !in Recent(misses, n) && codec.decode(raw).Some?
    ensures |Kept(misses, n)| < n
    ensures Recent(misses + [raw], n) == Kept(misses, n) + [raw]
    ensures NoRepeats(Recent(misses + [raw], n))
    ensures AllDecode(codec, Recent(misses, n)) && AllDecode(codec, Kept(misses, n)) && AllDecode(codec, misses + [raw])
  {
    assert Recent(misses + [raw], n) == Kept(misses, n) + [raw];
  }

  lemma Multiple(n: int, d: int)
    requires n > 0
    ensures d >= 1 ==> n * d >= n
    ensures d == 0 ==> n * d == 0
    ensures d <= -1 ==> n * d <= -n
  {
    if d >= 1 {
      assert n * (d - 1) >= 0;
    } else if d <= -1 {
      assert n * (-d - 1) >= 0;
    }
  }

  /** The slot of the ring buffer a running position falls into. */
  function Slot(p: nat, n: nat): (r: nat)
    requires n > 0
    ensures r < n
  {
    p % n
  }

  lemma SameSlot(x: nat, q: int, r: nat, n: nat)
    requires r < n && x == n * q + r
    ensures x % n == r
  {
    var d := x / n - q;
    assert n * d == r - x % n;
    Multiple(n, d);
  }

  lemma SlotAdvances(i: nat, n: nat)
    requires n > 0
    ensures Slot(Slot(i, n) + 1, n) == Slot(i + 1, n)
  {
    var q, r := i / n, i % n;
    if r + 1 < n {
      SameSlot(i + 1, q, r + 1, n);
      SameSlot(r + 1, 0, r + 1, n);
    } else {
      SameSlot(i + 1, q + 1, 0, n);
      SameSlot(n, 1, 0, n);
    }
  }

  lemma SlotsAdd(a: nat, k: nat, n: nat)
    requires n > 0
    ensures Slot(Slot(a, n) + k, n) == Slot(a + k, n)
  {
    var q, r := a / n, a % n;
    var q', r' := (r + k) / n, (r + k) % n;
    assert a + k == n * (q + q') + r' by {
      assert n * (q + q') == n * q + n * q';
    }
    SameSlot(a + k, q + q', r', n);
  }

  /** Places of the buffer that are fewer than `n` apart do not share a slot. */
  lemma SlotsDiffer(a: nat, b: nat, n: nat)
    requires a < b < a + n
    ensures Slot(a, n) != Slot(b, n)
  {
    var d := b / n - a / n;
    assert b - a == n * d + (b % n - a % n);
    Multiple(n, d);
  }

  /** The slots from `start` on name the misses from `start` on, wrapping around. */
  ghost predicate Names(codec: Codec, window: seq<string>, misses: seq<Bytes>, start: nat) {
    forall p :: start <= p < |misses| ==> |window| > 0 && window[Slot(p, |window|)] == codec.hash(misses[p])
  }

  lemma NamesNext(codec: Codec, window: seq<string>, misses: seq<Bytes>, start: nat, raw: Bytes)
    requires Names(codec, window, misses, start) && window != [] && |misses| < start + |window|
    ensures Names(codec, window[Slot(|misses|, |window|) := codec.hash(raw)], misses + [raw], start)
  {
    hide Slot;
    var n, m := |window|, |misses|;
    forall p | start <= p < m + 1 ensures window[Slot(m, n) := codec.hash(raw)][Slot(p, n)] == codec.hash((misses + [raw])[p]) {
      if p < m { SlotsDiffer(p, m, n); }
    }
  }

  datatype Decoded = Decoded(tx: Tx) | DecodeError | Panicked

  class CacheTxDecoder {
    const codec: Codec
    const maxSize: nat
    const window: array<string>
    var cache: map<string, Tx>
    var insertIndex: nat
    var oldestIndex: nat
    /** The transactions decoded on a miss, in order. */
    ghost var misses: seq<Bytes>

    /** The cache is exactly the last misses, and the ring buffer names them oldest first. */
    ghost predicate Valid()
      reads this, window
    {
      && CollisionFree(codec) && AllDecode(codec, misses) && NoRepeats(Recent(misses, maxSize))
      && window.Length == maxSize && (maxSize == 0 ==> misses == [])
      && Shows(misses, Recent(misses, maxSize))
    }

    /** The fields while these are the misses and `cached`, the last of them, is what is cached. */
    ghost predicate Shows(misses: seq<Bytes>, cached: seq<Bytes>)
      requires AllDecode(codec, cached) && |cached| <= |misses|
      reads this, window
    {
      && cache == CacheOf(codec, cached)
      && (window.Length > 0 ==>
            && insertIndex == Slot(|misses|, window.Length)
            && oldestIndex == Slot(|misses| - |cached|, window.Length))
      && Names(codec, window[..], misses, |misses| - |cached|)
    }

    constructor (codec: Codec, maxSize: nat)
      requires CollisionFree(codec)
      ensures Valid() && misses == [] && this.codec == codec && this.maxSize == maxSize && fresh(window)
    {
      this.codec, this.maxSize := codec, maxSize;
      window := new string[maxSize](_ => "");
      cache, insertIndex, oldestIndex, misses := map[], 0, 0, [];
    }

    /** The next slot to fill lies as many slots past the oldest as there are cached transactions. */
    lemma IndicesTogether()
      requires Valid() && maxSize > 0
      ensures insertIndex == (oldestIndex + |cache|) % maxSize
      ensures |cache| == if |misses| < maxSize then |misses| else maxSize
    {
      var cached := Recent(misses, maxSize);
      CacheSize(codec, cached);
      SlotsAdd(|misses| - |cached|, |cached|, maxSize);
    }

    /** The cache answers for exactly the last misses. */
    method Contains(txBytes: Bytes) returns (r: bool)
      requires Valid()
      ensures r <==> txBytes in Recent(misses, maxSize)
    {
      CacheHolds(codec, Recent(misses, maxSize), txBytes);
      r := codec.hash(txBytes) in cache;
    }

    /** With room for at least one transaction the answer is the plain decoder's. Without any, a
        successful decode panics and nothing else does. */
    method Decode(txBytes: Bytes) returns (r: Decoded)
      requires Valid()
      modifies this, window
      ensures Valid()
      ensures r == match codec.decode(txBytes)
                   case None => DecodeError
                   case Some(tx) => if maxSize == 0 then Panicked else Decoded(tx)
      ensures misses == if maxSize == 0 then old(misses) else Missed(codec, maxSize, old(misses), txBytes)
      ensures misses == old(misses) ==>
                cache == old(cache) && insertIndex == old(insertIndex) && oldestIndex == old(oldestIndex) && window[..] == old(window[..])
    {
      var hash := codec.hash(txBytes);
      CacheHolds(codec, Recent(misses, maxSize), txBytes);
      hide Slot, CacheOf, Names, NoRepeats, CollisionFree, AllDecode;
      if hash in cache { return Decoded(cache[hash]); }
      var tx := codec.decode(txBytes);
      if tx.None? { return DecodeError; }
      var stored := Store(hash, tx.value, txBytes);
      r := if stored then Decoded(tx.value) else Panicked;
    }

    /** What Store relies on: the cache holds the recent misses, and one of them has to go exactly when
        there is no room for another. */
    lemma RoomToStore(txBytes: Bytes)
      requires Valid() && txBytes !in Recent(misses, maxSize) && codec.decode(txBytes).Some?
      ensures var cached := Recent(misses, maxSize);
              && AllDecode(codec, cached) && NoRepeats(cached) && |cache| == |cached| <= |misses|
              && cached == misses[|misses| - |cached|..] && Shows(misses, cached)
      ensures |cache| >= maxSize ==> (oldestIndex >= window.Length <==> maxSize == 0)
      ensures maxSize > 0 ==>
                && AllDecode(codec, Kept(misses, maxSize)) && AllDecode(codec, misses + [txBytes])
                && Kept(misses, maxSize) == (if |cache| >= maxSize then Recent(misses, maxSize)[1..] else Recent(misses, maxSize))
                && Recent(misses + [txBytes], maxSize) == Kept(misses, maxSize) + [txBytes]
                && NoRepeats(Recent(misses + [txBytes], maxSize)) && |Kept(misses, maxSize)| < maxSize
    {
      CacheSize(codec, Recent(misses, maxSize));
      hide Slot, CacheOf, Names, CollisionFree;
      if maxSize > 0 {
        MissKeeps(codec, misses, txBytes, maxSize);
        hide NoRepeats, AllDecode;
      }
    }

    /** Caches a transaction decoded on a miss, dropping the oldest when the cache is full. Fails,
        by reading a ring buffer without slots, only when there is no room at all. */
    method Store(hash: string, tx: Tx, txBytes: Bytes) returns (ok: bool)
      requires Valid() && txBytes !in Recent(misses, maxSize)
      requires hash == codec.hash(txBytes) && codec.decode(txBytes) == Some(tx)
      modifies this, window
      ensures Valid() && (ok <==> maxSize > 0)
      ensures ok ==> misses == old(misses) + [txBytes]
      ensures !ok ==> unchanged(this) && window[..] == old(window[..])
    {
      ghost var cached := Recent(misses, maxSize);
      RoomToStore(txBytes);
      hide Slot, CacheOf, Names, CollisionFree, AllDecode, NoRepeats, Recent, Shows, Kept;
      if |cache| >= maxSize {
        if oldestIndex >= window.Length { return false; }
        Purge(cached);
        cached := cached[1..];
      }
      Push(hash, tx, txBytes, cached);
      ok := true;
    }

    /** Drops the oldest transaction. */
    method Purge(ghost cached: seq<Bytes>)
      requires CollisionFree(codec) && AllDecode(codec, cached) && NoRepeats(cached)
      requires 0 < |cached| <= |misses| && cached == misses[|misses| - |cached|..]
      requires window.Length == maxSize > 0 && Shows(misses, cached)
      modifies `cache, `oldestIndex
      ensures Shows(misses, cached[1..])
    {
      hide Slot, CacheOf, AllDecode, NoRepeats;
      var entry := window[oldestIndex];
      CachePurged(codec, cached);
      SlotAdvances(|misses| - |cached|, maxSize);
      assert entry == codec.hash(cached[0]);
      cache := cache - {entry};
      oldestIndex := Slot(oldestIndex + 1, maxSize);
    }

    /** Caches a transaction and names it in the next slot. */
    method Push(hash: string, tx: Tx, ghost txBytes: Bytes, ghost cached: seq<Bytes>)
      requires hash == codec.hash(txBytes) && codec.decode(txBytes) == Some(tx)
      requires AllDecode(codec, cached) && |cached| <= |misses| && |cached| < maxSize
      requires window.Length == maxSize && Shows(misses, cached)
      modifies `cache, `insertIndex, `misses, window
      ensures misses == old(misses) + [txBytes]
      ensures AllDecode(codec, cached + [txBytes]) && Shows(misses, cached + [txBytes])
    {
      CachePushed(codec, cached, txBytes);
      hide Slot, CacheOf, AllDecode;
      NamesNext(codec, window[..], misses, |misses| - |cached|, txBytes);
      SlotAdvances(|misses|, maxSize);
      cache := cache[hash := tx];
      window[insertIndex] := hash;
      insertIndex := Slot(insertIndex + 1, maxSize);
      misses := misses + [txBytes];
    }
  }
}
