/** Exactly which bid an MEV lane puts into a block, and which blocks it accepts. */
module Bids {
  import opened Types
  import opened Proposals
  import opened LaneModel
  import opened MevHandlers

  /** The transactions the bid bundles, decoded. */
  ghost predicate Bundles(cfg: LaneConfig, bid: Tx, bundle: seq<Tx>) {
    && bid.bid.Some? && bid.bid.value.Some?
    && var raw := bid.bid.value.value.transactions;
       |bundle| == |raw| && forall i :: 0 <= i < |raw| ==> cfg.codec.decode(raw[i]) == Some(bundle[i])
  }

  /** Readable, new to the proposal, and together within the lane's limits; totals wrap like Go's
      integers. */
  ghost predicate FitsLimits(cfg: LaneConfig, p: Prop, limit: LaneLimits, txs: seq<Tx>) {
    && (forall i :: 0 <= i < |txs| ==> GetTxInfo(cfg.codec, txs[i]).Some? && GetTxInfo(cfg.codec, txs[i]).value.hash !in p.cache)
    && InfosOf(cfg.codec, txs).Some?
    && WrapInt64(TotalSize(InfosOf(cfg.codec, txs).value)) <= limit.maxTxBytes
    && WrapUint64(TotalGas(InfosOf(cfg.codec, txs).value)) <= limit.maxGasLimit
  }

  /** A bid of the lane with a bundle that holds no bids, which can be included whole. */
  ghost predicate Includable(cfg: LaneConfig, p: Prop, limit: LaneLimits, bid: Tx, bundle: seq<Tx>) {
    cfg.matches(bid) && Bundles(cfg, bid, bundle) && FitsLimits(cfg, p, limit, [bid] + bundle)
  }

  ghost predicate ValidBid(cfg: LaneConfig, p: Prop, limit: LaneLimits, st: State, bid: Tx, bundle: seq<Tx>, after: State) {
    && Includable(cfg, p, limit, bid, bundle) && (forall i :: 0 <= i < |bundle| ==> !cfg.matches(bundle[i]))
    && VerifyAll(cfg, st, [bid] + bundle) == Some(after)
  }

  /** Its ante handler, or that of a bundled transaction, panics before anything else speaks against it. */
  ghost predicate PanicsAt(cfg: LaneConfig, st: State, bid: Tx, bundle: seq<Tx>, n: nat, now: State) {
    && n <= |bundle| && (forall i :: 0 <= i < n ==> !cfg.matches(bundle[i]))
    && VerifyAll(cfg, st, ([bid] + bundle)[..n]) == Some(now) && Panics(cfg, now, ([bid] + bundle)[n])
  }

  ghost predicate IsValid(cfg: LaneConfig, p: Prop, limit: LaneLimits, st: State, bid: Tx) {
    exists bundle, after :: ValidBid(cfg, p, limit, st, bid, bundle, after)
  }

  ghost predicate IsPanicking(cfg: LaneConfig, p: Prop, limit: LaneLimits, st: State, bid: Tx) {
    exists bundle, n: nat, now :: Includable(cfg, p, limit, bid, bundle) && PanicsAt(cfg, st, bid, bundle, n, now)
  }

  // ----- one bid --------------------------------------------------------------------------------

  lemma {:induction false} UnwrapsExactly(codec: Codec, raw: seq<Bytes>)
    ensures Unwrap(codec, raw).Some? <==> forall i :: 0 <= i < |raw| ==> codec.decode(raw[i]).Some?
  {
    if raw != [] { UnwrapsExactly(codec, raw[..|raw| - 1]); }
  }

  lemma OneBundle(cfg: LaneConfig, bid: Tx, a: seq<Tx>, b: seq<Tx>)
    requires Bundles(cfg, bid, a) && Bundles(cfg, bid, b)
    ensures a == b
  {
    var raw := bid.bid.value.value.transactions;
    forall i | 0 <= i < |raw| ensures a[i] == b[i] {
      assert cfg.codec.decode(raw[i]) == Some(a[i]) && cfg.codec.decode(raw[i]) == Some(b[i]);
    }
  }

  lemma OneHash(info: TxWithInfo, hashes: set<string>, cache: set<string>)
    ensures Hashes([info]) == {info.hash}
    ensures (hashes + {info.hash}) * cache == {} <==> hashes * cache == {} && info.hash !in cache
  {
    assert [info][0].hash in Hashes([info]);
    if info.hash in cache { assert info.hash in (hashes + {info.hash}) * cache; }
    if hashes * cache != {} {
      var h :| h in hashes * cache;
      assert h in (hashes + {info.hash}) * cache;
    }
  }

  lemma {:induction false} NewHashesExactly(codec: Codec, txs: seq<Tx>, cache: set<string>)
    ensures InfosOf(codec, txs).Some? <==> forall i :: 0 <= i < |txs| ==> GetTxInfo(codec, txs[i]).Some?
    ensures InfosOf(codec, txs).Some? ==>
              (Hashes(InfosOf(codec, txs).value) * cache == {}
               <==> forall i :: 0 <= i < |txs| ==> GetTxInfo(codec, txs[i]).value.hash !in cache)
  {
    if txs != [] {
      var front, last := txs[..|txs| - 1], txs[|txs| - 1];
      NewHashesExactly(codec, front, cache);
      assert forall i :: 0 <= i < |txs| ==> txs[i] == if i < |front| then front[i] else last;
      if InfosOf(codec, front).Some? && GetTxInfo(codec, last).Some? {
        var info := GetTxInfo(codec, last).value;
        HashesAdd(InfosOf(codec, front).value, [info]);
        OneHash(info, Hashes(InfosOf(codec, front).value), cache);
        hide InfosOf, Hashes, GetTxInfo;
      }
    }
  }

  /** VerifyBidBasic in these terms. */
  lemma BasicExactly(cfg: LaneConfig, p: Prop, limit: LaneLimits, bid: Tx)
    requires cfg.matches(bid)
    ensures forall bundle :: VerifyBidBasic(cfg, bid, p, limit) == Some(bundle) <==> Includable(cfg, p, limit, bid, bundle)
  {
    if BidOf(bid).Some? {
      var raw := BidOf(bid).value.transactions;
      UnwrapsExactly(cfg.codec, raw);
      if Unwrap(cfg.codec, raw).Some? {
        UnwrapEach(cfg.codec, raw);
        var decoded := Unwrap(cfg.codec, raw).value;
        NewHashesExactly(cfg.codec, [bid] + decoded, p.cache);
        assert Bundles(cfg, bid, decoded);
        hide InfosOf, Hashes, Unwrap, GetTxInfo, TotalSize, TotalGas;
        forall bundle ensures VerifyBidBasic(cfg, bid, p, limit) == Some(bundle) <==> Includable(cfg, p, limit, bid, bundle) {
          if Bundles(cfg, bid, bundle) { OneBundle(cfg, bid, bundle, decoded); }
        }
      } else {
        var i :| 0 <= i < |raw| && cfg.codec.decode(raw[i]).None?;
      }
    }
  }

  /** VerifyBundle panics exactly where the first transaction to speak against the bundle panics. */
  lemma {:induction false} BundlePanics(cfg: LaneConfig, st: State, bundle: seq<Tx>)
    ensures VerifyBundle(cfg, st, bundle).Panicked? <==> exists n: nat, now :: StopsAt(cfg, st, bundle, n, now)
  {
    if bundle != [] {
      VerdictOfAnte(cfg, st, bundle[0]);
      var r := VerifyTx(cfg, st, bundle[0]);
      hide VerifyTx, Panics, Passes, Fails;
      if r.Panicked? && !cfg.matches(bundle[0]) {
        assert bundle[..0] == [];
        assert StopsAt(cfg, st, bundle, 0, st);
      }
      if r.Passed? && !cfg.matches(bundle[0]) {
        BundlePanics(cfg, r.state, bundle[1..]);
        if n: nat, now :| StopsAt(cfg, r.state, bundle[1..], n, now) {
          assert bundle[..n + 1][1..] == bundle[1..][..n] && bundle[..n + 1][0] == bundle[0];
          assert forall i :: 0 < i <= n + 1 && i < |bundle| ==> bundle[i] == bundle[1..][i - 1];
          assert StopsAt(cfg, st, bundle, n + 1, now);
        }
      }
      if n: nat, now :| StopsAt(cfg, st, bundle, n, now) {
        assert bundle[..0] == [];
        if n > 0 {
          assert bundle[..n][1..] == bundle[1..][..n - 1] && bundle[..n][0] == bundle[0];
          assert StopsAt(cfg, r.state, bundle[1..], n - 1, now);
        }
      }
    }
  }

  ghost predicate StopsAt(cfg: LaneConfig, st: State, bundle: seq<Tx>, n: nat, now: State) {
    && n < |bundle| && (forall i :: 0 <= i <= n ==> !cfg.matches(bundle[i]))
    && VerifyAll(cfg, st, bundle[..n]) == Some(now) && Panics(cfg, now, bundle[n])
  }

  /** The same with the bid in front. */
  lemma BidPanics(cfg: LaneConfig, st: State, bid: Tx, bundle: seq<Tx>)
    requires BidOf(bid).Some?
    ensures VerifyBidTx(cfg, st, bid, bundle).Panicked? <==> exists n: nat, now :: PanicsAt(cfg, st, bid, bundle, n, now)
  {
    VerdictOfAnte(cfg, st, bid);
    var r, all := VerifyTx(cfg, st, bid), [bid] + bundle;
    hide VerifyTx, Panics, Passes, Fails;
    assert all[..0] == [] && all[0] == bid;
    if r.Panicked? { assert PanicsAt(cfg, st, bid, bundle, 0, st); }
    if r.Passed? {
      BundlePanics(cfg, r.state, bundle);
      if n: nat, now :| StopsAt(cfg, r.state, bundle, n, now) {
        assert all[..n + 1][1..] == bundle[..n] && all[..n + 1][0] == bid && all[n + 1] == bundle[n];
        assert PanicsAt(cfg, st, bid, bundle, n + 1, now);
      }
    }
    if n: nat, now :| PanicsAt(cfg, st, bid, bundle, n, now) {
      if n > 0 {
        assert all[..n][1..] == bundle[..n - 1] && all[..n][0] == bid && all[n] == bundle[n - 1];
        assert StopsAt(cfg, r.state, bundle, n - 1, now);
      }
    }
  }

  /** VerifyBidTx passes exactly when no bundled transaction matches and all of them verify. */
  lemma BidPasses(cfg: LaneConfig, st: State, bid: Tx, bundle: seq<Tx>, after: State)
    requires BidOf(bid).Some?
    ensures VerifyBidTx(cfg, st, bid, bundle) == Passed(after)
            <==> (forall i :: 0 <= i < |bundle| ==> !cfg.matches(bundle[i])) && VerifyAll(cfg, st, [bid] + bundle) == Some(after)
  {
    var r := VerifyTx(cfg, st, bid);
    assert ([bid] + bundle)[1..] == bundle && ([bid] + bundle)[0] == bid;
    if r.Passed? { BundleVerifies(cfg, r.state, bundle); }
    hide VerifyTx, VerifyBundle;
  }

  lemma CandidateExactly(cfg: LaneConfig, p: Prop, limit: LaneLimits, st: State, bid: Tx)
    ensures forall bundle, after :: Consider(cfg, p, limit, st, bid) == Winner(bundle, after) <==> ValidBid(cfg, p, limit, st, bid, bundle, after)
    ensures Consider(cfg, p, limit, st, bid).Winner? <==> IsValid(cfg, p, limit, st, bid)
    ensures Consider(cfg, p, limit, st, bid).Crashed? <==> IsPanicking(cfg, p, limit, st, bid)
  {
    if cfg.matches(bid) {
      BasicExactly(cfg, p, limit, bid);
      var basic := VerifyBidBasic(cfg, bid, p, limit);
      if basic.Some? {
        var decoded := basic.value;
        assert Includable(cfg, p, limit, bid, decoded);
        assert BidOf(bid).Some?;
        BidPanics(cfg, st, bid, decoded);
        hide VerifyBidBasic, VerifyBidTx, FitsLimits, PanicsAt;
        forall bundle, after
          ensures Consider(cfg, p, limit, st, bid) == Winner(bundle, after) <==> ValidBid(cfg, p, limit, st, bid, bundle, after)
        {
          BidPasses(cfg, st, bid, decoded, after);
          if Includable(cfg, p, limit, bid, bundle) { OneBundle(cfg, bid, bundle, decoded); }
        }
        forall bundle | Includable(cfg, p, limit, bid, bundle) ensures bundle == decoded { OneBundle(cfg, bid, bundle, decoded); }
      }
    }
    WinnerHasBundle(cfg, p, limit, st, bid);
  }

  lemma WinnerHasBundle(cfg: LaneConfig, p: Prop, limit: LaneLimits, st: State, bid: Tx)
    ensures var c := Consider(cfg, p, limit, st, bid); c.Winner? ==> c == Winner(c.bundle, c.state)
  {
  }

  // ----- the pool -------------------------------------------------------------------------------

  /** The lane includes the first valid bid of its pool, in selection order, followed by its bundle, and
      removes exactly the bids before it; nothing when there is none. It fails exactly when a bid that
      panics comes first. */
  lemma {:induction false} FirstValidBidIsIncluded(cfg: LaneConfig, p: Prop, limit: LaneLimits, pool: seq<Tx>, st: State) returns (at: nat)
    ensures at <= |pool|
    ensures forall i :: 0 <= i < at ==> !IsValid(cfg, p, limit, st, pool[i]) && !IsPanicking(cfg, p, limit, st, pool[i])
    ensures at < |pool| ==> IsValid(cfg, p, limit, st, pool[at]) || IsPanicking(cfg, p, limit, st, pool[at])
    ensures var r := PrepareMev(cfg, p, limit, pool, st);
            if at == |pool| then r == Selected([], pool, st)
            else if IsPanicking(cfg, p, limit, st, pool[at]) then r.PrepareFailed?
            else && r.Selected? && r.remove == pool[..at] && r.include_ != [] && r.include_[0] == pool[at]
                 && ValidBid(cfg, p, limit, st, pool[at], r.include_[1..], r.state)
  {
    if pool == [] {
      at := 0;
    } else {
      CandidateExactly(cfg, p, limit, st, pool[0]);
      hide Consider, IsValid, IsPanicking, ValidBid;
      match Consider(cfg, p, limit, st, pool[0])
      case Crashed => at := 0;
      case Winner(bundle, after) =>
        at := 0;
        assert ([pool[0]] + bundle)[1..] == bundle;
      case Invalid =>
        var rest := FirstValidBidIsIncluded(cfg, p, limit, pool[1..], st);
        at := rest + 1;
        assert forall i :: 0 < i < at ==> pool[i] == pool[1..][i - 1];
        assert pool[..at] == [pool[0]] + pool[1..][..rest];
    }
  }

  /** Nothing is included if and only if no bid is valid and none panics. */
  lemma NothingIncludedExactly(cfg: LaneConfig, p: Prop, limit: LaneLimits, pool: seq<Tx>, st: State)
    ensures PrepareMev(cfg, p, limit, pool, st).Selected? && PrepareMev(cfg, p, limit, pool, st).include_ == []
            <==> forall i :: 0 <= i < |pool| ==> !IsValid(cfg, p, limit, st, pool[i]) && !IsPanicking(cfg, p, limit, st, pool[i])
  {
    var at := FirstValidBidIsIncluded(cfg, p, limit, pool, st);
    hide IsValid, IsPanicking, ValidBid, PrepareMev;
  }

  // ----- the process handler --------------------------------------------------------------------

  /** The list starts with a bid of the lane and then holds its bundle, byte for byte and free of bids,
      and all of it verifies. */
  ghost predicate StartsWithBid(cfg: LaneConfig, txs: seq<Tx>, st: State, n: nat) {
    && 0 < n <= |txs| && cfg.matches(txs[0]) && txs[0].bid.Some? && txs[0].bid.value.Some?
    && var raw := txs[0].bid.value.value.transactions;
       && n == |raw| + 1
       && (forall i :: 0 <= i < |raw| ==>
             && cfg.codec.decode(raw[i]).Some? && cfg.codec.decode(raw[i]).value.bytes.Some?
             && cfg.codec.decode(raw[i]).value.bytes == txs[i + 1].bytes && !cfg.matches(txs[i + 1]))
       && VerifyAll(cfg, st, txs[..n]).Some?
  }

  /** Exactly which lists the lane accepts, and where it splits them. */
  lemma AcceptsBidsExactly(cfg: LaneConfig, txs: seq<Tx>, st: State)
    ensures ProcessMev(cfg, txs, st).Processed?
            <==> (forall i :: 0 <= i < |txs| ==> !cfg.matches(txs[i])) || exists n: nat :: StartsWithBid(cfg, txs, st, n)
    ensures (forall i :: 0 <= i < |txs| ==> !cfg.matches(txs[i])) ==> ProcessMev(cfg, txs, st) == Processed([], txs, st)
    ensures forall n: nat :: StartsWithBid(cfg, txs, st, n) ==>
              ProcessMev(cfg, txs, st) == Processed(txs[..n], txs[n..], VerifyAll(cfg, st, txs[..n]).value)
  {
    if txs != [] && cfg.matches(txs[0]) && BidOf(txs[0]).Some? {
      var n := |BidOf(txs[0]).value.transactions| + 1;
      if n <= |txs| {
        BidIsAccepted(cfg, txs, st, n);
      }
    } else if txs != [] {
      assert forall i :: 0 < i < |txs| ==> txs[i] == txs[1..][i - 1];
    }
  }

  lemma BidIsAccepted(cfg: LaneConfig, txs: seq<Tx>, st: State, n: nat)
    requires txs != [] && cfg.matches(txs[0]) && BidOf(txs[0]).Some?
    requires n == |BidOf(txs[0]).value.transactions| + 1 <= |txs|
    ensures ProcessMev(cfg, txs, st).Processed? <==> StartsWithBid(cfg, txs, st, n)
    ensures StartsWithBid(cfg, txs, st, n) ==>
              ProcessMev(cfg, txs, st) == Processed(txs[..n], txs[n..], VerifyAll(cfg, st, txs[..n]).value)
  {
    var raw, bundle := BidOf(txs[0]).value.transactions, txs[1..n];
    assert txs[..n] == [txs[0]] + bundle;
    assert forall i :: 0 <= i < |raw| ==> bundle[i] == txs[i + 1];
    SameBytes(cfg, raw, bundle);
    var v := VerifyBidTx(cfg, st, txs[0], bundle);
    hide VerifyBidTx, VerifyAll, BundleMatches;
    if v.Passed? { BidPasses(cfg, st, txs[0], bundle, v.state); }
    if VerifyAll(cfg, st, txs[..n]).Some? { BidPasses(cfg, st, txs[0], bundle, VerifyAll(cfg, st, txs[..n]).value); }
  }

  lemma SameBytes(cfg: LaneConfig, raw: seq<Bytes>, bundle: seq<Tx>)
    requires |raw| == |bundle|
    ensures BundleMatches(cfg.codec, raw, bundle)
            <==> forall i :: 0 <= i < |raw| ==>
                   && cfg.codec.decode(raw[i]).Some? && cfg.codec.decode(raw[i]).value.bytes.Some?
                   && cfg.codec.decode(raw[i]).value.bytes == bundle[i].bytes
  {
    forall i | 0 <= i < |raw|
      ensures SameEncoding(cfg.codec, raw[i], bundle[i])
           <==> && cfg.codec.decode(raw[i]).Some? && cfg.codec.decode(raw[i]).value.bytes.Some?
                && cfg.codec.decode(raw[i]).value.bytes == bundle[i].bytes
    {
    }
  }
}
