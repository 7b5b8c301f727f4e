/** What acceptance by ChainProcessLanes says about a block: it is sorted by lane. */
module Acceptance {
  import opened Types
  import opened Proposals
  import opened LaneModel
  import opened BaseHandlers
  import opened MevHandlers
  import opened Chain

  function Concat(segments: seq<seq<Tx>>): seq<Tx> {
    if segments == [] then [] else segments[0] + Concat(segments[1..])
  }

  ghost predicate DefaultLanes(lanes: seq<Lane>) {
    forall i :: 0 <= i < |lanes| ==> lanes[i].cfg.handlers.DefaultHandlers?
  }

  /** One segment per lane, in registry order; each transaction sits in the segment of the first
      lane that matches it, the lane LanedMempool.Insert would choose. */
  ghost predicate SortedByLane(lanes: seq<Lane>, segments: seq<seq<Tx>>, txs: seq<Tx>) {
    && |segments| == |lanes| && Concat(segments) == txs
    && forall i, k :: 0 <= i < |segments| && 0 <= k < |segments[i]| ==> Route(lanes, segments[i][k]) == i
  }

  /** TxsByLane after the segments: the length of every non-empty one, and nothing else new. */
  function Counted(lanes: seq<Lane>, segments: seq<seq<Tx>>, counts: map<string, nat>): map<string, nat>
    requires |segments| == |lanes|
  {
    if lanes == [] then counts
    else Counted(lanes[1..], segments[1..],
                 if segments[0] == [] then counts else counts[lanes[0].cfg.name := |segments[0]|])
  }

  /** An accepted block is the concatenation of one segment per lane in registry order; the final
      proposal holds the encodings in input order and counts exactly the non-empty segments. */
  lemma {:induction false} AcceptedIsSorted(lanes: seq<Lane>, st: State, p: Prop, txs: seq<Tx>, codec: Codec) returns (segments: seq<seq<Tx>>)
    requires DefaultLanes(lanes) && SameCodec(lanes, codec)
    requires ProcessChain(lanes, st, p, txs).Accepted?
    ensures SortedByLane(lanes, segments, txs)
    ensures InfosOf(codec, txs).Some?
    ensures var q := ProcessChain(lanes, st, p, txs).prop;
            && q.txs == p.txs + TxBytesOf(InfosOf(codec, txs).value)
            && q.txsByLane == Counted(lanes, segments, p.txsByLane)
  {
    if lanes == [] {
      segments := [];
      assert p.txs + [] == p.txs;
    } else {
      TailCodec(lanes, codec);
      assert DefaultLanes(lanes[1..]);
      if txs == [] {
        var rest := AcceptedIsSorted(lanes[1..], st, p, txs, codec);
        segments := [[]] + rest;
        ConsSegment(lanes, [], rest, txs);
      } else {
        var r := Process(lanes[0], txs, st);
        ProcessSound(lanes[0].cfg, txs, 0, st);
        var p' := Update(p, lanes[0].cfg.name, lanes[0].cfg.ratio, InfosOf(codec, r.fromLane).value).value;
        var rest := AcceptedIsSorted(lanes[1..], r.state, p', r.remaining, codec);
        segments := [r.fromLane] + rest;
        assert r.fromLane[0..] == r.fromLane;
        ConsSegment(lanes, r.fromLane, rest, r.remaining);
        SegmentEffect(lanes[0], p, r.fromLane, codec);
        JoinAppends(codec, p.txs, p'.txs, ProcessChain(lanes, st, p, txs).prop.txs, r.fromLane, r.remaining);
      }
    }
  }

  lemma SegmentEffect(lane: Lane, p: Prop, segment: seq<Tx>, codec: Codec)
    requires InfosOf(codec, segment).Some?
    requires Update(p, lane.cfg.name, lane.cfg.ratio, InfosOf(codec, segment).value).Some?
    ensures var p' := Update(p, lane.cfg.name, lane.cfg.ratio, InfosOf(codec, segment).value).value;
            && p'.txs == p.txs + TxBytesOf(InfosOf(codec, segment).value)
            && p'.txsByLane == if segment == [] then p.txsByLane else p.txsByLane[lane.cfg.name := |segment|]
  {
    InfosLength(codec, segment);
    if segment == [] { assert p.txs + [] == p.txs; }
  }

  lemma ConsSegment(lanes: seq<Lane>, first: seq<Tx>, rest: seq<seq<Tx>>, remaining: seq<Tx>)
    requires lanes != [] && SortedByLane(lanes[1..], rest, remaining)
    requires AllMatch(lanes[0].cfg, first) && NoneMatch(lanes[0].cfg, remaining)
    ensures SortedByLane(lanes, [first] + rest, first + remaining)
  {
    var segments := [first] + rest;
    assert segments[1..] == rest;
    forall i, k | 0 <= i < |segments| && 0 <= k < |segments[i]| ensures Route(lanes, segments[i][k]) == i {
      if i > 0 {
        assert Route(lanes[1..], rest[i - 1][k]) == i - 1;
        InConcat(rest, i - 1, k);
      }
    }
  }

  lemma {:induction false} InConcat(segments: seq<seq<Tx>>, i: nat, k: nat)
    requires i < |segments| && k < |segments[i]|
    ensures segments[i][k] in Concat(segments)
  {
    if i > 0 { InConcat(segments[1..], i - 1, k); }
  }

  // ----- an MEV lane in front -------------------------------------------------------------------

  /** With an MEV lane ahead of default lanes an accepted block starts with one bid and exactly its
      bundle, or holds nothing the MEV lane matches; what follows is sorted over the other lanes. */
  lemma AcceptedStartsWithBid(lanes: seq<Lane>, st: State, p: Prop, txs: seq<Tx>, codec: Codec)
      returns (bundle: seq<Tx>, segments: seq<seq<Tx>>)
    requires lanes != [] && lanes[0].cfg.handlers.MevHandlers? && DefaultLanes(lanes[1..]) && SameCodec(lanes, codec)
    requires ProcessChain(lanes, st, p, txs).Accepted?
    ensures txs == bundle + Concat(segments)
    ensures BidWithBundle(lanes[0].cfg, bundle) || (bundle == [] && NoneMatch(lanes[0].cfg, txs))
    ensures SortedByLane(lanes[1..], segments, Concat(segments))
    ensures InfosOf(codec, txs).Some?
    ensures var q := ProcessChain(lanes, st, p, txs).prop;
            && q.txs == p.txs + TxBytesOf(InfosOf(codec, txs).value)
            && q.txsByLane == Counted(lanes, [bundle] + segments, p.txsByLane)
  {
    TailCodec(lanes, codec);
    if txs == [] {
      bundle := [];
      segments := AcceptedIsSorted(lanes[1..], st, p, txs, codec);
    } else {
      var r := Process(lanes[0], txs, st);
      ProcessMevSound(lanes[0].cfg, txs, st);
      bundle := r.fromLane;
      var p' := Update(p, lanes[0].cfg.name, lanes[0].cfg.ratio, InfosOf(codec, bundle).value).value;
      segments := AcceptedIsSorted(lanes[1..], r.state, p', r.remaining, codec);
      SegmentEffect(lanes[0], p, bundle, codec);
      JoinAppends(codec, p.txs, p'.txs, ProcessChain(lanes, st, p, txs).prop.txs, bundle, r.remaining);
    }
    assert ([bundle] + segments)[1..] == segments;
  }

  // ----- a negative size limit -----------------------------------------------------------------

  /** Consensus may set a negative size limit, meaning none; these lanes take it literally. Under one
      they accept the empty block and no other whose size fits an int64. */
  lemma {:induction false} NegativeLimitAcceptsOnlyEmpty(lanes: seq<Lane>, st: State, p: Prop, txs: seq<Tx>)
    requires forall i :: 0 <= i < |lanes| ==> !lanes[i].cfg.handlers.CustomHandlers?
    requires p.blockSize == 0 && p.maxBlockSize < 0 && EncodedSize(txs) < TWO_TO_63
    ensures ProcessChain(lanes, st, p, txs).Accepted? <==> txs == []
  {
    if lanes != [] {
      if txs == [] {
        NegativeLimitAcceptsOnlyEmpty(lanes[1..], st, p, txs);
      } else {
        var lane := lanes[0];
        assert !lane.cfg.handlers.CustomHandlers?;
        var r := Process(lane, txs, st);
        if r.Processed? && InfosOf(lane.cfg.codec, r.fromLane).Some? {
          SplitsOff(lane, txs, st);
          hide Process, InfosOf, Update, EncodedSize;
          EncodedSizeAdds(r.fromLane, r.remaining);
          NegativeLimitRefuses(lane, p, r.fromLane);
          if r.fromLane == [] {
            assert r.remaining == txs;
            NegativeLimitAcceptsOnlyEmpty(lanes[1..], r.state, p, txs);
          }
        }
      }
    }
  }

  /** UpdateProposal under a negative limit refuses every contribution whose size does not wrap. */
  lemma NegativeLimitRefuses(lane: Lane, p: Prop, segment: seq<Tx>)
    requires p.blockSize == 0 && p.maxBlockSize < 0 && EncodedSize(segment) < TWO_TO_63
    requires InfosOf(lane.cfg.codec, segment).Some?
    ensures var r := Update(p, lane.cfg.name, lane.cfg.ratio, InfosOf(lane.cfg.codec, segment).value);
            if segment == [] then r == Some(p) else r.None?
  {
    InfosLength(lane.cfg.codec, segment);
    SizeIsEncoded(lane.cfg.codec, segment);
  }
}
