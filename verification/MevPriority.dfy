/** How the MEV lane ranks bids: the printed coin is the priority, and two priorities are parsed back
    and compared denomination by denomination. That is no total preorder over all strings; it is one
    exactly as long as the bids stay within one denomination. */
module MevPriority {
  import opened Types
  import opened SkipLists
  import opened Ordering
  import opened PriorityIndex
  import opened Iteration
  import opened Ranking
  import opened MempoolRuns
  import opened Merge
  import opened PriorityMempool
  import opened LaneModel

  /** Amounts by denomination. */
  type Coins = map<string, nat>

  datatype Coin = Coin(denom: string, amount: nat)

  /** The coins library: a coin's text, and reading coins from a text, where None is Go's nil. */
  datatype CoinSyntax = CoinSyntax(show: Coin -> string, parse: string -> Option<Coins>)

  /** Coins.IsAllGT: some coins, and strictly more of every denomination of the other side. */
  predicate AllGT(a: Coins, b: Coins) {
    a != map[] && forall d :: d in b ==> d in a && a[d] > b[d]
  }

  function CompareBids(syntax: CoinSyntax, a: string, b: string): int {
    var aCoins, bCoins := syntax.parse(a), syntax.parse(b);
    if aCoins.None? && bCoins.None? then 0
    else if aCoins.None? then -1
    else if bCoins.None? then 1
    else if AllGT(aCoins.value, bCoins.value) then 1
    else if AllGT(bCoins.value, aCoins.value) then -1
    else 0
  }

  /** GetTxPriority: nothing for a transaction that is no bid or bids no coin. */
  function BidText(syntax: CoinSyntax, coinOf: Tx -> Option<Coin>, tx: Tx): string {
    if tx.bid.None? || tx.bid.value.None? || coinOf(tx).None? then "" else syntax.show(coinOf(tx).value)
  }

  /** The text of a bid's priority. */
  function TextOf(p: Priority): string {
    if p.Bid? then p.coins else ""
  }

  function MevTxPriority(syntax: CoinSyntax, coinOf: Tx -> Option<Coin>): TxPriority<Priority> {
    TxPriority(tx => Bid(BidText(syntax, coinOf, tx)), (a: Priority, b: Priority) => CompareBids(syntax, TextOf(a), TextOf(b)), Bid(""), Bid(""))
  }

  /** The text parses to no coins, or to coins of these denominations only. */
  predicate Over(syntax: CoinSyntax, denoms: set<string>, text: string) {
    syntax.parse(text).Some? ==> syntax.parse(text).value.Keys <= denoms
  }

  ghost function BidsOver(syntax: CoinSyntax, denoms: set<string>): iset<Priority> {
    iset p | Over(syntax, denoms, TextOf(p))
  }

  /** Every positive amount of the denomination prints to a text that parses back to it. */
  ghost predicate PrintsBack(syntax: CoinSyntax, denom: string) {
    forall n: nat :: n > 0 ==> syntax.parse(syntax.show(Coin(denom, n))) == Some(map[denom := n])
  }

  /** The place of a text among bids in one denomination: no coins, empty coins, then by amount. */
  function Place(syntax: CoinSyntax, denom: string, text: string): int {
    match syntax.parse(text)
    case None => -2
    case Some(coins) => if denom in coins then coins[denom] else -1
  }

  lemma ComparesPlaces(syntax: CoinSyntax, denom: string, a: string, b: string)
    requires Over(syntax, {denom}, a) && Over(syntax, {denom}, b)
    ensures CompareBids(syntax, a, b) < 0 <==> Place(syntax, denom, a) < Place(syntax, denom, b)
    ensures CompareBids(syntax, a, b) > 0 <==> Place(syntax, denom, a) > Place(syntax, denom, b)
  {
    if syntax.parse(a).Some? && syntax.parse(b).Some? {
      var x, y := syntax.parse(a).value, syntax.parse(b).value;
      assert x == map[] <==> denom !in x by { if denom !in x { assert x.Keys == {}; } }
      assert y == map[] <==> denom !in y by { if denom !in y { assert y.Keys == {}; } }
    }
  }

  /** Three bids in two denominations: the first and the last tie with the middle one, yet the first
      is above the last. */
  lemma TwoDenominationsDoNotRank(syntax: CoinSyntax, d: string, e: string)
    requires d != e && PrintsBack(syntax, d) && PrintsBack(syntax, e)
    ensures var high, other, low := syntax.show(Coin(d, 5)), syntax.show(Coin(e, 3)), syntax.show(Coin(d, 3));
            && CompareBids(syntax, high, other) == 0 && CompareBids(syntax, other, low) == 0
            && CompareBids(syntax, high, low) == 1
  {
    var high, other, low: Coins := map[d := 5], map[e := 3], map[d := 3];
    assert d in high && d in low && e in other;
    assert d !in other && e !in high && e !in low;
  }

  /** The bids over some denominations are totally preordered if and only if there is at most one. */
  lemma RanksExactlyOneDenomination(syntax: CoinSyntax, coinOf: Tx -> Option<Coin>, denoms: set<string>)
    requires forall d :: d in denoms ==> PrintsBack(syntax, d)
    ensures PreorderOn(MevTxPriority(syntax, coinOf).compare, BidsOver(syntax, denoms)) <==> |denoms| <= 1
  {
    var d := if denoms == {} then "" else var d :| d in denoms; d;
    if denoms <= {d} {
      assert |denoms| <= |{d}| by { Fewer(denoms, {d}); }
      assert BidsOver(syntax, denoms) <= BidsOver(syntax, {d});
      OneDenominationRanks(syntax, coinOf, d);
    } else {
      var e :| e in denoms && e != d;
      assert |denoms| >= |{d, e}| by { Fewer({d, e}, denoms); }
      TwoDenominationsDoNotRank(syntax, d, e);
      var cmp := MevTxPriority(syntax, coinOf).compare;
      var high, other, low := Bid(syntax.show(Coin(d, 5))), Bid(syntax.show(Coin(e, 3))), Bid(syntax.show(Coin(d, 3)));
      assert high in BidsOver(syntax, denoms) && other in BidsOver(syntax, denoms) && low in BidsOver(syntax, denoms);
      assert cmp(high, other) == 0 && cmp(other, low) == 0 && cmp(high, low) == 1;
      assert !Transitive(cmp, high, other, low);
    }
  }

  lemma {:induction false} Fewer(some: set<string>, all: set<string>)
    requires some <= all
    ensures |some| <= |all|
  {
    if some != {} {
      var d :| d in some;
      Fewer(some - {d}, all - {d});
    }
  }

  lemma OneDenominationRanks(syntax: CoinSyntax, coinOf: Tx -> Option<Coin>, denom: string)
    ensures PreorderOn(MevTxPriority(syntax, coinOf).compare, BidsOver(syntax, {denom}))
  {
    var cmp, dom := MevTxPriority(syntax, coinOf).compare, BidsOver(syntax, {denom});
    forall a, b | a in dom && b in dom ensures Antisymmetric(cmp, a, b) {
      ComparesPlaces(syntax, denom, TextOf(a), TextOf(b));
      ComparesPlaces(syntax, denom, TextOf(b), TextOf(a));
    }
    forall a, b, c | a in dom && b in dom && c in dom ensures Transitive(cmp, a, b, c) {
      ComparesPlaces(syntax, denom, TextOf(a), TextOf(b));
      ComparesPlaces(syntax, denom, TextOf(b), TextOf(c));
      ComparesPlaces(syntax, denom, TextOf(a), TextOf(c));
    }
  }

  /** Every bid a run brings in is in this denomination. */
  predicate RunBidsIn(syntax: CoinSyntax, coinOf: Tx -> Option<Coin>, ops: seq<Op>, denom: string) {
    Over(syntax, {denom}, "") && forall i :: 0 <= i < |ops| && ops[i].Insert? ==> Over(syntax, {denom}, BidText(syntax, coinOf, ops[i].tx))
  }

  /** The MEV lane's pool after any run of bids in one denomination: every transaction is selected
      exactly once, and neighbours pass the order check. */
  lemma MevRunSelection(cfg: Config<Priority>, syntax: CoinSyntax, coinOf: Tx -> Option<Coin>, ops: seq<Op>, denom: string)
    requires cfg.txPriority == MevTxPriority(syntax, coinOf) && RunBidsIn(syntax, coinOf, ops, denom)
    requires cfg.replaceKey || RunKeepsPriorities(cfg, ops)
    ensures var r := Selection(cfg.txPriority, Run(cfg, ops));
            var pool := PlainRun(cfg, ops);
            && (forall n :: n in r ==> IdOf(n.key) in pool && pool[IdOf(n.key)] == n.value)
            && (forall id :: id in pool ==> pool[id] in Values(r))
            && (forall i, j :: 0 <= i < j < |r| ==> IdOf(r[i].key) != IdOf(r[j].key))
            && (forall i :: 0 <= i < |r| - 1 ==> AcceptsPair(cfg.txPriority, Values(r)[i], Values(r)[i + 1]))
  {
    hide *;
    RunOfOneDenominationRanks(cfg.txPriority, syntax, coinOf, ops, denom);
    RunSelection(cfg, ops);
  }

  lemma RunOfOneDenominationRanks(tp: TxPriority<Priority>, syntax: CoinSyntax, coinOf: Tx -> Option<Coin>, ops: seq<Op>, denom: string)
    requires tp == MevTxPriority(syntax, coinOf) && RunBidsIn(syntax, coinOf, ops, denom)
    ensures PreorderOn(tp.compare, RunPriorities(tp, ops))
  {
    OneDenominationRanks(syntax, coinOf, denom);
    assert RunPriorities(tp, ops) <= BidsOver(syntax, {denom}) by {
      forall c | c in RunPriorities(tp, ops) ensures c in BidsOver(syntax, {denom}) { assert Brings(tp, ops, c); }
    }
    FewerRank(tp.compare, BidsOver(syntax, {denom}), RunPriorities(tp, ops));
  }

  /** In a mempool object holding bids of one denomination, another such bid can be inserted and leaves
      it so; the empty mempool is one. */
  lemma BidCanBeRanked(mempool: PriorityNonceMempool<Priority>, syntax: CoinSyntax, coinOf: Tx -> Option<Coin>, denom: string, tx: Tx)
    requires mempool.Valid() && mempool.cfg.txPriority == MevTxPriority(syntax, coinOf)
    requires Occurring(mempool.cfg.txPriority, mempool.contents) <= BidsOver(syntax, {denom})
    requires Over(syntax, {denom}, BidText(syntax, coinOf, tx))
    ensures mempool.CanRank(tx)
    ensures Occurring(mempool.cfg.txPriority, StepContents(mempool.cfg, mempool.State(), mempool.contents, Op.Insert(tx))) <= BidsOver(syntax, {denom})
  {
    var cfg, ix, m, op := mempool.cfg, mempool.State(), mempool.contents, Op.Insert(tx);
    OneDenominationRanks(syntax, coinOf, denom);
    FewerRank(cfg.txPriority.compare, BidsOver(syntax, {denom}), Mentioned(cfg.txPriority, m, op));
    hide StepContents, Agree, Occurring;
    StepRefines(cfg, ix, m, op);
  }

  /** An empty mempool can be built with the MEV comparison: the empty text ties with itself. */
  lemma EmptyMempoolRanks(syntax: CoinSyntax, coinOf: Tx -> Option<Coin>)
    ensures PreorderOn(MevTxPriority(syntax, coinOf).compare, iset{Bid("")})
  {
    var cmp := MevTxPriority(syntax, coinOf).compare;
    assert cmp(Bid(""), Bid("")) == 0;
  }

  // ----- the order of the bids ------------------------------------------------------------------

  /** A bid of a positive amount of the denomination. */
  ghost predicate BidsIn(coinOf: Tx -> Option<Coin>, denom: string, tx: Tx) {
    && tx.bid.Some? && tx.bid.value.Some?
    && coinOf(tx).Some? && coinOf(tx).value.denom == denom && coinOf(tx).value.amount > 0
  }

  /** Between bids in one denomination the comparison is that of the amounts. */
  lemma ComparesAmounts(syntax: CoinSyntax, coinOf: Tx -> Option<Coin>, denom: string, a: Tx, b: Tx)
    requires PrintsBack(syntax, denom) && BidsIn(coinOf, denom, a) && BidsIn(coinOf, denom, b)
    ensures var tp := MevTxPriority(syntax, coinOf);
            var c := tp.compare(tp.getTxPriority(a), tp.getTxPriority(b));
            var x, y := coinOf(a).value.amount, coinOf(b).value.amount;
            c == if x > y then 1 else if x < y then -1 else 0
  {
    var x, y := coinOf(a).value.amount, coinOf(b).value.amount;
    assert coinOf(a).value == Coin(denom, x) && coinOf(b).value == Coin(denom, y);
    var s, t := BidText(syntax, coinOf, a), BidText(syntax, coinOf, b);
    assert syntax.parse(s) == Some(map[denom := x]) && syntax.parse(t) == Some(map[denom := y]);
    assert denom in map[denom := x] && denom in map[denom := y];
  }

  /** After any run of bids in one denomination without stale keys, whatever bid is selected is at least
      as high as every other bidder's next one. */
  lemma BidsDescend(cfg: Config<Priority>, syntax: CoinSyntax, coinOf: Tx -> Option<Coin>, ops: seq<Op>, denom: string, i: nat, j: nat)
    requires cfg.txPriority == MevTxPriority(syntax, coinOf) && RunBidsIn(syntax, coinOf, ops, denom) && PrintsBack(syntax, denom)
    requires cfg.replaceKey || RunKeepsPriorities(cfg, ops)
    requires NextOfAnother(Selection(cfg.txPriority, Run(cfg, ops)), i, j)
    requires var r := Selection(cfg.txPriority, Run(cfg, ops)); BidsIn(coinOf, denom, r[i].value) && BidsIn(coinOf, denom, r[j].value)
    ensures var r := Selection(cfg.txPriority, Run(cfg, ops));
            coinOf(r[i].value).value.amount >= coinOf(r[j].value).value.amount
  {
    hide PreorderOn, RunPriorities, Run, Selection, RunBidsIn, PrintsBack, MevTxPriority, PlainRun;
    RunOfOneDenominationRanks(cfg.txPriority, syntax, coinOf, ops, denom);
    RunIsMerged(cfg, ops, i, j);
    var r := Selection(cfg.txPriority, Run(cfg, ops));
    ComparesAmounts(syntax, coinOf, denom, r[i].value, r[j].value);
  }

  /** With one bid per bidder the bids come out highest first; the first one is the highest. */
  lemma HighestBidFirst(cfg: Config<Priority>, syntax: CoinSyntax, coinOf: Tx -> Option<Coin>, ops: seq<Op>, denom: string, i: nat, j: nat)
    requires cfg.txPriority == MevTxPriority(syntax, coinOf) && RunBidsIn(syntax, coinOf, ops, denom) && PrintsBack(syntax, denom)
    requires cfg.replaceKey || RunKeepsPriorities(cfg, ops)
    requires forall id :: id in PlainRun(cfg, ops) ==> BidsIn(coinOf, denom, PlainRun(cfg, ops)[id])
    requires forall x, y :: x in PlainRun(cfg, ops) && y in PlainRun(cfg, ops) && x.sender == y.sender ==> x == y
    requires i < j < |Selection(cfg.txPriority, Run(cfg, ops))|
    ensures var r := Selection(cfg.txPriority, Run(cfg, ops));
            && BidsIn(coinOf, denom, r[i].value) && BidsIn(coinOf, denom, r[j].value)
            && coinOf(r[i].value).value.amount >= coinOf(r[j].value).value.amount
  {
    MevRunSelection(cfg, syntax, coinOf, ops, denom);
    var r := Selection(cfg.txPriority, Run(cfg, ops));
    hide Run, Selection, RunBidsIn, PrintsBack, MevTxPriority, PlainRun, AcceptsPair, BidsIn;
    forall l | i <= l < j ensures r[l].key.sender != r[j].key.sender {
      assert r[l] in r && r[j] in r;
      assert IdOf(r[l].key) != IdOf(r[j].key);
    }
    assert r[i] in r && r[j] in r;
    BidsDescend(cfg, syntax, coinOf, ops, denom, i, j);
  }

  // ----- what the auction lets through ----------------------------------------------------------

  datatype BidVerdict = Acceptable | NoAmount | NotReserveDenom | BelowReserve | NotIncrementDenom | BelowMinimum | DenomsClash

  /** ValidateAuctionBid up to the extraction of the bid; None is a nil coin. Adding coins of different
      denominations panics. */
  function ValidateAuctionBid(bid: Option<Coin>, reserveFee: Coin, highestBid: Option<Coin>, minBidIncrement: Coin): BidVerdict {
    if bid.None? then NoAmount
    else if bid.value.denom != reserveFee.denom then NotReserveDenom
    else if bid.value.amount < reserveFee.amount then BelowReserve
    else if highestBid.None? then Acceptable
    else if minBidIncrement.denom != bid.value.denom then NotIncrementDenom
    else if highestBid.value.denom != minBidIncrement.denom then DenomsClash
    else if bid.value.amount < highestBid.value.amount + minBidIncrement.amount then BelowMinimum
    else Acceptable
  }

  /** Exactly which bids are acceptable: in the reserve fee's denomination and not below it, and, when
      there is a highest bid, at least one minimal increment above it in the same denomination. */
  lemma AcceptableExactly(bid: Option<Coin>, reserveFee: Coin, highestBid: Option<Coin>, minBidIncrement: Coin)
    ensures ValidateAuctionBid(bid, reserveFee, highestBid, minBidIncrement).Acceptable?
            <==> exists amount: nat :: && bid == Some(Coin(reserveFee.denom, amount)) && amount >= reserveFee.amount
                                       && (highestBid.Some? ==>
                                             && minBidIncrement.denom == highestBid.value.denom == reserveFee.denom
                                             && amount - highestBid.value.amount >= minBidIncrement.amount)
  {
    if bid.Some? { assert bid == Some(Coin(bid.value.denom, bid.value.amount)); }
  }

  /** Bids accepted one after the other, each becoming the highest. */
  ghost predicate Outbids(bids: seq<Coin>, reserveFee: Coin, minBidIncrement: Coin) {
    forall i :: 0 <= i < |bids| ==> AcceptedAfter(bids[..i], bids[i], reserveFee, minBidIncrement)
  }

  ghost predicate AcceptedAfter(earlier: seq<Coin>, bid: Coin, reserveFee: Coin, minBidIncrement: Coin) {
    ValidateAuctionBid(Some(bid), reserveFee, if earlier == [] then None else Some(earlier[|earlier| - 1]), minBidIncrement).Acceptable?
  }

  /** Such bids rise by an increment each, from the reserve fee on. */
  lemma {:induction false} OutbiddingRaises(bids: seq<Coin>, reserveFee: Coin, minBidIncrement: Coin)
    requires bids != [] && Outbids(bids, reserveFee, minBidIncrement)
    ensures bids[|bids| - 1].denom == reserveFee.denom
    ensures bids[|bids| - 1].amount >= reserveFee.amount + (|bids| - 1) * minBidIncrement.amount
  {
    var n, more := |bids| - 1, minBidIncrement.amount;
    assert AcceptedAfter(bids[..n], bids[n], reserveFee, minBidIncrement);
    LastIsAccepted(bids[..n], bids[n], reserveFee, minBidIncrement);
    hide *;
    if n > 0 {
      EarlierOutbids(bids, n, reserveFee, minBidIncrement);
      OutbiddingRaises(bids[..n], reserveFee, minBidIncrement);
      Raise(bids[n - 1].amount, bids[n].amount, reserveFee.amount, n, more);
    }
  }

  lemma Raise(before: nat, bid: nat, start: nat, n: nat, more: nat)
    requires n > 0 && before >= start + (n - 1) * more && bid >= before + more
    ensures bid >= start + n * more
  {
    assert n * more == (n - 1) * more + more;
  }

  lemma LastIsAccepted(earlier: seq<Coin>, bid: Coin, reserveFee: Coin, minBidIncrement: Coin)
    requires AcceptedAfter(earlier, bid, reserveFee, minBidIncrement)
    ensures bid.denom == reserveFee.denom && bid.amount >= reserveFee.amount
    ensures earlier != [] ==> bid.amount >= earlier[|earlier| - 1].amount + minBidIncrement.amount
  {
  }

  lemma EarlierOutbids(bids: seq<Coin>, n: nat, reserveFee: Coin, minBidIncrement: Coin)
    requires n <= |bids| && Outbids(bids, reserveFee, minBidIncrement)
    ensures Outbids(bids[..n], reserveFee, minBidIncrement)
  {
    hide AcceptedAfter;
    forall i | 0 <= i < n ensures AcceptedAfter(bids[..n][..i], bids[..n][i], reserveFee, minBidIncrement) {
      assert bids[..n][..i] == bids[..i];
      assert AcceptedAfter(bids[..i], bids[i], reserveFee, minBidIncrement);
    }
  }

  /** Amounts of the denomination print to texts of that denomination, and the empty text is no coin of
      another one. */
  ghost predicate Prints(syntax: CoinSyntax, denom: string) {
    PrintsBack(syntax, denom) && Over(syntax, {denom}, "") && Over(syntax, {denom}, syntax.show(Coin(denom, 0)))
  }

  /** The transaction bids nothing, or the auction accepted its bid, whatever the highest bid was. */
  ghost predicate Auctioned(coinOf: Tx -> Option<Coin>, tx: Tx, reserveFee: Coin, minBidIncrement: Coin) {
    coinOf(tx).None? || exists highestBid :: ValidateAuctionBid(coinOf(tx), reserveFee, highestBid, minBidIncrement).Acceptable?
  }

  lemma AuctionedIsInReserveDenom(syntax: CoinSyntax, coinOf: Tx -> Option<Coin>, tx: Tx, reserveFee: Coin, minBidIncrement: Coin)
    requires Auctioned(coinOf, tx, reserveFee, minBidIncrement) && Prints(syntax, reserveFee.denom)
    ensures Over(syntax, {reserveFee.denom}, BidText(syntax, coinOf, tx))
  {
    if coinOf(tx).Some? {
      var coin := coinOf(tx).value;
      assert coin == Coin(reserveFee.denom, coin.amount);
    }
  }

  /** The MEV lane's pool after any run of transactions the auction let through under one reserve fee:
      without stale keys it is selected completely, once, and in an order the process check accepts. */
  lemma AuctionedRunSelection(cfg: Config<Priority>, syntax: CoinSyntax, coinOf: Tx -> Option<Coin>, ops: seq<Op>,
                              reserveFee: Coin, minBidIncrement: Coin)
    requires cfg.txPriority == MevTxPriority(syntax, coinOf) && Prints(syntax, reserveFee.denom)
    requires forall i :: 0 <= i < |ops| && ops[i].Insert? ==> Auctioned(coinOf, ops[i].tx, reserveFee, minBidIncrement)
    requires cfg.replaceKey || RunKeepsPriorities(cfg, ops)
    ensures var r := Selection(cfg.txPriority, Run(cfg, ops));
            var pool := PlainRun(cfg, ops);
            && (forall n :: n in r ==> IdOf(n.key) in pool && pool[IdOf(n.key)] == n.value)
            && (forall id :: id in pool ==> pool[id] in Values(r))
            && (forall i, j :: 0 <= i < j < |r| ==> IdOf(r[i].key) != IdOf(r[j].key))
            && (forall i :: 0 <= i < |r| - 1 ==> AcceptsPair(cfg.txPriority, Values(r)[i], Values(r)[i + 1]))
  {
    assert RunBidsIn(syntax, coinOf, ops, reserveFee.denom) by {
      forall i | 0 <= i < |ops| && ops[i].Insert? ensures Over(syntax, {reserveFee.denom}, BidText(syntax, coinOf, ops[i].tx)) {
        AuctionedIsInReserveDenom(syntax, coinOf, ops[i].tx, reserveFee, minBidIncrement);
      }
    }
    hide *;
    MevRunSelection(cfg, syntax, coinOf, ops, reserveFee.denom);
  }
}
