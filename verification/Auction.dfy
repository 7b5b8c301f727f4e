/** The auction keeper's front-running check on a bundle's signers, and the split of a bid. */
module Auction {
  import opened Types
  import opened Proposals

  // ----- ValidateAuctionBundle ----------------------------------------------------------------

  /** A Go map used as a set of signers; shared by everything that holds it. */
  class SignerSet {
    var signers: set<string>

    constructor (signers: set<string>)
      ensures this.signers == signers
    {
      this.signers := signers;
    }
  }

  /** The signers common to all the sets. */
  function Shared(sets: seq<set<string>>): set<string>
    requires sets != []
  {
    if |sets| == 1 then sets[0] else Shared(sets[..|sets| - 1]) * sets[|sets| - 1]
  }

  /** `k` is the first transaction that shares no signer with all of those before it. */
  ghost predicate FirstGap(sets: seq<set<string>>, k: nat) {
    && 1 <= k < |sets|
    && Shared(sets[..k + 1]) == {}
    && (k > 1 ==> Shared(sets[..k]) != {})
  }

  ghost predicate BidderSignsFrom(bidder: string, sets: seq<set<string>>, k: nat) {
    forall j :: k <= j < |sets| ==> bidder in sets[j]
  }

  /** No front-running: at most one transaction, a common signer, or one party's transactions first
      and from the first gap on only the bidder's, who did not sign the first one. */
  ghost predicate NoFrontRunning(bidder: string, sets: seq<set<string>>) {
    || |sets| <= 1
    || Shared(sets) != {}
    || (bidder !in sets[0] && exists k :: FirstGap(sets, k) && BidderSignsFrom(bidder, sets, k))
  }

  lemma {:induction false} SharedShrinks(sets: seq<set<string>>, i: nat, j: nat)
    requires 0 < i <= j <= |sets|
    ensures Shared(sets[..j]) <= Shared(sets[..i])
  {
    if i < j {
      SharedShrinks(sets, i, j - 1);
      assert sets[..j][..j - 1] == sets[..j - 1];
    }
  }

  lemma OneFirstGap(sets: seq<set<string>>, k: nat, l: nat)
    requires FirstGap(sets, k) && FirstGap(sets, l)
    ensures k == l
  {
    if k < l { SharedShrinks(sets, k + 1, l); }
    if l < k { SharedShrinks(sets, l + 1, k); }
  }

  /** Once there is a gap, the verdict is whether the bidder stayed out of the first transaction
      and signed everything from the gap on. */
  lemma VerdictAtGap(bidder: string, sets: seq<set<string>>, k: nat)
    requires FirstGap(sets, k)
    ensures NoFrontRunning(bidder, sets) <==> bidder !in sets[0] && BidderSignsFrom(bidder, sets, k)
    ensures Shared(sets) == {}
  {
    SharedShrinks(sets, k + 1, |sets|);
    assert sets[..|sets|] == sets;
    if NoFrontRunning(bidder, sets) {
      var l :| FirstGap(sets, l) && BidderSignsFrom(bidder, sets, l);
      OneFirstGap(sets, k, l);
    }
  }

  /** With one signer per transaction: one party's prefix, then only the bidder. */
  lemma SingleSigners(bidder: string, signers: seq<string>, sets: seq<set<string>>)
    requires |sets| == |signers| > 0 && forall i :: 0 <= i < |sets| ==> sets[i] == {signers[i]}
    ensures NoFrontRunning(bidder, sets)
       <==> exists k :: 1 <= k <= |signers| && PartyThenBidder(bidder, signers, k)
  {
    var k := 1;
    while k < |signers| && signers[k] == signers[0]
      invariant 1 <= k <= |signers|
      invariant forall i :: 0 <= i < k ==> signers[i] == signers[0]
      invariant Shared(sets[..k]) == {signers[0]}
    {
      assert sets[..k + 1][..k] == sets[..k];
      k := k + 1;
    }
    if k == |signers| {
      assert sets[..k] == sets;
      assert PartyThenBidder(bidder, signers, k);
    } else {
      assert sets[..k + 1][..k] == sets[..k];
      assert FirstGap(sets, k);
      VerdictAtGap(bidder, sets, k);
      if NoFrontRunning(bidder, sets) {
        assert PartyThenBidder(bidder, signers, k);
      }
      forall l | 1 <= l <= |signers| && PartyThenBidder(bidder, signers, l) ensures NoFrontRunning(bidder, sets) {
        assert signers[k] == bidder;
      }
    }
  }

  ghost predicate PartyThenBidder(bidder: string, signers: seq<string>, k: nat)
    requires k <= |signers|
  {
    (forall i :: 0 <= i < k ==> signers[i] == signers[0]) && (forall i :: k <= i < |signers| ==> signers[i] == bidder)
  }

  /** What the loop knows before transaction `i`: `gap` is the first gap met so far, 0 when none. */
  ghost predicate Scanned(bidder: string, sets: seq<set<string>>, i: nat, gap: nat, prev: set<string>, seenBidder: bool) {
    && 1 <= i <= |sets|
    && if gap == 0 then
         prev == Shared(sets[..i]) && seenBidder == (bidder in sets[0]) && (i > 1 ==> prev != {})
       else
         && gap < i && FirstGap(sets, gap) && seenBidder && bidder !in sets[0] && prev == {bidder}
         && forall j :: gap <= j < i ==> bidder in sets[j]
  }

  lemma ScanStarts(bidder: string, sets: seq<set<string>>)
    requires sets != []
    ensures Scanned(bidder, sets, 1, 0, sets[0], bidder in sets[0])
  {
    assert sets[..1] == [sets[0]];
  }

  lemma ScanStep(bidder: string, sets: seq<set<string>>, i: nat, gap: nat, prev: set<string>, seenBidder: bool)
    requires Scanned(bidder, sets, i, gap, prev, seenBidder) && i < |sets|
    ensures prev * sets[i] != {} ==> Scanned(bidder, sets, i + 1, gap, prev * sets[i], seenBidder)
    ensures prev * sets[i] == {} ==> Shared(sets) == {} && (gap == 0 ==> FirstGap(sets, i))
    ensures prev * sets[i] == {} && (seenBidder || bidder !in sets[i]) ==> !NoFrontRunning(bidder, sets)
    ensures prev * sets[i] == {} && !seenBidder && bidder in sets[i] ==> gap == 0 && Scanned(bidder, sets, i + 1, i, {bidder}, true)
  {
    assert sets[..i + 1][..i] == sets[..i];
    if prev * sets[i] == {} {
      if gap == 0 {
        VerdictAtGap(bidder, sets, i);
      } else {
        VerdictAtGap(bidder, sets, gap);
        assert bidder in prev && bidder !in prev * sets[i];
      }
    }
  }

  lemma ScanEnds(bidder: string, sets: seq<set<string>>, gap: nat, prev: set<string>, seenBidder: bool)
    requires Scanned(bidder, sets, |sets|, gap, prev, seenBidder)
    ensures NoFrontRunning(bidder, sets)
    ensures Shared(sets) == if gap == 0 then prev else {}
  {
    assert sets[..|sets|] == sets;
    if gap > 0 { VerdictAtGap(bidder, sets, gap); }
  }

  /** filterSigners deletes in place whoever did not sign the transaction. */
  method FilterSigners(current: SignerSet, txSigners: SignerSet)
    modifies current
    ensures current.signers == old(current.signers) * old(txSigners.signers)
  {
    var signers, tx := current.signers, txSigners.signers;
    while signers != {}
      invariant signers <= old(current.signers)
      invariant current.signers == old(current.signers) * (tx + signers)
      decreases |signers|
    {
      var signer :| signer in signers;
      if signer !in tx { current.signers := current.signers - {signer}; }
      signers := signers - {signer};
    }
  }

  /** The bidder, if the bidder signed the transaction. */
  method OnlyBidder(bidder: string, txSigners: SignerSet) returns (prev: SignerSet)
    ensures fresh(prev) && prev.signers == if bidder in txSigners.signers then {bidder} else {}
  {
    prev := new SignerSet({bidder});
    FilterSigners(prev, txSigners);
  }

  function SetsOf(bundle: seq<SignerSet>): (r: seq<set<string>>)
    reads bundle
    ensures |r| == |bundle| && forall i :: 0 <= i < |r| ==> r[i] == bundle[i].signers
  {
    if bundle == [] then [] else [bundle[0].signers] + SetsOf(bundle[1..])
  }

  /** The verdict on the sets as they were passed in. The caller's first set is filtered in place,
      down to the signers shared up to the first gap; no other set changes. */
  method ValidateAuctionBundle(bidder: string, bundle: seq<SignerSet>) returns (ok: bool)
    requires forall i, j :: 0 <= i < j < |bundle| ==> bundle[i] != bundle[j]
    modifies if |bundle| > 1 then {bundle[0]} else {}
    ensures ok <==> NoFrontRunning(bidder, old(SetsOf(bundle)))
    ensures |bundle| > 1 ==> bundle[0].signers == Shared(old(SetsOf(bundle)))
  {
    if |bundle| <= 1 { return true; }
    ScanStarts(bidder, SetsOf(bundle));
    ok := ScanBundle(bidder, bundle, SetsOf(bundle));
  }

  /** The loop of ValidateAuctionBundle. */
  method ScanBundle(bidder: string, bundle: seq<SignerSet>, ghost sets: seq<set<string>>) returns (ok: bool)
    requires |bundle| == |sets| > 1
    requires forall k :: 0 <= k < |bundle| ==> bundle[k].signers == sets[k]
    requires forall k :: 0 < k < |bundle| ==> bundle[k] != bundle[0]
    requires Scanned(bidder, sets, 1, 0, sets[0], bidder in sets[0])
    modifies bundle[0]
    ensures ok <==> NoFrontRunning(bidder, sets)
    ensures bundle[0].signers == Shared(sets)
  {
    hide *;
    var prevSigners := bundle[0];
    var seenBidder := bidder in prevSigners.signers;
    ghost var gap := 0;
    var i := 1;
    while i < |bundle|
      invariant 1 <= i <= |bundle|
      invariant forall k :: 0 < k < |bundle| ==> bundle[k].signers == sets[k]
      invariant Scanned(bidder, sets, i, gap, prevSigners.signers, seenBidder)
      invariant if gap == 0 then prevSigners == bundle[0] else bundle[0].signers == Shared(sets) && fresh(prevSigners)
    {
      ScanStep(bidder, sets, i, gap, prevSigners.signers, seenBidder);
      FilterSigners(prevSigners, bundle[i]);
      if prevSigners.signers == {} {
        if seenBidder { return false; }
        gap := i;
        seenBidder := true;
        prevSigners := OnlyBidder(bidder, bundle[i]);
        if prevSigners.signers == {} { return false; }
      }
      i := i + 1;
    }
    ScanEnds(bidder, sets, gap, prevSigners.signers, seenBidder);
    ok := true;
  }

  // ----- ExtractBid ---------------------------------------------------------------------------

  /** What each account can spend of the bid's denomination. */
  class Bank {
    var balances: map<string, nat>

    constructor (balances: map<string, nat>)
      ensures this.balances == balances
    {
      this.balances := balances;
    }

    /** SendCoins: fails, moving nothing, when the sender cannot pay. */
    method SendCoins(from: string, to: string, amount: nat) returns (ok: bool)
      modifies this
      ensures ok <==> Balance(old(balances), from) >= amount
      ensures balances == if ok then Moved(old(balances), from, to, amount) else old(balances)
    {
      if Balance(balances, from) < amount { return false; }
      balances := balances[from := Balance(balances, from) - amount];
      balances := balances[to := Balance(balances, to) + amount];
      ok := true;
    }
  }

  function Balance(balances: map<string, nat>, account: string): nat {
    if account in balances then balances[account] else 0
  }

  function Moved(balances: map<string, nat>, from: string, to: string, amount: nat): map<string, nat>
    requires amount <= Balance(balances, from)
  {
    var debited := balances[from := Balance(balances, from) - amount];
    debited[to := Balance(debited, to) + amount]
  }

  /** What a list of accounts holds together. */
  function Supply(balances: map<string, nat>, accounts: seq<string>): nat {
    if accounts == [] then 0 else Balance(balances, accounts[0]) + Supply(balances, accounts[1..])
  }

  /** The auction parameters ExtractBid reads; validation keeps the fee in [0, 1]. */
  datatype Params = Params(escrow: string, proposerFee: Ratio)

  /** The proposer's part of a bid: the largest whole amount not above bid times fee. */
  function ProposerReward(bid: nat, fee: Ratio): (r: nat)
    ensures r <= bid
    ensures r * PRECISION <= bid * fee < (r + 1) * PRECISION
  {
    ShareBounds(fee, bid);
    assert fee * bid == bid * fee;
    bid * fee / PRECISION
  }

  /** The bid as an 18-digit decimal, multiplied and truncated to 18 digits, then truncated to a
      whole amount: the first truncation is exact, only the second one rounds. */
  function MulTruncate(bid: nat, fee: Ratio): nat {
    bid * PRECISION * fee / PRECISION / PRECISION
  }

  /** What is left of the decimal bid is whole, so the escrow part has no remainder. */
  function SubTruncate(bid: nat, reward: nat): nat
    requires reward <= bid
  {
    (bid * PRECISION - reward * PRECISION) / PRECISION
  }

  lemma SplitIsExact(bid: nat, fee: Ratio)
    ensures MulTruncate(bid, fee) == ProposerReward(bid, fee)
    ensures SubTruncate(bid, MulTruncate(bid, fee)) == bid - ProposerReward(bid, fee)
  {
    assert bid * PRECISION * fee == bid * fee * PRECISION;
  }

  function When(c: bool, amount: int): int {
    if c then amount else 0
  }

  /** What ExtractBid leaves behind: the bidder is debited the bid, the rewards address credited its
      part and escrow the rest, and these may be the same accounts. Sending to the module account or
      to any other one moves coins the same way. */
  ghost predicate Paid(before: map<string, nat>, after: map<string, nat>, params: Params, rewards: string, bidder: string, bid: nat) {
    var reward := ProposerReward(bid, params.proposerFee);
    forall a :: Balance(after, a)
             == Balance(before, a) - When(a == bidder, bid) + When(a == rewards, reward) + When(a == params.escrow, bid - reward)
  }

  /** What the bidder must be able to spend: the bid, or, when the reward comes back to the bidder, the
      larger of the two parts. */
  function Needed(params: Params, rewards: string, bidder: string, bid: nat): nat {
    var reward := ProposerReward(bid, params.proposerFee);
    if params.proposerFee != 0 && rewards == bidder then (if reward > bid - reward then reward else bid - reward) else bid
  }

  lemma {:induction false} PaidSupply(before: map<string, nat>, after: map<string, nat>, params: Params, rewards: string, bidder: string, bid: nat,
                                      accounts: seq<string>)
    requires Paid(before, after, params, rewards, bidder, bid)
    requires forall i, j :: 0 <= i < j < |accounts| ==> accounts[i] != accounts[j]
    ensures var reward := ProposerReward(bid, params.proposerFee);
            Supply(after, accounts) == Supply(before, accounts) - When(bidder in accounts, bid)
                                       + When(rewards in accounts, reward) + When(params.escrow in accounts, bid - reward)
  {
    hide ProposerReward, Balance;
    if accounts != [] {
      PaidSupply(before, after, params, rewards, bidder, bid, accounts[1..]);
      assert accounts == [accounts[0]] + accounts[1..];
    }
  }

  /** A paid bid creates and destroys nothing. */
  lemma PaidKeepsSupply(before: map<string, nat>, after: map<string, nat>, params: Params, rewards: string, bidder: string, bid: nat,
                        accounts: seq<string>)
    requires Paid(before, after, params, rewards, bidder, bid)
    requires forall i, j :: 0 <= i < j < |accounts| ==> accounts[i] != accounts[j]
    requires bidder in accounts && rewards in accounts && params.escrow in accounts
    ensures Supply(after, accounts) == Supply(before, accounts)
  {
    PaidSupply(before, after, params, rewards, bidder, bid, accounts);
  }

  /** Where the proposer's reward goes: to escrow when the provider fails, and with a zero fee the
      provider is not asked. */
  function RewardsTo(params: Params, provider: Option<string>): string {
    if params.proposerFee == 0 || provider.None? then params.escrow else provider.value
  }

  method SendBid(bank: Bank, moduleAddress: string, from: string, to: string, amount: nat) returns (ok: bool)
    modifies bank
    ensures ok <==> Balance(old(bank.balances), from) >= amount
    ensures bank.balances == if ok then Moved(old(bank.balances), from, to, amount) else old(bank.balances)
  {
    if moduleAddress == to {
      ok := bank.SendCoins(from, moduleAddress, amount);
    } else {
      ok := bank.SendCoins(from, to, amount);
    }
  }

  lemma MovedBalances(balances: map<string, nat>, from: string, to: string, amount: nat)
    requires amount <= Balance(balances, from)
    ensures forall a :: Balance(Moved(balances, from, to, amount), a) == Balance(balances, a) - When(a == from, amount) + When(a == to, amount)
  {
  }

  /** Without a fee the one transfer pays the bid; with a fee the two transfers do. */
  lemma OneMovePays(before: map<string, nat>, params: Params, rewards: string, bidder: string, bid: nat)
    requires params.proposerFee == 0 && bid <= Balance(before, bidder)
    ensures Paid(before, Moved(before, bidder, params.escrow, bid), params, rewards, bidder, bid)
  {
    NoReward(bid);
    MovedBalances(before, bidder, params.escrow, bid);
  }

  lemma TwoMovesPay(before: map<string, nat>, params: Params, rewards: string, bidder: string, bid: nat)
    requires params.proposerFee != 0
    ensures var reward := ProposerReward(bid, params.proposerFee);
            Needed(params, rewards, bidder, bid) <= Balance(before, bidder) <==>
              reward <= Balance(before, bidder) && bid - reward <= Balance(Moved(before, bidder, rewards, reward), bidder)
    ensures var reward := ProposerReward(bid, params.proposerFee);
            Needed(params, rewards, bidder, bid) <= Balance(before, bidder) ==>
              Paid(before, Moved(Moved(before, bidder, rewards, reward), bidder, params.escrow, bid - reward), params, rewards, bidder, bid)
  {
    var reward := ProposerReward(bid, params.proposerFee);
    hide ProposerReward, Balance, Moved;
    if reward <= Balance(before, bidder) {
      MovedBalances(before, bidder, rewards, reward);
      var paid := Moved(before, bidder, rewards, reward);
      if bid - reward <= Balance(paid, bidder) { MovedBalances(paid, bidder, params.escrow, bid - reward); }
    }
  }

  /** Succeeds if and only if the bidder has what it takes, and then moves exactly the bid and its two
      parts. On its own ExtractBid is not all-or-nothing: a bidder who can pay the proposer's reward
      but not the rest has paid the reward when it fails. */
  method ExtractBid(bank: Bank, params: Params, moduleAddress: string, provider: Option<string>, bidder: string, bid: nat) returns (ok: bool)
    modifies bank
    ensures ok <==> Needed(params, RewardsTo(params, provider), bidder, bid) <= Balance(old(bank.balances), bidder)
    ensures ok ==> Paid(old(bank.balances), bank.balances, params, RewardsTo(params, provider), bidder, bid)
    ensures var reward := ProposerReward(bid, params.proposerFee);
            !ok ==> bank.balances == if params.proposerFee != 0 && reward <= Balance(old(bank.balances), bidder)
                                     then Moved(old(bank.balances), bidder, RewardsTo(params, provider), reward)
                                     else old(bank.balances)
  {
    hide Balance, Moved, Paid;
    ghost var rewards := RewardsTo(params, provider);
    if params.proposerFee == 0 {
      if bid <= Balance(bank.balances, bidder) { OneMovePays(bank.balances, params, rewards, bidder, bid); }
      ok := SendBid(bank, moduleAddress, bidder, params.escrow, bid);
      return;
    }
    var rewardsAddress := if provider.Some? then provider.value else params.escrow;
    SplitIsExact(bid, params.proposerFee);
    TwoMovesPay(bank.balances, params, rewards, bidder, bid);
    hide MulTruncate, SubTruncate, ProposerReward;
    var proposerReward := MulTruncate(bid, params.proposerFee);
    ok := SendBid(bank, moduleAddress, bidder, rewardsAddress, proposerReward);
    if !ok { return; }
    ok := SendBid(bank, moduleAddress, bidder, params.escrow, SubTruncate(bid, proposerReward));
  }

  lemma NoReward(bid: nat)
    ensures ProposerReward(bid, 0) == 0
  {
  }

  /** The bid extracted by an ante handler under VerifyTx: on a cached context, written back only on
      success, so here a bid is all or nothing. */
  method ExtractUnderVerifyTx(bank: Bank, params: Params, moduleAddress: string, provider: Option<string>, bidder: string, bid: nat) returns (ok: bool)
    modifies bank
    ensures ok <==> Needed(params, RewardsTo(params, provider), bidder, bid) <= Balance(old(bank.balances), bidder)
    ensures if ok then Paid(old(bank.balances), bank.balances, params, RewardsTo(params, provider), bidder, bid)
            else bank.balances == old(bank.balances)
  {
    var cached := new Bank(bank.balances);
    ok := ExtractBid(cached, params, moduleAddress, provider, bidder, bid);
    if ok { bank.balances := cached.balances; }
  }

  /** Who gets the proposer's part: the provider's address, unless the provider failed or there is no fee;
      then escrow gets the whole bid. */
  lemma ProposerIsPaid(before: map<string, nat>, after: map<string, nat>, params: Params, provider: Option<string>, bidder: string, bid: nat)
    requires Paid(before, after, params, RewardsTo(params, provider), bidder, bid)
    ensures params.proposerFee != 0 && provider.Some? && provider.value != bidder && provider.value != params.escrow ==>
              Balance(after, provider.value) == Balance(before, provider.value) + ProposerReward(bid, params.proposerFee)
    ensures (params.proposerFee == 0 || provider.None?) && params.escrow != bidder ==>
              Balance(after, params.escrow) == Balance(before, params.escrow) + bid
  {
    hide ProposerReward, Balance;
  }

  /** With accounts of its own the bidder needs the bid, is debited exactly the bid, and the proposer
      and escrow are credited exactly their parts. */
  lemma DistinctParties(before: map<string, nat>, after: map<string, nat>, params: Params, rewards: string, bidder: string, bid: nat)
    requires bidder != params.escrow && bidder != rewards && Paid(before, after, params, rewards, bidder, bid)
    ensures Needed(params, rewards, bidder, bid) == bid
    ensures Balance(after, bidder) == Balance(before, bidder) - bid
    ensures rewards != params.escrow ==>
              && Balance(after, rewards) == Balance(before, rewards) + ProposerReward(bid, params.proposerFee)
              && Balance(after, params.escrow) == Balance(before, params.escrow) + bid - ProposerReward(bid, params.proposerFee)
    ensures rewards == params.escrow ==> Balance(after, rewards) == Balance(before, rewards) + bid
  {
    hide ProposerReward, Balance;
    assert Balance(after, bidder) == Balance(before, bidder) - bid;
  }
}
