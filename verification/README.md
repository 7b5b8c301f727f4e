# Block SDK: the block-building pipeline, modelled and proved

A Dafny model of how the Block SDK builds and verifies blocks, with proofs of what that pipeline
promises. `dafny verify dfyconfig.toml` checks everything.

- **The priority-nonce mempool.** Four linked indices (a priority-ordered list, one nonce-ordered
  list per sender, scores, counts per priority), the lazy re-weighing in Select, and an iterator
  made of two mutually recursive functions. `PriorityIndex`, `Reordering` and `Iteration` hold the
  indices as one value and the sequence an iteration returns, and `Merge` says what its order is;
  `PriorityMempool` holds the objects, each method proved against those functions; `MempoolRuns` compares whole runs with a plain map
  from sender and nonce to transaction; `ConstantPriority` gives the closed form of the order under
  the default priority. A ranking need only be a total preorder on the priorities that occur
  (`Ranking`), which is what lets the MEV lane's comparison of coins in (`MevPriority`).
- **Proposal accounting.** `Proposals`: truncating shares, wrapping 64-bit totals, the
  all-or-nothing update, and the two maps that all copies of a proposal share. `BlockLimits`: what
  that says of whole blocks. `PoolSizes` and `SpacePartition`: what lanes can contribute, registry
  validation and the division of the block.
- **Lanes and chains.** `BaseHandlers` and `MevHandlers` are the prepare and process handlers as
  functions, `Fates` (through `Eagerness`) and `Bids` say exactly what they do with every transaction
  and bid, and `DefaultHandler` and `MevHandler` are the loops proved against them; `Blocks` says what
  a block is made of, turn by turn; `Chain` and `Acceptance` state what the chains of
  lanes promise (parity between building and verifying, failure isolation, acceptance means sorted
  by lane); `LaneChain`, `LanedMempools` and `ProposalHandlers` are the imperative chain with cached
  contexts and recovery, the mempool of lanes, and the two ABCI handlers. `AppLanes` creates an
  application's three lanes and instantiates all of it; `OrderGaps` and `StaleOrder` have the inputs
  on which promises end.
- **Side cores.** `Decoder`: the caching transaction decoder. `Auction`: the bundle check and the
  split of a bid. `Varints`, `WireFormat`, `WireParse`, `WireRoundTrip`, `WireUnknown`, `ProposalInfos`: the
  protobuf bytes of ProposalInfo, whose integers follow the section "Base 128 Varints" of the
  Protocol Buffers Encoding specification.

How the outside world enters the model: the state behind a context is an abstract value; the ante
handler is a function of state and transaction that may pass with a new state, fail or panic;
matching, priorities, hashing and decoding are functions of the transaction or its bytes. A
transaction is its encoding, its signers, its gas and its bid, each of which may be unreadable. A
skip list is the sequence of its entries. A panic anywhere in a lane is one more way for the lane to
fail. Strings compare byte by byte.

Two conditions that the headline results name explicitly. The decoder undoes the encoder on what it
produces (`DecoderUndoesEncoder`), and the pools hold such transactions (`PoolsDecoded`; the mempool
object keeps this as part of its invariant). When the process side allows a larger block than was
asked for, an unlimited lane must not be left less room by it (`SizesAreSafe`): no lane is
unlimited, or the bytes in the pools fit an int64, or the request is for fewer than 2^62 bytes and
each bid with its bundle fits an int64.

Where code and comments disagree the model follows the code: senderWeight's loop ends at the last
priority, not the first that differs (`block/base/priority_nonce.go:410-431`); the prepare loop goes on
after a transaction that does not fit, although its comments say it breaks
(`block/base/proposals.go:99-127`); and the decoder's cache is first in, first out rather than least
recently used (`block/utils/decoder.go:13-16`).

## Model

| member | source | states |
|---|---|---|
| Types.GetTxInfo | block/base/tx_info.go:17-42 | Fails exactly when bytes, gas or signers cannot be read; otherwise carries the transaction's own bytes, their length and hash, and its gas. |
| SkipLists.SetNew | block/base/priority_nonce.go:268-286 | Setting an unknown key adds exactly one entry and keeps the list sorted. |
| SkipLists.SetStored | block/base/priority_nonce.go:268-286 | Setting a known key replaces its entry and no other, whether or not the library keeps the stored key. |
| SkipLists.RemoveStored | block/base/priority_nonce.go:455-466 | Removing a stored key takes out exactly its entry. |
| Ordering.CompareStrings | block/base/priority_nonce.go:164-167 | Zero only for equal strings, otherwise plus or minus one. |
| Ordering.StringsInOrder | block/base/priority_nonce.go:164-167 | Negative exactly for a proper prefix or the smaller character at the first difference, positive exactly the other way round. |
| Ordering.PriorityOrderIsTotal | block/base/priority_nonce.go:148-176 | Whatever total preorder ranks priorities, the priority index is ordered by a total preorder. |
| PriorityIndex.InsertedAgrees | block/base/priority_nonce.go:243-289 | Insert, fresh or replacing, keeps all four indices describing the same transactions, now with this one under its sender and nonce. |
| PriorityIndex.RemovedAgrees | block/base/priority_nonce.go:440-471 | Remove keeps all four indices describing the same transactions, now without that sender and nonce. |
| Reordering.WeightIsLastPriority | block/base/priority_nonce.go:414-431 | The weight the loop computes is the priority of the sender's last transaction. |
| Reordering.WeightMatchesComment | block/base/priority_nonce.go:410-431 | The loop agrees with its comment (first differing priority) if and only if that priority is also the last one's. |
| Reordering.WeightDiffersFromComment | block/base/priority_nonce.go:410-431 | A sender list with priorities 5, 3, 7 on which comment and loop differ. |
| Reordering.ReorderedAgrees | block/base/priority_nonce.go:387-408 | Re-weighing every tied transaction, one delete and insert at a time, keeps the four indices in agreement and stores the same transactions. |
| Merge.TiesWeighTheLast | block/base/priority_nonce.go:387-431 | After Select every transaction that shares its priority carries a weight that compares equal to the priority its sender's list ends on. |
| Merge.OthersKeepTheirWeight | block/base/priority_nonce.go:387-408 | Select leaves the weight of a transaction that shares its priority with no other as it was. |
| Merge.RankedTiesWeighTheLast | block/base/priority_nonce.go:387-431 | The same under any ranking that is a total preorder on the priorities that occur. |
| Iteration.EmitsRest | block/base/priority_nonce.go:291-354 | From any point that keeps the invariant (a waiting sender's first transaction is at or after the current node), the rest of every sender's list comes out, complete and in order. |
| Iteration.SelectionOfSender | block/base/priority_nonce.go:291-379 | In every pool, stale keys or not, what comes out of a sender is its list up to the first key that ranks below the node after the sender's last one. |
| Iteration.CompleteExactlyWhenUnblocked | block/base/priority_nonce.go:316-354 | A sender's whole list comes out if and only if no key of it is blocked at the sender's last node. |
| Iteration.SelectionIsExact | block/base/priority_nonce.go:291-379 | With current keys a whole iteration returns each sender's transactions exactly as that sender's list holds them. |
| Iteration.SelectionOnce | block/base/priority_nonce.go:291-379 | With current keys every stored transaction comes out once and nothing else does; one sender's nonces strictly rise. |
| Iteration.EmitInOrder | block/base/priority_nonce.go:291-354 | Of two consecutive transactions, the same sender's have rising nonces and different senders' have priorities that do not rise. |
| Merge.SelectionIsMerged | block/base/priority_nonce.go:291-431 | With current keys a selection is a merge: whatever comes out has at least the priority of every other sender's next transaction, and of two with the very same priority the first one's sender ends on a priority at least the other's. |
| Merge.RankedSelectionIsMerged | block/base/priority_nonce.go:291-431 | The same under any ranking that is a total preorder on the priorities that occur. |
| Merge.RunIsMerged | block/base/priority_nonce.go:291-431 | The same after any run without stale keys, in terms of the plain map alone. |
| Iteration.SelectionPassesOrderCheck | block/base/proposals.go:177-181 | For every total preorder of priorities and current keys, neighbours of the selection never fail the process-side comparison. |
| Iteration.EmitsStored | block/base/priority_nonce.go:316-358 | Even with stale sender lists, whatever comes out is a stored transaction. |
| Ranking.SameSelection | block/base/priority_nonce.go:291-408 | A ranking that is a total preorder on the priorities that occur selects exactly as its extension to a total preorder of all priorities. |
| Ranking.RankedSelectionOnce | block/base/priority_nonce.go:291-379 | With current keys the selection is complete and in nonce order when the ranking is a total preorder on the priorities that occur in the pool, whatever it is elsewhere. |
| Ranking.RankedSelectionPasses | block/base/proposals.go:177-181 | With current keys and such a ranking, its neighbours pass the process-side comparison. |
| Ranking.RankedCompleteExactly | block/base/priority_nonce.go:316-354 | With such a ranking, current keys or not, the exact condition for a sender's whole list to come out. |
| MevPriority.TwoDenominationsDoNotRank | lanes/mev/mempool.go:30-51 | With bids in two denominations two ties do not make a tie: the MEV comparison is no preorder. |
| MevPriority.RanksExactlyOneDenomination | lanes/mev/mempool.go:30-51 | The MEV comparison is a total preorder of the bids over some denominations if and only if there is at most one. |
| MevPriority.MevRunSelection | lanes/mev/mempool.go:16-52 | After any run of bids in one denomination without stale keys the MEV lane's pool is selected completely, once, and in an order the process check accepts. |
| MevPriority.BidsDescend | lanes/mev/mempool.go:16-52 | In such a selection every bid is at least as high as every other bidder's next one. |
| MevPriority.HighestBidFirst | lanes/mev/mempool.go:16-52 | With one bid per bidder the amounts never rise, so the first bid is the highest. |
| MevPriority.BidCanBeRanked | lanes/mev/mempool.go:16-52 | In a mempool object with bids of one denomination, inserting one more keeps the object's invariant and the one denomination. |
| MevPriority.AuctionedRunSelection | x/auction/keeper/auction.go:44-92 | The same for every run of transactions the auction let through under one reserve fee, whatever the highest bids were. |
| MevPriority.AcceptableExactly | x/auction/keeper/auction.go:44-92 | A bid is acceptable if and only if it is in the reserve fee's denomination, not below it, and at least one increment above the highest bid when there is one. |
| MevPriority.OutbiddingRaises | x/auction/keeper/auction.go:44-92 | Bids that outbid each other rise by at least an increment each, from the reserve fee on. |
| MevPriority.EmptyMempoolRanks | lanes/mev/mempool.go:16-52 | The MEV comparison meets what building an empty mempool asks. |
| ConstantPriority.SelectionIsSimplySorted | block/base/tx_priority.go:10-20 | With one priority for all, every pair of the selection has senders descending and nonces ascending. |
| ConstantPriority.SelectionIsTheSimpleSort | block/base/priority_nonce.go:148-176 | With one priority for all, the selection is the one listing of the stored transactions in that simple order. |
| ConstantPriority.AnyPairAccepted | block/base/proposals.go:177-181 | With one priority for all, any two selected transactions pass the order check, so every subsequence does. |
| MempoolRuns.StepRefines | block/base/priority_nonce.go:220-289 | Insert, Remove and Select do to the stored transactions what they do to a plain map, keep the indices in agreement, and bring in no priority but the inserted one; the ranking is asked about no other priorities. |
| MempoolRuns.InsertStoresExactly | block/base/priority_nonce.go:220-289 | A signed transaction is stored if and only if the pool is neither disabled nor full and a replacement rule, when there is one, allows it. |
| MempoolRuns.UnsignedIsNotStored | block/base/priority_nonce.go:227-233 | One without a readable first signature is never stored, and removing it does nothing. |
| MempoolRuns.InsertReports | block/base/priority_nonce.go:220-265 | Which refusal Insert reports, exactly. |
| MempoolRuns.StepKeepsCurrent | block/base/priority_nonce.go:268-286 | The keys of the sender lists stay current unless a re-insert changes a priority and the library keeps the old key. |
| MempoolRuns.StepKeepsCapacity | block/base/priority_nonce.go:220-230 | No operation grows the pool past a positive MaxTx. |
| MempoolRuns.RunRefines | block/base/priority_nonce.go:220-471 | After any run from empty whose priorities rank: the four indices agree, hold the plain map's transactions, and respect the capacity. |
| MempoolRuns.RunSelection | block/base/priority_nonce.go:291-379 | After any run without stale keys, Select returns each transaction of the plain map exactly once, one sender's in nonce order, and in an order the process check accepts. |
| PriorityMempool.PriorityNonceMempool.Insert | block/base/priority_nonce.go:220-289 | Whatever the priority, the object's new indices and its outcome are those of the step function, and its stored transactions those of the plain map; the invariant is kept when the priority ranks among those in the pool. |
| PriorityMempool.PriorityNonceMempool.Remove | block/base/priority_nonce.go:440-471 | Reports whether the sender and nonce were stored, and leaves every index without them. |
| PriorityMempool.PriorityNonceMempool.Contains | block/base/priority_nonce.go:474-489 | True exactly when the sender and nonce are stored. |
| PriorityMempool.PriorityNonceMempool.CountTx | block/base/priority_nonce.go:434-436 | The number of stored transactions. |
| PriorityMempool.PriorityNonceMempool.SenderWeightOf | block/base/priority_nonce.go:414-431 | The cursor loop computes the weight that Merge.TiesWeighTheLast shows to be the sender's last priority. |
| PriorityMempool.PriorityNonceMempool.ReorderPriorityTies | block/base/priority_nonce.go:387-408 | The two loops leave the re-weighed indices, whose weights Merge.TiesWeighTheLast states. |
| PriorityMempool.PriorityNonceMempool.Select | block/base/priority_nonce.go:366-379 | The iterator returned will yield exactly the selection; the stored transactions do not change. |
| PriorityMempool.PriorityNonceIterator.IteratePriority | block/base/priority_nonce.go:291-314 | Moves to the next node; what is still to come is what it now stands on followed by the rest; terminates by remaining nodes. |
| PriorityMempool.PriorityNonceIterator.Next | block/base/priority_nonce.go:316-354 | Each call consumes exactly the first of the remaining transactions, and ends only when none remain. |
| Proposals.UpdateProposal | block/proposals/update.go:27-119 | Succeeds exactly when every check passes; a failure leaves the caller's copy and the shared maps untouched. |
| Proposals.UpdateSucceedsExactly | block/proposals/update.go:27-119 | An update succeeds if and only if it adds nothing, or lane and hashes are new, its totals are within ratio times maximum (or what is left, for an unlimited lane) and the block's stay within the maxima. |
| Proposals.LimitsExactly | block/proposals/proposals.go:71-93 | The lane limits are the largest whole amounts within ratio times maximum, or what is left of the block. |
| Proposals.UpdateAccounts | block/proposals/update.go:55-119 | A successful update appends exactly its contribution to transactions, hashes, lane counts and totals. |
| Proposals.AnyCallsAccount | block/proposals/update.go:27-119 | After any sequence of updates: transactions, hash cache, lane counts and totals are exactly those of the contributions, no lane contributed twice, and contributions share no hash. |
| Proposals.AnyCallsFit | block/proposals/update.go:66-103 | While the true totals fit their types, size and gas are those totals and within the maxima. |
| Proposals.TxsAreCounted | block/proposals/update.go:105-119 | After any sequence of updates of a new proposal, the number of transactions is the sum of all values of TxsByLane. |
| BlockLimits.BuiltBlockAccounts | abci/utils.go:16-65 | Every block that is built, whatever its lanes do: bytes, hashes, counts by lane and totals are exactly those of the included transactions; the totals are within the maxima, and the true ones when they fit their types. |
| BlockLimits.AcceptedBlockAccounts | abci/utils.go:74-88 | The same for every block a chain of default and MEV lanes accepts. |
| LaneModel.VerifySplit | block/base/abci.go:164-178 | Verifying a list is verifying its front and then, from the state reached, its back. |
| LaneModel.VerifiesExactly | block/base/abci.go:164-178 | A list verifies to a state if and only if its ante handlers pass one after the other through states that lead there. |
| Lanes.BaseLane.VerifyTx | block/base/abci.go:164-178 | Passes, fails or panics as the ante handler does; the context changes only when it passes, and then to the ante handler's state. |
| BaseHandlers.GreedyPartitions | block/base/proposals.go:28-148 | Every transaction of the pool is included, removed or left, exactly one of them; included and removed come back in pool order. |
| BaseHandlers.PickedExactly | block/base/proposals.go:28-148 | The included and the removed ones are exactly those marked so. |
| BaseHandlers.GreedyIncludes | block/base/proposals.go:28-148 | The included list verifies in order from the entry state to the exit state, and every prefix of it respects the limits. |
| Fates.EveryFate | block/base/proposals.go:28-148 | Exactly what becomes of each transaction: removed if and only if unreadable, over a limit alone, not the lane's, or refused by its ante handler at its turn; left if and only if already in the proposal or not fitting with those included before; included if and only if otherwise. The handler fails exactly where an ante handler panics. |
| Eagerness.OneMore | block/base/proposals.go:28-148 | From any point of the loop one more transaction extends the result by what is decided on it alone; what that is, Fates.EveryFate states. |
| BaseHandlers.GreedyPassesLaneChecks | block/proposals/update.go:55-83 | The included list always passes the update's hash check and lane limit. |
| BaseHandlers.IncludedGasIsExact | block/proposals/utils.go:25-39 | With a positive consensus gas limit, the true gas of what a lane includes is within the lane's limit, whatever its size limit. |
| BaseHandlers.IncludedSizeIsExact | block/base/proposals.go:99-127 | In a block of fewer than 2^62 bytes, the true size of what a lane includes is within the lane's limit and the block's. |
| BaseHandlers.GasCheckHonestBelowHalf | block/base/proposals.go:114-127 | The wrapping gas check means what it says for all admitted totals if and only if the limit is below 2^63. |
| BaseHandlers.SizeCheckHonestBelowHalf | block/base/proposals.go:99-112 | The same for sizes, if and only if the limit is below 2^62. |
| BaseHandlers.ConsensusGasIsHonest | block/proposals/utils.go:25-39 | The block gas limit is in the honest range if and only if consensus sets a positive one. |
| BaseHandlers.ProcessSound | block/base/proposals.go:156-192 | An accepted list is a segment that matches, passes the order check and verifies, followed by transactions none of which match; what the check asks, Iteration.AcceptsExactly states. |
| Iteration.AcceptsExactly | block/base/mempool.go:100-137 | Two transactions pass the order check if and only if both first signers are readable and the nonce rises for one signer, or the priorities of two do not compare to -1. |
| BaseHandlers.AcceptsSegmentsExactly | block/base/proposals.go:156-192 | A list is accepted if and only if it splits into the lane's transactions, one signer's nonces rising between neighbours and different signers' priorities not comparing to -1, which verify, and others; and it is split there. |
| BaseHandlers.ProcessComplete | block/base/proposals.go:156-192 | Every such list is accepted and split exactly there. |
| BaseHandlers.PreparedIsProcessed | block/base/proposals.go:28-192 | What a default lane builds from a pool any pair of which is in order, followed by other lanes' transactions, it accepts, splits off exactly, and leaves in the same state. |
| DefaultHandler.PrepareLaneHandler | block/base/proposals.go:28-148 | The loop over the iterator includes, removes and leaves the context as the function whose every decision Fates.EveryFate states. |
| DefaultHandler.ProcessLaneHandler | block/base/proposals.go:156-192 | The loop accepts, splits and leaves the context as the function whose verdicts BaseHandlers.AcceptsSegmentsExactly states. |
| DefaultHandler.VerifyNoMatches | block/base/match.go:18-26 | True exactly when no transaction of the list matches the lane. |
| Bids.FirstValidBidIsIncluded | lanes/mev/abci.go:31-89 | The first bid in Select order that matches, decodes, is new, within the limits, free of bids and verifies with its bundle is included with that bundle, and exactly the bids before it are removed; it fails exactly when a bid that panics comes first. |
| Bids.NothingIncludedExactly | lanes/mev/abci.go:31-89 | Nothing is included if and only if there is no such bid and none panics. |
| Bids.AcceptsBidsExactly | lanes/mev/abci.go:100-172 | A list is accepted if and only if nothing in it matches, or it starts with a bid and its bundle, byte for byte, free of bids and verifying; and it is split there. |
| MevHandlers.WinnerVerifies | lanes/mev/abci.go:248-275 | A winning bid and its bundle verify in order from the entry state and no bundled transaction matches the lane. |
| MevHandlers.ProcessMevSound | lanes/mev/abci.go:100-172 | An accepted leading segment is empty or a bid followed by its bundle byte for byte, verified from the entry state. |
| MevHandlers.MevPreparedIsProcessed | lanes/mev/abci.go:31-172 | What was built, followed by any suffix, is split off exactly and leaves the same state. |
| MevHandlers.MevPassesLaneChecks | block/proposals/update.go:55-83 | A winning bid and its bundle always pass the update's hash check and lane limit. |
| MevHandler.CheckBidBasic | lanes/mev/abci.go:176-244 | The loop over the bundle with its early exits returns the bundle exactly when the bid is readable, new and within limits. |
| MevHandler.CheckBidTx | lanes/mev/abci.go:248-275 | Bid and bundle are verified in order on the given context; a matching bundled transaction fails it. |
| MevHandler.PrepareLaneHandler | lanes/mev/abci.go:31-89 | The loop with one cached context per bid selects, removes and writes back as the function whose choice Bids.FirstValidBidIsIncluded states. |
| MevHandler.ProcessLaneHandler | lanes/mev/abci.go:100-172 | The imperative split accepts, rejects and leaves the context as the function says. |
| Chain.FailureIsolation | abci/utils.go:26-64 | With any lanes failing, the chain yields the proposal, maps and state of the chain with those lanes deleted, in which none fails; if all fail, the input comes back. |
| Chain.DeleteFailing | abci/utils.go:36-49 | Deleting any one lane that fails at its turn changes nothing. |
| Chain.ChainAppends | abci/utils.go:59-63 | The transactions built are the encodings of the included ones in order, and the maxima never change. |
| Blocks.BuiltByTurns | abci/utils.go:16-65 | The chain builds the concatenation of what its lanes include, each at its turn from where the one before left off; a lane whose handler, infos or update fails adds and changes nothing. |
| Blocks.EverythingIsIncluded | block/base/proposals.go:28-148 | With default lanes whose pools fit their shares and the block, and ante handlers that let everything pass, the block is everything in the pools. |
| Chain.Route | block/mempool.go:94-98 | The first matching lane and none before it, or past the end when none matches. |
| Chain.UpdateMonotone | block/proposals/update.go:66-103 | A larger block size limit accepts whatever a smaller one does, with the same effect, unless the lane is unlimited and has less room under it. |
| Chain.MonotoneExactly | block/proposals/proposals.go:71-93 | The larger limit accepts everything the smaller one does if and only if it leaves an unlimited lane no less room. |
| Chain.LargerLimitLessRoom | block/proposals/proposals.go:71-93 | A block size below zero under which the largest limit leaves less room than the limit 0: the difference wraps. |
| Chain.SelectionSize | block/base/proposals.go:28-148 | A lane puts no more bytes into a block than its pool holds, an MEV lane no more than one bid with its bundle. |
| Chain.RoomyPoolsKeepRoom | block/proposals/update.go:66-103 | While the bytes in the pools fit an int64 the room never shrinks. |
| Chain.SmallBlocksKeepRoom | block/proposals/update.go:66-103 | Nor does it in a block of fewer than 2^62 bytes whose bids with their bundles fit an int64 each. |
| Chain.NoUnlimitedLaneKeepsRoom | block/proposals/proposals.go:71-93 | Without an unlimited lane, or under equal limits, room plays no part. |
| Chain.Parity | abci/utils.go:16-88 | What the chain builds, whatever lanes failed, the chain accepts from the same state and rebuilds identically: transactions, cache, lane counts, size, gas and final state; for a larger limit on the process side, as long as it leaves unlimited lanes no less room. |
| Chain.IncludedDecodes | block/utils/utils.go:73-85 | Everything included, bundled transactions too, decodes back from its encoding. |
| Chain.PreparedProposalIsAccepted | abci/utils.go:16-88 | The bytes of a built proposal decode, and the decoded list is accepted into the very same proposal and state; for a larger limit on the process side, when no lane is unlimited or the pools' sizes rule out wrapping. |
| Acceptance.AcceptedIsSorted | abci/utils.go:74-88 | An accepted block is one segment per lane in registry order, each transaction in its first matching lane's segment; the final proposal holds the encodings in input order and counts exactly the non-empty segments. |
| Acceptance.AcceptedStartsWithBid | lanes/mev/abci.go:100-172 | With an MEV lane ahead of default lanes an accepted block is one bid with exactly its bundle, or nothing the MEV lane matches, followed by one segment per lane in registry order, all of them counted. |
| Acceptance.NegativeLimitAcceptsOnlyEmpty | block/proposals/update.go:85-93 | Under a negative size limit a chain of default and MEV lanes accepts the empty block and no other whose size fits an int64. |
| SpacePartition.ValidateBasic | block/mempool.go:159-196 | Accepts exactly the registries with lanes, distinct names, at most one unlimited lane and ratios summing to at most 1 (exactly 1 when none is unlimited), and says why otherwise. |
| SpacePartition.ValidExactly | block/mempool.go:159-196 | A registry validates if and only if it has lanes of distinct names, at most one unlimited, and shares that fit a block and fill it when none is unlimited. |
| SpacePartition.SharesFillBlock | block/proposals/proposals.go:89-93 | Truncated shares never exceed the block; when ratios sum to 1 they lose fewer units than there are lanes. |
| SpacePartition.LaneLimitSuffices | block/proposals/update.go:66-103 | With no share behind an unlimited lane, a partial proposal within its lane limit always passes the block checks, at any point of the chain. |
| SpacePartition.UnlimitedMustBeLast | block/mempool.go:174-179 | An unlimited lane ahead of any lane with a share can fill the block so that the later lane's limit admits what the block check rejects. |
| SpacePartition.LimitsSufficeExactly | block/proposals/update.go:66-103 | A lane's own limit is always enough, whatever the lanes before it added, if and only if no lane behind an unlimited one has a share of a real limit. |
| SpacePartition.UnlimitedLast | block/mempool.go:174-179 | An unlimited lane that is absent or last leaves nothing behind it. |
| SpacePartition.LaneAlwaysContributes | block/base/abci.go:62-76 | With no share behind an unlimited lane, and a pool whose selections fit an int64, a default or MEV lane contributes if and only if its handler succeeds, and stays within its share. |
| SpacePartition.NoLaneIsCrowdedOut | abci/utils.go:26-64 | In such a registry with distinct names the lanes that fail while building are exactly those whose own handler fails, whatever the earlier lanes took. |
| SpacePartition.EveryLaneContributes | abci/utils.go:26-64 | So no lane fails at all when no ante handler panics. |
| LaneChain.SelectsStored | block/base/priority_nonce.go:291-379 | Everything a lane selects is stored in its pool, in every reachable pool. |
| LaneChain.RemovedAreSigned | block/base/proposals.go:28-148 | What a default or MEV handler removes is signed, so exactly the senders and nonces of what it removes are gone. |
| LaneChain.PrepareOwnPart | block/base/abci.go:15-87 | One lane's part: a failure leaves proposal and shared maps as they were; the pool afterwards is the old one minus exactly what a default lane discards, or the bids ahead of the first valid one. |
| LaneChain.ChainPrepareLanes | abci/utils.go:16-65 | The recursion with cached contexts, recovery and write-back yields the proposal and state of the chain function, and every pool is what its own lane's turn leaves. |
| LaneChain.RemoveTxsFromLane | block/utils/utils.go:103-111 | The pool without the senders and nonces of the transactions up to the first that has no signer. |
| LaneChain.ProcessOwnPart | block/base/abci.go:93-160 | One lane's verification: proposal with the segment, state, and what is left for the next lanes, or refusal. |
| LaneChain.ChainProcessLanes | abci/utils.go:74-88 | The recursion accepts exactly what the chain function accepts, with its proposal and state. |
| LanedMempools.LanedMempool.Insert | block/mempool.go:85-101 | Reports what the first matching lane answers; only that lane's pool can change, as its plain map would; a transaction no lane matches goes nowhere; every stored transaction stays in its first matching lane and decodes back. |
| LanedMempools.LanedMempool.Remove | block/mempool.go:115-130 | Only the first lane holding the sender and nonce loses them; the invariant is kept. |
| LanedMempools.TakenFrom | block/mempool.go:123-127 | That lane's pool without the sender and nonce, all others unchanged; nothing when no lane holds them. |
| LanedMempools.NewLanedMempool | block/mempool.go:45-59 | A mempool comes back exactly for a registry that validates, and it meets the invariant. |
| LanedMempools.EmptyIsKept | block/mempool.go:45-59 | Lanes with empty pools meet what the invariant asks of their contents. |
| LanedMempools.PlacedKeeps | block/mempool.go:94-98 | Insertions keep every stored transaction in its first matching lane and decodable. |
| LanedMempools.TakenKeeps | block/mempool.go:123-127 | So do removals. |
| LanedMempools.ShrinkingKeeps | block/base/abci.go:36-43 | So does building proposals, which only removes. |
| LanedMempools.DefaultRanksAllTheSame | block/base/tx_priority.go:10-20 | The default priority ranks all transactions the same, and is a total preorder of any priorities. |
| LanedMempools.SelectionStands | block/base/tx_priority.go:10-20 | A lane that ranks everything the same selects a list any pair of which is in order, in every reachable pool. |
| LanedMempools.ParityApplies | block/mempool.go:85-101 | A registry with an optional MEV lane in front and default lanes behind, in any state its invariant allows, meets what parity asks: routing, any pair in order, and decodability. |
| ProposalHandlers.PreparedBlockIsAccepted | abci/abci.go:73-189 | What one node answers to PrepareProposal, a node with the same lanes and state accepts in ProcessProposal, at every height and with either process handler, under the conditions of Chain.PreparedProposalIsAccepted. |
| ProposalHandlers.FilledRegistryAgrees | abci/abci.go:73-189 | The same for the mempool object, where routing, order and decodability follow from its invariant and the shape of its registry; one codec and the conditions on the decoder and on sizes remain. |
| ProposalHandlers.NegativeMaxBytesAcceptsOnlyEmpty | abci/abci.go:136-189 | With a consensus MaxBytes of -1 the custom handler accepts, from the second block on, exactly the empty block. |
| ProposalHandlers.ProposalHandler.PrepareProposal | abci/abci.go:73-128 | Before the second block the request's transactions; afterwards the encodings of what the lanes contribute turn by turn, and every stored transaction when default lanes have room for all. Each pool loses exactly what its lane discards at its turn. |
| ProposalHandlers.ResponseDecodes | abci/abci.go:101-126 | The answer decodes to what the lanes contribute, in registry order. |
| ProposalHandlers.AcceptedExactly | abci/abci.go:136-189 | A proposal is accepted if and only if the custom handler is off, the height is at most 1, or it decodes and the lanes check it turn by turn with nothing left. |
| ProposalHandlers.ProposalHandler.ProcessProposal | abci/abci.go:136-189 | Accepts exactly when the custom handler is off, the height is at most 1, or the block decodes and the chain accepts it. |
| AppLanes.CreateMempool | tests/app/lanes.go:22-97 | The mempool of an application's MEV, free and default lanes is created and meets the invariant. |
| AppLanes.AppCanHold | tests/app/lanes.go:22-97 | It keeps the invariant on every decoded transaction whose bid, if any, is in the denomination of the bids already there. |
| AppLanes.AppNodesAgree | tests/app/lanes.go:22-97 | Nodes with these lanes agree on every block, from the decoder condition alone. |
| AppLanes.AppLanesContribute | tests/app/lanes.go:22-97 | None of these lanes fails while building when the ante handler does not panic and the pools' bytes fit an int64. |
| OrderGaps.AcceptedExactlyWhenOrdered | block/base/proposals.go:177-181 | With any priorities, a default lane accepts what it built if and only if neighbours of the included list are in order. |
| OrderGaps.NothingSkippedIsAccepted | block/base/proposals.go:28-192 | However the occurring priorities rank, a lane with current keys that includes its whole selection accepts what it built. |
| OrderGaps.SafeExactlyWhenAnyPairInOrder | block/base/proposals.go:28-192 | A pool that fits is accepted as built under every ante handler if and only if any two of its transactions are in order. |
| OrderGaps.SkippedNonceBreaksOrder | block/base/proposals.go:129-139 | A pool with distinct priorities on which a failing low nonce makes the lane reject its own block. |
| OrderGaps.HighestMayWait | block/base/priority_nonce.go:291-354 | A sender's highest priority waits behind its own lower nonce: the first transaction of a selection need not be the dearest. |
| OrderGaps.StaleKeyIsNeverReturned | block/base/priority_nonce.go:281-283 | With a library that keeps stored keys, a run of three inserts after which a stored transaction is never selected. |
| OrderGaps.StaleKeyMayBeReturned | block/base/priority_nonce.go:281-283 | A stale key alone in the pool is still returned: staleness by itself is not the condition. |
| StaleOrder.StaleKeyBreaksOrder | block/base/priority_nonce.go:281-283 | With a library that keeps stored keys, a run of four inserts after which everything is selected, but two neighbours fail the process-side comparison. |
| Decoder.CachedAreDistinct | block/utils/decoder.go:67-103 | In every run the last maxSize successful misses are distinct and decodable. |
| Decoder.CacheTxDecoder.Decode | block/utils/decoder.go:67-103 | Returns what the plain decoder returns; with no room it panics exactly on a successful decode; hits and failures change nothing; the cache stays the last misses in FIFO order. |
| Decoder.CacheTxDecoder.IndicesTogether | block/utils/decoder.go:83-99 | The next slot lies as many slots past the oldest as there are cached transactions, modulo the size. |
| Decoder.CacheTxDecoder.Contains | block/utils/decoder.go:114-121 | True exactly for the last maxSize successful misses. |
| Auction.ValidateAuctionBundle | x/auction/keeper/auction.go:145-179 | Accepts exactly bundles without front-running, judged on the sets as passed in; the caller's first set is left as the signers common to all. |
| Auction.VerdictAtGap | x/auction/keeper/auction.go:161-176 | At the first transaction sharing no signer with those before, the verdict is whether the bidder is not in the first set and is in every set from there on. |
| Auction.SingleSigners | x/auction/keeper/auction.go:135-144 | With one signer each: one party's prefix, then only the bidder. |
| Auction.FilterSigners | x/auction/keeper/auction.go:217-223 | Deletes in place exactly the signers missing from the other set. |
| Auction.ProposerReward | x/auction/keeper/auction.go:114-116 | The largest whole amount not above bid times fee. |
| Auction.SplitIsExact | x/auction/keeper/auction.go:114-125 | Two truncations of the decimal bid round once; the escrow part has no remainder. |
| Auction.ExtractBid | x/auction/keeper/auction.go:95-133 | For any three accounts, the same or not: succeeds exactly when the bidder has what the two transfers need in turn, and then debits the bid and credits its two parts; a failure can leave the reward paid, exactly when the bidder can pay that much. |
| Auction.SendBid | x/auction/keeper/auction.go:207-214 | Moves the amount or nothing, to the module account or any other alike. |
| Auction.ExtractUnderVerifyTx | block/base/abci.go:164-178 | Under the cached context the bid is all or nothing. |
| Auction.PaidKeepsSupply | x/auction/keeper/auction.go:95-133 | A paid bid conserves the total held by any accounts that include the parties. |
| Auction.DistinctParties | x/auction/keeper/auction.go:95-133 | A bidder with an account of its own needs exactly the bid, and proposer and escrow are credited exactly their parts. |
| Auction.ProposerIsPaid | x/auction/keeper/auction.go:95-133 | The provider's address gets the proposer's part; escrow gets the whole bid without a fee or when the provider fails. |
| Varints.SovIsLength | block/proposals/types/types.pb.go:244-246 | The bit-length formula is the number of seven-bit groups. |
| Varints.EncodeVarint | block/proposals/types/types.pb.go:204-214 | Writes the varint so that it ends at the offset and leaves everything behind it. |
| Varints.ReadsBack | block/proposals/types/types.pb.go:256-269 | Reading a written varint gives back every 64-bit number, from any position. |
| WireFormat.EntriesLength | block/proposals/types/types.pb.go:221-228 | Any order of the map's entries takes the same number of bytes. |
| WireRoundTrip.RoundTrip | block/proposals/types/types.pb.go:144-488 | Parsing a printed message gives the message back, for every order of the map and all field values, negative ones included. |
| ProposalInfos.ProposalInfo.Size | block/proposals/types/types.pb.go:215-242 | The exact length of the message for every order of the map. |
| ProposalInfos.ProposalInfo.MarshalToSizedBuffer | block/proposals/types/types.pb.go:159-202 | Fills the end of the buffer, back to front, with the message in some order of the map. |
| ProposalInfos.ProposalInfo.Marshal | block/proposals/types/types.pb.go:144-152 | The bytes written fill the buffer of Size bytes, are the message, and parse back to the object's value. |
| ProposalInfos.ProposalInfo.Unmarshal | block/proposals/types/types.pb.go:250-488 | Merges any bytes into the fields as the parse function says, or returns the first error and leaves what was merged until then, the bits of an unfinished scalar included. |
| ProposalInfos.SkipTypes | block/proposals/types/types.pb.go:489-566 | Skips one field of any wire type, groups nested to any depth, or returns the first error. |
| WireUnknown.MessageParses | block/proposals/types/types.pb.go:250-566 | Every message of map entries, scalars and unknown fields, in any order and with repetitions, parses to what it says. |
| WireUnknown.UnknownFieldsAreIgnored | block/proposals/types/types.pb.go:468-566 | Unknown fields of every wire type, groups nested to any depth included, make no difference anywhere in a message. |
| WireUnknown.RefusedTags | block/proposals/types/types.pb.go:270-437 | An end of group, a field number that is not positive, and a known field of the wrong wire type are refused with their own errors, leaving the message as it is. |

## Left out

- Skip-list internals: an external library, modelled as a sorted sequence of entries; whether setting an equal key replaces the stored key is a parameter of the model.
- PriorityMempool.PriorityNonceMempool.Insert: the priority is a function of the transaction; reading it from the context is not modelled.
- Element pointers: the pointer a priority key keeps to its sender's entry is the nonce it is stored under.
- Iteration.SelectionOnce: needs current sender lists; without them `Iteration.CompleteExactlyWhenUnblocked` says exactly which senders are returned whole, and `OrderGaps.StaleKeyIsNeverReturned` has one that is not.
- Iteration.SelectionPassesOrderCheck: needs current sender lists; `StaleOrder.StaleKeyBreaksOrder` has a run without them on which the order is broken.
- Mutation of the pool during an iteration.
- NextSenderTx and IsEmpty of the mempool: not used by the pipeline.
- PriorityMempool.PriorityNonceMempool.Insert: with a priority that does not rank among those occurring in the pool, such as a bid in a second denomination (`MevPriority.RanksExactlyOneDenomination`), it still does what it does to the indices, but the invariant is then not promised.
- The coins library: printing and parsing are parameters of `MevPriority`.
- Chain.Parity: default lanes must rank all their transactions the same; for other priorities `OrderGaps.AcceptedExactlyWhenOrdered` gives the exact condition and `OrderGaps.SkippedNonceBreaksOrder` an input that fails.
- Chain.PreparedProposalIsAccepted: a process limit below the request's; a negative one is settled by `Acceptance.NegativeLimitAcceptsOnlyEmpty`. With unequal limits and an unlimited lane, pools that `SizesAreSafe` does not cover; `Chain.MonotoneExactly` says when one update can differ.
- Acceptance.AcceptedStartsWithBid: after a bundle the code does not search the rest for further bids, so those count for the lanes behind.
- Distinct hashes inside one partial proposal: the code consults only the existing cache.
- Proposals.UpdateProposal: the transaction slice is a value, so the backing array that appends may share between copies is not modelled.
- One encoder, decoder and signer extractor serve all lanes of the parity results.
- The terminator lane is the end of the chain; logging, metrics, telemetry and mutex locking have no counterpart.
- LanedMempools.LanedMempool.Insert: a panic while matching, and the error wrapping around it, are not modelled.
- LanedMempool.CountTx, GetTxDistribution, Contains and Select (which returns nil): simple loops or constants.
- Contexts share no state other than through the values written back; gas meters and events are not modelled.
- Decoder.CacheTxDecoder.Decode: assumes hashes without collisions and one caller at a time.
- Auction.ExtractBid: balances are of the bid's one denomination and fully spendable.
- Auction.ValidateAuctionBundle: the sets are distinct objects; ValidateBidInfo as a whole and bundle timeouts are not modelled.
- A nil and an empty map of ProposalInfo are the same value; sozTypes is unused.
- CheckTx handlers, signature extraction, hashing, coin parsing, gRPC services, gateways, generated pulsar code, CLI, module wiring and genesis: wrappers around libraries.
