# Verified model of the bridge clients

This project models the decision logic of the Bitcoin bridge clients (vault, header relayer, light wallet,
oracle, auto-updater) and proves what that logic is for. RPC endpoints are environments: a node whose chain
grows and whose mempool drains into it, a relay store, a request table, a block explorer. Their answers are
parameters, and every schedule of answers the code can meet is quantified over.

| file | models |
|---|---|
| `Transactions.dfy` | reading request ids and amounts out of transactions; fee bumps |
| `ReverseStream.dfy` | the backwards block stream |
| `Recovery.dfy`, `RestartSafety.dfy` | restart recovery: collecting open requests, matching, the scan as a concurrent machine |
| `Deadlines.dfy`, `Cancellation.dfy` | the two-clock deadlines and the cancellation scheduler |
| `Wallet.dfy`, `Serialization.dfy` | coin selection, sizes, fees and change; the bytes the sizes are measured against |
| `Relay.dfy`, `RelayRunner.dfy`, `RelaySafety.dfy` | start height, batches, catching up, several relayers on one store |
| `Oracle.dfy` | route reduction and route validation |
| `IssueSet.dfy`, `Rescan.dfy`, `Delay.dfy`, `ClientRunner.dfy` | watched issues, past deposits, ranking delay, the one-child runner |
| `Integers.dfy`, `Wrappers.dfy` | fixed-width integers, Option and Result |

What code updates in place is a class or a method with loops, tied by its `ensures` to a function on values;
the properties are lemmas about those functions. Concurrent behaviour is a step relation, and the safety
results hold for every sequence of enabled steps.

Main results:

- A request that is already paid when recovery starts is never paid again, whatever is mined or arrives and
  however often reads fail meanwhile, unless a fault hits the payment itself. Conversely it is stated exactly
  when a run that pays a request exists: without faults, with unknown mempool errors, and with pruned blocks.
- The block stream delivers exactly the blocks from the tip read by its first successful poll down to the
  stop height, linked, and ends under any schedule of errors that spares enough polls, or at the first pruned
  block; with stop height zero it never ends by itself.
- Any number of fee bumps leaves a payment matching its request.
- The light wallet succeeds exactly when some front of the listed coins reaches the target, uses the shortest
  one, conserves value, and pays for the serialized bytes of the dummy-signed transaction whenever its estimates
  leave room for the counts.
- The relayer's start height is the unique boundary between stored and unstored blocks, whichever branch the
  relay prefers; steps submit exactly `min(batch, gap)` headers, all with the configured confirmations, and catch
  up in `ceil(gap / batch)` steps; any number of interleaved relayers keep the store ancestor-closed.
- The scheduler loses no request exactly when every event keeps them, as all do whose refreshes succeed, and
  cancels nothing before both periods have passed on both clocks; the pay and cancel windows of a replace never
  overlap.
- A price reduced along a simple chain is true of every valuation its quotes are true of; and for every route,
  accepted or not, it is stated exactly when it reports the configured pair at its true price.

## Where the code and its descriptions differ

- `bitcoin/src/iter.rs:51` says the stream ends at the stop height. At stop height zero the height saturates and
  the stream fails forever on the block before genesis (`ReverseStream.NeverEndsAtStopZero`).
- `vault/src/relay/mod.rs:46-53` ends its forward pass when the node fails to answer. The height returned is then
  the lowest one the node failed for (`Relay.EarlyStopExact`), and it is no boundary exactly when its block is
  stored (`Relay.StartHeightIsBoundary`, with `Relay.EarlyStopWitness`).
- `vault/src/relay/issuing.rs:127` counts the header at height zero as not stored, so a relay initialised there
  has no boundary exactly while its main chain does not share its first block with the node's, and is stuck as
  long (`Relay.GenesisBoundaryExact`, `RelayRunner.StuckAtGenesis`).
- `vault/src/cancellation.rs:239-264`: a failed refresh empties the list and the list still counts as valid after
  any event but `Opened` (`Cancellation.FailedRefreshForgets`); `Cancellation.EventLosesNothing` says exactly when
  that loses requests.
- `vault/src/types.rs:20-24`: insertion keeps the two maps inverse exactly when neither side was bound to something
  else (`IssueSet.InsertKeepsInverse`).
- `oracle/src/config.rs:57-90` accepts routes that report another pair (`Oracle.TurningRouteMisreports`) and routes
  that report the right pair at a false price (`Oracle.AcceptedRouteMisprices`). `Oracle.RouteServesPair` gives the
  exact condition on the configuration, `Oracle.JoinedRouteServesPair` a check by counting names.
- `runner/src/runner.rs:242-251` only logs a failed wait, after which an update starts a second client
  (`ClientRunner.SecondClientIffWaitFails`).

## Model

| member | source | states |
|---|---|---|
| Transactions.PayloadExact | bitcoin/src/lib.rs:1107-1116 | addresses and the scripts that pay to them correspond one to one |
| Transactions.GetPaymentAmountToExact | bitcoin/src/lib.rs:1107-1116 | the value of the first output that pays the address, and nothing exactly when no output does |
| Transactions.GetOpReturnExact | bitcoin/src/lib.rs:1088-1105 | the id of the first 34-byte id script among the first three outputs, whatever comes later |
| Transactions.ExtractReturnToSelfExact | bitcoin/src/lib.rs:1128-1151 | the return-to-self output is found exactly when it is unique; none and several are told apart |
| Transactions.OpReturnPaysNobody | bitcoin/src/lib.rs:1093-1116 | a request-id script is never an address, so it is neither payment nor change |
| Transactions.BuiltPays | bitcoin/src/lib.rs:1088-1116 | payment, request id and at most one change, in any order, read back as that id and amount |
| Transactions.CreatedIsBuilt | bitcoin/src/light/wallet.rs:337-358 | a fresh payment has that shape, with the data output first or last |
| Transactions.FundKeepsBuilt | bitcoin/src/lib.rs:443-451 | funding may add one change output at any position without changing the shape |
| Transactions.BumpKeepsBuilt | bitcoin/src/lib.rs:862-885 | a bump of such a transaction finds its return-to-self output and gives such a transaction again |
| Transactions.BumpsKeepPayment | bitcoin/src/lib.rs:862-899 | any number of bumps leaves id and amount as they were |
| Transactions.SentPaymentSurvivesBumps | vault/src/execution.rs:310-353 | the same for a payment from creation on |
| Transactions.RemovalKeepsAmount | bitcoin/src/lib.rs:1107-1116 | on any transaction, dropping an output that is not to the recipient keeps the amount paid |
| Transactions.FundExact | bitcoin/src/lib.rs:443-451 | funding adds nothing, or one output at its position |
| Transactions.BumpFeeExact | bitcoin/src/lib.rs:862-885 | on any transaction a bump fails exactly when there are several return outputs, and otherwise drops the one there is before funding |
| Transactions.SeveralReturnsStay | bitcoin/src/lib.rs:1144-1150 | a transaction with several return outputs is never changed by bumps |
| ReverseStream.ReverseBlockStream.Poll | bitcoin/src/iter.rs:84-114 | one poll of the stream: new height and block on success, unchanged state on failure, ended for good on end |
| ReverseStream.PollExact | bitcoin/src/iter.rs:86-111 | against a valid chain a poll ends exactly at a pruned block or below the stop height, fails exactly when a call does or below genesis, and otherwise delivers the next lower block |
| ReverseStream.DeliversFromTip | bitcoin/src/iter.rs:47-54 | over any schedule of faults the blocks delivered run down from the first tip read, and reach the stop height if the stream ended unpruned |
| ReverseStream.DeliversBelow | bitcoin/src/iter.rs:86-103 | the same from the middle of a run |
| ReverseStream.DeliveredTo | bitcoin/src/iter.rs:84-114 | ended or not, a run has delivered exactly the blocks from the tip first read down to where it stands |
| ReverseStream.EndsAtPruned | bitcoin/src/iter.rs:103-107 | a poll that meets a pruned block ends the run, which has delivered exactly the blocks above it |
| ReverseStream.DeliveredAreLinked | bitcoin/src/iter.rs:86-88 | consecutive blocks are linked by the previous-block hash |
| ReverseStream.EndsBelow | bitcoin/src/iter.rs:84-114 | from any point of a run, for any schedule of faults, the stream ends once more polls were spared than heights are left |
| ReverseStream.EndsWhenStopPositive | bitcoin/src/iter.rs:84-114 | for any schedule of faults that spares enough polls the stream ends at a positive stop height, having delivered every block from the tip first read if none was pruned |
| ReverseStream.NeverEndsAtStopZero | bitcoin/src/iter.rs:87-95 | with stop height zero no run ends unless a block is pruned |
| Deadlines.RoundedUpExact | vault/src/execution.rs:39-56 | fifty parachain blocks to a Bitcoin block, rounded up, with no error case |
| Deadlines.DeadlineExists | vault/src/execution.rs:70-95 | exactly when a payment deadline can be computed |
| Deadlines.WindowsNeverOverlap | vault/src/execution.rs:174-180 | once the scheduler considers a replace expired the payment gate refuses, then and later |
| Deadlines.GateLeavesMargin | vault/src/execution.rs:174-180 | the gate passes exactly when more than the margin is left on one of the clocks |
| Deadlines.GateExact | vault/src/execution.rs:39-95 | the same in numbers: twelve seconds a parachain block, fifty of them a Bitcoin block, rounded up |
| Deadlines.CancelDeadlineExact | vault/src/cancellation.rs:293-301 | the cancel deadline exists exactly when the sums fit, and is past exactly when both periods are, on both clocks |
| Deadlines.ReducedPeriodWithinOneBlock | vault/src/execution.rs:85-89 | the Bitcoin deadline is never later than that of the reduced period, and at most one block earlier |
| Recovery.OpenRequestsExact | vault/src/execution.rs:441-455 | the requests to recover are the pending ones of both kinds whose deadline exists, each made from the last such entry with its id |
| Recovery.OpenAsStored | vault/src/execution.rs:441-455 | a pending entry alone under its id is open with its own height, amount and address |
| Recovery.ConstructibleExact | vault/src/execution.rs:65-95 | in numbers, which stored requests can be recovered |
| Recovery.OpenRequestIsGated | vault/src/execution.rs:98-139 | a pending entry alone under its id is refused payment exactly when its period less the margin has passed on both clocks, and has the kind of its list |
| Recovery.StartHeight | vault/src/execution.rs:458-465 | the lowest Bitcoin height of any open request, or nothing to do |
| Recovery.MatchExact | vault/src/execution.rs:574-583 | a transaction matches a request exactly when it carries its id and pays its address enough |
| Recovery.BumpedPaymentSatisfies | vault/src/execution.rs:574-583 | a payment bumped any number of times matches its request |
| Recovery.ScanTransactions | vault/src/execution.rs:470-521 | the scan is a set filter: one task per request some transaction pays, the rest left to pay, in any order and multiplicity |
| RestartSafety.StepKeepsSafe | bitcoin/src/iter.rs:21-29 | every step of node or scan that does not hit the payment keeps an already paid request matched or still ahead of the scan |
| RestartSafety.ReadBlockKeepsSafe | bitcoin/src/iter.rs:94-111 | reading a block moves the window past it only by handing its transactions on |
| RestartSafety.MineKeepsSafe | bitcoin/src/lib.rs:796-810 | a transaction leaving the mempool is in a block the scan has yet to read |
| RestartSafety.NoDoublePayment | vault/src/execution.rs:467-527 | no interleaving that spares the payment hands a request that was already paid to pay-and-execute |
| RestartSafety.NoDoublePaymentSinceRequest | vault/src/execution.rs:457-465 | with the computed stop height, payments in any block since the request count |
| RestartSafety.RecoveryPaysNothingTwice | vault/src/execution.rs:432-527 | collecting, stop height and scan composed: a listed request whose address was paid its amount since it was made is not paid again |
| RestartSafety.RunPartitions | vault/src/execution.rs:480-527 | over every run, with faults too, requests are split into executed and paid, none in both and none in neither |
| RestartSafety.PaidExactlyWhenUnseen | vault/src/execution.rs:467-527 | a faultless run that pays a request exists if and only if the stop height is positive and either no payment was there to be seen or the stop height lies above the next block |
| RestartSafety.PaidTwiceWhenNodeIsBehind | bitcoin/src/iter.rs:94-95 | a payment in the mempool can be repeated without a fault if and only if the node is behind the stop height |
| RestartSafety.PaidTwiceAfterMempoolError | vault/src/execution.rs:471-477 | exactly when unknown mempool errors allow a run that pays: unless the payment is in a block the scan reads |
| RestartSafety.PaidTwiceWhenPruned | bitcoin/src/iter.rs:103-107 | pruned blocks allow a run that pays any open request, from every start |
| Cancellation.ConvertExact | vault/src/cancellation.rs:284-310 | deadlines come from the longer period, and one that does not fit fails the refresh |
| Cancellation.OpenTimesExact | vault/src/cancellation.rs:82-95 | exactly the pending requests are considered |
| Cancellation.OpenTimesInOrder | vault/src/cancellation.rs:82-95 | in the order they are reported |
| Cancellation.GetOpenRequestsExact | vault/src/cancellation.rs:274-313 | when a refresh succeeds, and the id and both deadlines of every request it then lists |
| Cancellation.CancellationScheduler.DrainExpired | vault/src/cancellation.rs:154-169 | the in-place loop splits the list into expired and not expired, both in order |
| Cancellation.DrainedExact | vault/src/cancellation.rs:154-169 | which requests each part holds |
| Cancellation.DrainedInOrder | vault/src/cancellation.rs:154-169 | draining keeps order and repetitions |
| Cancellation.CancellationScheduler.CancelRequests | vault/src/cancellation.rs:209-223 | cancel is called in order up to the first failure, which makes the list invalid |
| Cancellation.CancelAllExact | vault/src/cancellation.rs:212-222 | a valid list means every expired request was cancelled |
| Cancellation.CancellationScheduler.ProcessEvent | vault/src/cancellation.rs:227-271 | computes the state after the event and the cancel calls, which `EventExact` describes |
| Cancellation.EventExact | vault/src/cancellation.rs:227-271 | only the event's clock moves, to its height; which requests stay listed, which are called for, and when the list is valid |
| Cancellation.EventLosesNothing | vault/src/cancellation.rs:227-271 | an event loses no pending request if and only if it keeps them: valid list, successful refresh, `Opened`, or nothing left to forget; cancel is called only past both deadlines at the heights the event leaves, and a block event ending valid leaves nothing expired |
| Cancellation.CancellationLosesNothing | vault/src/cancellation.rs:195-207 | over every event sequence nothing is ever lost if and only if every event keeps the requests, in particular when all refreshes succeed |
| Cancellation.NothingIsCancelledEarly | vault/src/cancellation.rs:209-271 | over every event sequence cancel is called only when the last announced height of each clock is past both periods since the request was opened |
| Cancellation.FailedRefreshForgets | vault/src/cancellation.rs:239-264 | a failed refresh empties the list, which counts as valid exactly when the event is not `Opened` |
| Cancellation.FailedRefreshExact | vault/src/cancellation.rs:239-264 | after a failed refresh nothing is lost exactly at `Opened` or when every request was executed or cancelled |
| Wallet.GetFeeExact | bitcoin/src/light/wallet.rs:126-128 | the least fee that pays the rate for the size, the product saturating at 64 bits |
| Wallet.FeeSubadditive | bitcoin/src/light/wallet.rs:126-128 | the saturating ceiling fee is subadditive |
| Wallet.SumsSplit | bitcoin/src/light/wallet.rs:136-168 | sums count every coin once, at its value less its fee but not below zero where they are effective |
| Wallet.ListingExact | bitcoin/src/light/wallet.rs:253-266 | coins are read address by address, in order, up to the first failed answer |
| Serialization.VarIntRoundTrip | bitcoin/src/light/wallet.rs:28-36 | a reader gets every 64-bit count back |
| Serialization.InputWeightIsLength | bitcoin/src/light/wallet.rs:81-103 | the weight of an input is three times its serialized length plus the length with its dummy witness |
| Serialization.TxWeightIsLength | bitcoin/src/light/wallet.rs:105-117 | BIP 141: the weight of the dummy-signed transaction is three times its stripped length plus its full length |
| Serialization.SignedTxSizeIsLength | bitcoin/src/light/wallet.rs:88-117 | its virtual size is a quarter of that, rounded up |
| Serialization.NoInputsSizeIsLength | bitcoin/src/light/wallet.rs:239-252 | the non-input estimate is the stripped transaction without inputs and two bytes; the change estimate is the length of the change output |
| Wallet.SelectCoins.Add | bitcoin/src/light/wallet.rs:156-158 | a selected coin is appended |
| Wallet.SelectCoins.GetSelectedValue | bitcoin/src/light/wallet.rs:161-163 | the sum of the selected values |
| Wallet.SelectCoins.GetChange | bitcoin/src/light/wallet.rs:171-183 | what exceeds target and change fee, if viable |
| Wallet.ChangeOfExact | bitcoin/src/light/wallet.rs:171-183 | change and its fee are exactly what exceeds the target, or there is none |
| Wallet.SelectFromAddress | bitcoin/src/light/wallet.rs:266-294 | the inner loop: what is missing is always the target less the effective values, and it stops at the first coin that reaches it |
| Wallet.FundTransaction | bitcoin/src/light/wallet.rs:228-326 | funding succeeds exactly when a non-empty front of the listed coins reaches the target, uses the shortest, and reports the right error otherwise |
| Wallet.AddChange | bitcoin/src/light/wallet.rs:294-321 | the change output and its late adjustment |
| Wallet.ShortestIsFront | bitcoin/src/light/wallet.rs:294-321 | every other front that reaches the target extends the one used |
| Wallet.FeeRetNeverUnderflows | bitcoin/src/light/wallet.rs:310 | the fee estimate's subtraction never goes below the non-input fees |
| Wallet.CompleteConserves | bitcoin/src/light/wallet.rs:294-321 | inputs are unchanged recipients, change and fee, and the exact fee in every case |
| Wallet.SizeWithinEstimates | bitcoin/src/light/wallet.rs:81-117 | the sizes estimated for inputs, non-inputs and change cover the dummy-signed size of BIP 141 if and only if the counts fit |
| Wallet.CountsFitExact | bitcoin/src/light/wallet.rs:88-103 | with real keys they fit for any number of inputs, unless change lengthens the output count and inputs are too few |
| Wallet.EstimatesSuffice | bitcoin/src/light/wallet.rs:81-128 | if the counts fit, the three fee estimates pay for the dummy-signed size |
| Wallet.FeeAdequate | bitcoin/src/light/wallet.rs:294-318 | if the counts fit, the fee paid is at least what the final size needs, exactly that with change, at most the estimates without |
| Wallet.FeeAdequateExactly | bitcoin/src/light/wallet.rs:294-318 | with change, at whole satoshi per byte, the fee is adequate if and only if the counts fit |
| Serialization.FeePaysForBytes | bitcoin/src/light/wallet.rs:294-318 | what is paid is at least the rate for the bytes of the dummy-signed transaction |
| Wallet.TargetFits | bitcoin/src/light/wallet.rs:234-259 | no amount computed before a coin is read wraps if and only if the target fits in 64 bits |
| Wallet.AmountsFit | bitcoin/src/light/wallet.rs:262-318 | no amount computed from the selected coins wraps if and only if their values together fit in 64 bits |
| Relay.ComputeStartHeight | vault/src/relay/mod.rs:31-57 | the two loops compute the backward and forward passes, with every failing call |
| Relay.StartHeightIsBoundary | vault/src/relay/mod.rs:38-56 | the block before the answer is stored and the one at it is not, if and only if the node did not fail there on a stored block |
| Relay.EarlyStopExact | vault/src/relay/mod.rs:46-53 | the answer is the faultless one if and only if the node answers from the common block up to the boundary, and otherwise the lowest height it failed for |
| Relay.StartHeightFails | vault/src/relay/mod.rs:31-57 | exactly which failing calls fail the search instead of stopping it early |
| Relay.EarlyStopWitness | vault/src/relay/mod.rs:46-53 | every relay has a single node failure that makes the answer a stored height |
| Relay.GenesisBoundaryExact | vault/src/relay/issuing.rs:125-128 | with a root at height zero the answer is a boundary if and only if, besides, the main chain shares its first block with the node's |
| Relay.StoredIsInterval | vault/src/relay/issuing.rs:125-128 | the stored blocks of any chain form an interval from the root |
| Relay.BoundaryUnique | vault/src/relay/mod.rs:38-56 | there is only one such boundary |
| Relay.StartHeightIgnoresMainChain | vault/src/relay/mod.rs:35-53 | the answer is the same whichever stored branch is the main chain |
| Relay.StartHeightAnswers | vault/src/relay/mod.rs:39-43 | without faults it answers exactly when the node has reached the relay and the root is on its chain, and reports an uninitialised relay exactly when it is not |
| Relay.CollectHeaders | vault/src/relay/mod.rs:20-26 | the headers of a batch, in order |
| Relay.HeadersAt | vault/src/relay/mod.rs:20-26 | each header of the batch is the chain's at its height |
| Relay.HeadersExtendStore | vault/src/relay/issuing.rs:104-114 | a batch behind a stored block is accepted and adds exactly those blocks |
| Relay.StoreHeadersExact | vault/src/relay/issuing.rs:104-114 | a list is taken exactly when every header is new and has its parent stored or earlier in the list, and then whole |
| Relay.BatchSizeExact | vault/src/relay/mod.rs:140-144 | the batch is the smaller of the maximum and the gap |
| RelayRunner.Runner.SubmitNextBlocks | vault/src/relay/mod.rs:123-181 | one step computes initialisation, waiting, single and batched submission, which `InitializeExact`, `StepExact` and `StoredStartChangesNothing` describe |
| RelayRunner.InitializeExact | vault/src/relay/mod.rs:123-133 | an uninitialised relay gets the configured header, or else the one `btc_confirmations` below the tip, saturating at zero |
| RelayRunner.StuckAtGenesis | vault/src/relay/issuing.rs:125-128 | a relay with a root at height zero that does not share its first block with the node is unchanged by every step |
| RelayRunner.StepExact | vault/src/relay/mod.rs:113-178 | exactly a batch of headers, each with height plus confirmations at most the tip height, fewer than the maximum only when there are no more; the store gains just those |
| RelayRunner.StoredStartChangesNothing | vault/src/relay/issuing.rs:80-101 | a start that turns out to be stored is dropped silently alone and refused in a batch, and the relay stays as it is |
| RelayRunner.StepsExact | vault/src/relay/mod.rs:184-202 | where any number of steps gets to |
| RelayRunner.CatchesUp | vault/src/relay/mod.rs:113-202 | `ceil(gap / batch)` steps store every header whose height plus confirmations is at most the tip height, and no other; then steps wait |
| RelaySafety.SubmissionsAreLinked | vault/src/relay/mod.rs:113-178 | every submission's headers exist, have the configured confirmations on top, are linked, and start on a stored parent or are the root again |
| RelaySafety.LinkedKeepsClosed | vault/src/relay/issuing.rs:80-114 | linked headers are never refused for a missing parent and keep the store closed |
| RelaySafety.StepKeepsGood | vault/src/relay/mod.rs:31-57 | every step of any relayer keeps the invariant and only grows the store |
| RelaySafety.ManyRelayersOneStore | vault/src/relay/mod.rs:123-202 | under any interleaving of relayers the store stays ancestor-closed and only grows |
| RelaySafety.AloneIsSubmitNext | vault/src/relay/mod.rs:31-57 | the small steps of a relayer left alone find the height `compute_start_height` returns |
| RelaySafety.SubmitNextIsReachable | vault/src/relay/mod.rs:123-181 | and reach the store `submit_next` leaves |
| Oracle.ReduceKeepsTruth | oracle/src/currency.rs:125-146 | in any orientation two true prices reduce to the true price across their shared currency |
| Oracle.InvertKeepsTruth | oracle/src/currency.rs:91-96 | inverting a true price gives a true price |
| Oracle.RouteKeepsTruth | oracle/src/feeds.rs:121-131 | the fold over a simple chain is true and joins its ends |
| Oracle.PriceIsTrue | oracle/src/feeds.rs:121-139 | what is reported is the configured pair at the ratio of valuations |
| Oracle.RouteServesPair | oracle/src/feeds.rs:121-139 | for every route: it reports the configured pair at its true price under every valuation if and only if it reduces to that pair and every other currency's net exponent is zero |
| Oracle.PriceByExponents | oracle/src/currency.rs:125-146 | routes with the same net exponents have the same price under every valuation |
| Oracle.JoinedRouteServesPair | oracle/src/feeds.rs:121-139 | no route serves a pair unless just its two currencies occur an odd number of times, and for a joined route that is exact |
| Oracle.JoinedRouteReportsTruth | oracle/src/feeds.rs:121-139 | what a joined route reports is true of the pair it reports |
| Oracle.UnjoinedRouteServes | oracle/src/config.rs:57-90 | an accepted route that is not joined can serve its pair, so joinedness is not the condition |
| Oracle.AcceptedRouteMisprices | oracle/src/config.rs:57-90 | an accepted route that reports the right pair at a false price |
| Oracle.StripExact | oracle/src/currency.rs:51-56 | names are compared up to the first `=` |
| Oracle.ValidateRouteExact | oracle/src/config.rs:57-90 | exactly which routes are accepted, and which error the others get |
| Oracle.ChainsAreValid | oracle/src/config.rs:57-90 | every simple chain between the pair's currencies is accepted |
| Oracle.ValidateExact | oracle/src/config.rs:58-89 | a configuration is accepted if and only if all its routes are; otherwise the first bad route is reported |
| Oracle.TurningRouteMisreports | oracle/src/config.rs:57-90 | a route that turns back is accepted and reports another pair |
| IssueSet.ReversibleHashMap.Insert | vault/src/types.rs:20-24 | both maps updated, previous bindings returned |
| IssueSet.ReversibleHashMap.RemoveKey | vault/src/types.rs:27-38 | the key and its value removed from both maps |
| IssueSet.ReversibleHashMap.RemoveValue | vault/src/types.rs:41-52 | the value and its key removed from both maps |
| IssueSet.InsertKeepsInverse | vault/src/types.rs:20-24 | the maps stay inverse exactly when neither side was bound to something else |
| IssueSet.RemovalKeepsInverse | vault/src/types.rs:27-52 | removals keep the maps inverse |
| IssueSet.FirstWatched | vault/src/issue.rs:149-158 | the first watched output address, or none is watched |
| IssueSet.Claim | vault/src/issue.rs:155-194 | a claim is for a watched pair and a payment of at least amount plus fee |
| IssueSet.ClaimExact | vault/src/issue.rs:149-190 | a claim is made exactly when the first watched output's request is known and paid at least amount plus fee, an exact payment included |
| IssueSet.StepExact | vault/src/issue.rs:310-368 | which pair each step adds to or removes from the watched ones |
| IssueSet.WatchSetIsSound | vault/src/issue.rs:149-194 | under any interleaving the maps equal the set of watched pairs, no pair is claimed more often than inserted, and each of these claims was paid in full |
| Rescan.GetAddressTxHistoryFull | bitcoin/src/electrs/mod.rs:96-112 | the paging loop ends with the full history, each transaction once |
| Rescan.OldAddressesExact | vault/src/issue.rs:121-131 | the explorer is asked exactly about requests older than the pruned height |
| Rescan.RescanElectrsForAddresses | bitcoin/src/lib.rs:1002-1034 | address by address, imports exactly the confirmed payments of the full history, up to the first failed lookup |
| Rescan.ImportedExact | bitcoin/src/lib.rs:1008-1023 | exactly the transactions that pay an asked address and are not known to be unconfirmed are imported |
| Rescan.RescanPlanExact | vault/src/issue.rs:86-131 | where the local range starts and ends, and which addresses the explorer is asked about |
| Rescan.AddKeysFromPastIssueRequest | vault/src/issue.rs:86-134 | plan and imports of a whole rescan |
| Rescan.EveryDepositIsFound | vault/src/issue.rs:86-134 | every payment of the chain to a past request's address is in a block rescanned locally or among the imports |
| Delay.Log2Exact | vault/src/delay.rs:63 | the whole-number logarithm |
| Delay.RankCounts | vault/src/delay.rs:58-62 | the rank is the number of listed entries that hash lower |
| Delay.DelayExact | vault/src/delay.rs:49-65 | the wait is the whole-number logarithm of that number plus one, bounded on both sides |
| Delay.RankMonotone | vault/src/delay.rs:58-62 | a lower hash ranks lower, strictly so for a listed account |
| Delay.FewWaitLittle | vault/src/delay.rs:41-45 | at most two to the power of d distinct accounts wait d blocks |
| Delay.OneWaitsZero | vault/src/delay.rs:41-45 | exactly one distinct account waits for nothing |
| ClientRunner.Runner.RunClient | runner/src/runner.rs:379-392 | refuses with a child or without a release, otherwise records the new child |
| ClientRunner.Runner.TerminateProcAndWait | runner/src/runner.rs:221-253 | the child is forgotten, and gone unless the wait failed |
| ClientRunner.Runner.CheckChildProcAlive | runner/src/runner.rs:361-377 | a dead child is forgotten |
| ClientRunner.Runner.MaybeRestartClient | runner/src/runner.rs:354-359 | a dead child is replaced |
| ClientRunner.RestartExact | runner/src/runner.rs:354-377 | a living child is left alone; a dead or missing one is replaced from the recorded release |
| ClientRunner.FirstStartExact | runner/src/runner.rs:309-325 | the first release is started from disk, or fetched and then started |
| ClientRunner.LoopStartsWithLiveClient | runner/src/runner.rs:325-359 | whenever the updater waits for a release, its client has just been seen alive |
| ClientRunner.UpdateExact | runner/src/runner.rs:327-346 | the release that runs already changes nothing; another stops the client first |
| ClientRunner.Runner.Drop | runner/src/runner.rs:395-406 | dropping stops a living child |
| ClientRunner.StepOrphans | runner/src/runner.rs:309-352 | a step forgets a living client only by a failed wait, and then one |
| ClientRunner.LivingClientsBounded | runner/src/runner.rs:293-406 | over every run, with failing waits and drops, no more clients live besides the child than waits have failed |
| ClientRunner.AtMostOneClient | runner/src/runner.rs:293-406 | when waits succeed at most one client lives, from the recorded release, and none after the run returned or the runner was dropped |
| ClientRunner.SecondClientIffWaitFails | runner/src/runner.rs:242-251 | an update leaves two clients running if and only if the wait for the old one fails |

## Left out

- Network calls, backoff, sleeps and timeouts: only their answers are modelled.
- Cryptography: key tweaking and signing are absent; block hashes stand for the whole ancestry, the delay's hash is a parameter with distinct values.
- Floating point in prices and the median over feeds: prices are exact positive reals.
- `=`-suffixed currency names count as currencies of their own, as they do in the reduction.
- Wallet.FundTransaction: does not model wrap-around of 64-bit sums; `TargetFits` and `AmountsFit` say exactly when none occurs. It starts from a transaction without inputs, the only kind it is given.
- Wallet.FeeAdequate: needs every coin to be worth its own spending fee, and counts that fit; `CountsFitExact` and `FeeAdequateExactly` say when they do and that this is needed.
- RestartSafety.NoDoublePayment: assumes that transactions leave the mempool only by being mined, and a chain that reaches the block before the stop height; `PaidTwiceWhenNodeIsBehind`, `PaidTwiceAfterMempoolError` and `PaidTwiceWhenPruned` say exactly what happens otherwise.
- ReverseStream.DeliversFromTip: heights are unbounded and chains are only appended during the scan; a reorganisation inside a scan is not modelled.
- Transactions.BumpsKeepPayment: assumes the wallet's change never goes to the recipient and is never zero.
- RelaySafety.ManyRelayersOneStore: assumes a relay initialised above height zero, and that a relayer's node does not reorganise inside one call.
- RelayRunner.StepExact: assumes a relay initialised above height zero on the node's chain; `StuckAtGenesis` covers the others at height zero.
- ClientRunner.AtMostOneClient: assumes a successful wait returns only after the process has exited; signals are noticed only at await points.
- IssueSet.WatchSetIsSound: assumes one address per request and one request per address.
- Rescan.EveryDepositIsFound: assumes that the explorer knows the chain's payments to the addresses it answers for; a local rescan or an import that fails ends the rescan and is not modelled.
- The waiting loop after a payment, execution retries and the forward block stream: control flow around single calls.
- Faucet, asset registry, metrics, command lines, nonce handling: plumbing.
- `vault/src/refund.rs`: not part of the vault's library.
