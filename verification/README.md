# Reef chain: staking ledger, slashing, Proof of Commitment, code store, claim messages

This project models five stateful cores of the Reef chain runtime and proves what they promise over
all inputs and all runs. `dafny verify dfyconfig.toml` checks everything.

- **The staking ledger** (`Ledger`, `LedgerExact`, `LedgerObject`, `LedgerRuns`, `LedgerEras`): `active` funds, a
  queue of unlocking chunks and their `total`. A slash is one pass over the slash targets in priority order with
  a rounded-up ratio, dust sweeping and an early stop; its amount, its order, which eras it is taken from and its
  effect on whole runs are proved, and that nothing is withdrawn before its bonding duration is over.
- **Slashing spans** (`Spans`, `SlashStore`, `SlashObjects`, `SlashHistory`, `SlashExact`, `SpanStability`,
  `SpanEnds`, `EraSlash`, `SpanCover`): the delta-encoded spans, the per-span records, the per-era maxima and sums,
  and the helper that writes spans back when it is dropped. Every run charges each span exactly the largest slash
  submitted for it, charges all slashes of an era to one span, and ends the span with the first of them; an account
  pays, for each span, the largest of its era slashes.
- **Applying slashes** (`ApplySlash`): from ledgers through the currency to reporters and the slash handler,
  without losing a unit, and from the right part of the right ledger.
- **Proof of Commitment** (`Poc`, `Election`, `PocObject`, `PocRuns`, `PocHistory`): commitments, candidacies,
  elections, rewards and time locks as a state machine over calls and blocks, and its state as a reading of the
  history of a run.
- **The contract code store** (`EvmCode`) and **claim messages** (`SignedMessage`).

Each mutating operation is a class method or a method with a loop, proved equal to a transition function
on values; the theorems are lemmas about those functions, most of them over every run from genesis. `Numbers`
holds the fixed-point ratios (`Perquintill` rounded up, `Perbill` to the nearest with ties down) and `Sums`
finite sums.

Calls into code outside the model are parameters: whether the currency reserves, withdraws or deposits, how
much of a slash it can take, the hash function, the order in which storage iterates, the current block and era.

## Where code and documentation differ

- A slash is documented never to take more than the given amount (modules/staking/src/lib.rs:546). Sweeping
  dust can take more. `NeverMoreThanAsked` and `NeverMoreThanAskedInRuns` show that the promise holds, of every
  ledger and after every run, exactly when the minimum balance is at most 1. `LedgerRuns.DustIsTaken` is a run
  that breaks it: bonding the minimum balance and being slashed by one unit loses all of it. For a given ledger
  and slash, `SlashOvershootsExactly` says from the targets beforehand whether more is taken, and `SlashBound`
  bounds the excess. The chain's existential deposit is 1 (runtime/src/lib.rs:953), so the promise holds there.
- The last chunk of a proportional slash is said to be under-slashed by at most `MaxUnlockingChunks * ED`, because
  of dust (modules/staking/src/lib.rs:638-640). Rounding the ratio up does it too: `RoundingUnderSlashes` is a slash
  of 10^24 + 1 without dust whose only chunk loses almost a million less than half. `ShortExactly` says beforehand
  whether a target gives less than its share and what it gives then; `ProportionalShortfall` bounds the difference.
- A slash that is not proportional is said to always wipe the active balance (modules/staking/src/lib.rs:649).
  `ActiveWipedExactly` says when: if and only if the amount covers it, or covers all but dust.
- `do_set_code` (modules/evm/src/lib.rs:1016-1069) counts a reference to the new code but never changes the
  contract's code hash. `SetCodeHasNoEffect` proves that, codes with one hash being equal, the contract runs the
  given code afterwards exactly when the hash of that code already was the contract's code hash; `SetCodeLeaks`
  is a run in which the new code is stored for nobody. The reference counts are proved exact with such leaked
  references counted.
- A voter reward is paid once per era index, except at the last index, where eras keep turning without a new
  index (modules/poc/src/lib.rs:260, 269). Where a lock made at genesis can earn a reward,
  `OncePerIndexExactly` proves that no run pays twice for an index if and only if it is not the last one;
  `LastIndexPaysAgain` is a run from genesis that pays twice. The pallet leaves the width of block numbers open.
  `OnceWhileBlocksFit` proves that a second payment needs a block number above 32 bits, so a chain with 32-bit
  block numbers, as this one, keeps the promise for every index.
- A signed claim is over the account's hex digits followed by the extra bytes without a separator, so claims
  for accounts of different lengths can share a message; `ClaimsCollide` says exactly which, and
  `ClaimsDistinct` that none do for accounts of one length or with the same extra bytes.

## Model

| member | source | states |
|---|---|---|
| Ledger.SlashBound | modules/staking/src/lib.rs:554-672 | for every balanced ledger: `min(amount, total) <= slashed <= total`, the overshoot is below the minimum balance and none when that is at most 1, the total falls by exactly what is returned and stays the sum of active and chunks |
| Ledger.TakenUpperBound | modules/staking/src/lib.rs:622-647 | over any number of targets the pass overshoots by less than the minimum balance |
| Ledger.TakenLowerBound | modules/staking/src/lib.rs:595-633 | until the slash is used up, the pass has taken at least the rounded-up ratio of everything it visited |
| Ledger.AffectedCover | modules/staking/src/lib.rs:575-604 | active and affected chunks use up a proportional slash they can cover, despite rounding |
| Ledger.NeverMoreThanAsked | modules/staking/src/lib.rs:546-548 | "never more than the given amount" holds of all ledgers, amounts and eras if and only if the minimum balance is at most 1 |
| Ledger.SlashOvershootsExactly | modules/staking/src/lib.rs:554-672 | for every balanced ledger, amount, minimum balance and era: more than asked is taken if and only if the amount ends inside some target, after the full shares of the targets before it, and what the visit would leave of that target is dust |
| Ledger.ActiveOvershoot | modules/staking/src/lib.rs:622-650 | with nothing unlocking, more is taken if and only if `amount < active < amount + minimum balance` |
| Ledger.OlderChunksUntouched | modules/staking/src/lib.rs:569-609 | chunks older than the slash window are unchanged while active and affected chunks cover the slash; with no affected chunk, no chunk changes while active covers it |
| Ledger.OlderChunksLast | modules/staking/src/lib.rs:603-665 | an older chunk loses value only once active and every newer chunk are gone |
| Ledger.ProportionalShare | modules/staking/src/lib.rs:622-643 | no target of a proportional slash loses more than the ceiling of ratio times its value, unless all of it goes because less than the minimum balance would stay |
| Ledger.ProportionalShortfall | modules/staking/src/lib.rs:575-643 | every affected chunk loses at least its rounded-up share, less the minimum balance (or one) for each target before it, one unit, and a part in 10^18 of the affected balance |
| Ledger.ShortExactly | modules/staking/src/lib.rs:622-647 | a target gives less than its share if and only if what the full shares before it leave of the amount is less, and is nothing or leaves no dust; it then gives exactly that |
| Ledger.RoundingUnderSlashes | modules/staking/src/lib.rs:638-640 | with a minimum balance of 1, a chunk equal to the active balance loses over 999999 less than half of a slash of 10^24 + 1 |
| Ledger.ActiveWipedExactly | modules/staking/src/lib.rs:649-650 | a slash without affected chunks empties the active balance if and only if it was empty, or the amount is not zero and covers it up to dust |
| Ledger.ReportExact | modules/staking/src/lib.rs:652-670 | the slash hook is told of every chunk that lost value, and always its new value |
| Ledger.SlashKeepsQueue | modules/staking/src/lib.rs:658-668 | a slash keeps the eras increasing, leaves no empty chunk and adds none |
| Ledger.RebondTakesFromTheEnd | modules/staking/src/lib.rs:507-529 | exactly `min(value, everything)` leaves the queue; what stays is a prefix, its last chunk possibly reduced but never to zero |
| Ledger.ConsolidateExact | modules/staking/src/lib.rs:476-502 | exactly the chunks unlocked by the era go, with exactly their value, without saturation |
| Numbers.RatioUp | modules/staking/src/lib.rs:595-600 | the least ratio in parts of 10^18 that is no smaller than the quotient, and one when that is above one or undefined |
| LedgerExact.ExactShares | modules/staking/src/lib.rs:575-643 | when the ratio has at most eighteen digits and every target of the window has a whole share that leaves no dust, active and every affected chunk lose exactly amount times value over the affected balance |
| LedgerExact.AffectedInOrder | modules/staking/src/lib.rs:603-665 | affected chunks are slashed oldest first: behind one that gives less than its share nothing is taken |
| LedgerExact.SlashIsByEra | modules/staking/src/lib.rs:554-672 | era by era: what unlocks before the window is left alone while the rest covers the slash, and touched only when active and all that unlocks later is gone; the rest gives at most its share of the window or all but dust; the amount is within its bounds and active keeps no dust |
| LedgerExact.UnbondMoves | modules/staking/src/pallet/mod.rs:978-1019 | the value, or all that is active when less than the minimum balance would stay, moves to the chunk of the era and no other era changes; refused if and only if the queue is full or too little would stay active |
| LedgerExact.UnbondExactly | modules/staking/src/pallet/mod.rs:955-1019 | the whole call: only a full queue loses what has unlocked, era by era; the funds move as above and nothing else changes |
| LedgerExact.BondExtraAdds | modules/staking/src/pallet/mod.rs:906-920 | active and total grow by the same amount, up to the stash balance and the limit and not short of both; refused if and only if active would stay below the minimum |
| LedgerObject.StakingLedger.Slash | modules/staking/src/lib.rs:554-672 | the closure, the two-part priority, the early stop and the final clean-up compute the pass over the targets |
| LedgerObject.StakingLedger.SlashChunks | modules/staking/src/lib.rs:652-665 | stopping when nothing remains leaves the same queue and total as visiting every chunk |
| LedgerObject.StakingLedger.SlashOutOf | modules/staking/src/lib.rs:622-647 | one target loses its share or, when that leaves dust, everything; total and remainder follow |
| LedgerObject.StakingLedger.Proportion | modules/staking/src/lib.rs:575-609 | the rounded-up ratio over active and affected chunks, or none |
| LedgerObject.StakingLedger.Rebond | modules/staking/src/lib.rs:507-529 | the loop terminates, returns `min(value, unlocking)`, moves it to active and leaves the rebonded queue |
| LedgerObject.StakingLedger.ConsolidateUnlocked | modules/staking/src/lib.rs:476-502 | the filtering loop keeps the locked chunks in order and lowers the total by the others |
| LedgerObject.StakingLedger.Unbond | modules/staking/src/pallet/mod.rs:955-1019 | on a full queue withdraws what is unlocked first; then moves funds to the chunk of the era, sweeping dust; a refusal at any point rolls everything back |
| LedgerRuns.EveryRunBalances | modules/staking/src/lib.rs:476-672 | after any interleaving of bonding, unbonding, rebonding, withdrawing, slashing and new eras: total is active plus chunks, active is zero or at least the minimum balance, eras increase and lie within the bonding duration, no chunk is empty, the chunk bound holds, and everything ever bonded is still there, withdrawn or slashed |
| LedgerRuns.Execute | modules/staking/src/pallet/mod.rs:899-1065 | the ledger object driven through any such sequence of calls ends in the ledger of that run, with all of its invariants |
| LedgerRuns.DustIsTaken | modules/staking/src/lib.rs:637-643 | for every minimum balance of at least 2, the run that bonds it and is slashed by one loses all of it |
| LedgerRuns.NeverMoreThanAskedInRuns | modules/staking/src/lib.rs:546-548 | after every run every slash takes at most what it was asked for, if and only if the minimum balance is at most 1 |
| LedgerEras.WithdrawnWasUnbonded | modules/staking/src/pallet/mod.rs:955-1065 | over every run, no more has been withdrawn than was unbonded at least a bonding duration before the current era |
| LedgerEras.WithdrawsAllMatured | modules/staking/src/pallet/impls.rs:101-135 | after every run a withdrawal removes exactly the chunks whose era has come |
| LedgerEras.SlashesRespectWindow | modules/staking/src/lib.rs:569-571 | after every run a slash for an era is taken era by era with the window starting a bonding duration after it |
| Spans.Contiguous | modules/staking/src/slashing.rs:139-152 | decoded spans are contiguous, non-empty and consecutively numbered |
| Spans.Disjoint | modules/staking/src/slashing.rs:86-90 | no era is in two spans |
| Spans.FindExact | modules/staking/src/slashing.rs:483-485 | the lookup returns a span exactly when it contains the era, and the span is live |
| Spans.FindDomain | modules/staking/src/slashing.rs:139-152 | eras are covered exactly from the earliest span's start on |
| Spans.EndSpanKeepsIndices | modules/staking/src/slashing.rs:125-136 | ending a span gives eras after `now` a new index and keeps every other era's index |
| Spans.PruneExact | modules/staking/src/slashing.rs:163-182 | pruning removes exactly the closed spans that end by the window, reports exactly their indices, and keeps the others as they were |
| Spans.PruneMovesAlone | modules/staking/src/slashing.rs:179-180 | the ongoing span is moved up only when no closed span is left, so the encoding stays sound |
| Spans.PruneKeepsIndices | modules/staking/src/slashing.rs:163-182 | every era from the window on keeps its span index; exactly the eras of pruned spans and of the cut-off part of the ongoing one lose theirs |
| SlashObjects.StoredSpans.EndSpan | modules/staking/src/slashing.rs:125-136 | the in-place edit is the transition on values |
| SlashObjects.StoredSpans.Iter | modules/staking/src/slashing.rs:139-152 | the running subtraction yields the decoded spans without underflow |
| SlashObjects.StoredSpans.EraSpan | modules/staking/src/slashing.rs:483-485 | finds the span of an era |
| SlashObjects.StoredSpans.Prune | modules/staking/src/slashing.rs:163-182 | the in-place edit is the transition on values |
| SlashObjects.InspectingSpans.Fetch | modules/staking/src/slashing.rs:440-463 | reads the stash's spans, creating and storing them when missing |
| SlashObjects.InspectingSpans.EndSpan | modules/staking/src/slashing.rs:470-472 | ends the span and marks the copy dirty when that changed it |
| SlashObjects.InspectingSpans.CompareAndUpdateSpanSlash | modules/staking/src/slashing.rs:491-533 | charges the difference to the span's maximum, pays the reward, updates the record and marks the copy dirty exactly when something changed |
| SlashObjects.InspectingSpans.Drop | modules/staking/src/slashing.rs:536-551 | an altered copy is pruned, pruned records are removed and the spans written back; an unaltered one leaves storage alone |
| SlashObjects.InspectStash | modules/staking/src/slashing.rs:267-286 | fetch, compare, end and drop together make the transition of one submitted slash |
| SlashObjects.KickOutIfRecent | modules/staking/src/slashing.rs:305-324 | ends the ongoing span without a slash when the offence falls in it |
| SlashObjects.SlashNominators | modules/staking/src/slashing.rs:371-419 | the loop over the exposure makes the transition of slashing all nominators |
| SlashObjects.ReportOffence | modules/staking/src/slashing.rs:228-301 | an offence: nothing to slash, not a maximum of the era, or a new maximum |
| SlashObjects.SlashStorage.ClearEraMetadata | modules/staking/src/slashing.rs:554-559 | removes both maps' entries of the era and no others |
| SlashObjects.SlashStorage.ClearStashMetadata | modules/staking/src/slashing.rs:562-588 | refuses too small a count; otherwise removes the spans and the record of each |
| SlashHistory.MaximumPerSpan | modules/staking/src/slashing.rs:34-48 | after every run, each span has been charged the largest slash submitted for it, and the stash the sum of these over its spans |
| SlashHistory.PrunedNeverChargedAgain | modules/staking/src/slashing.rs:163-182 | a pruned index stays pruned and is never charged again in the run, unless the stash is cleared |
| SlashHistory.RewardsWithinFraction | modules/staking/src/slashing.rs:491-533 | after every run whose reward proportions are within a cap, each span's rewards and its record's payout are within that fraction of its largest slash |
| SlashHistory.RewardIsHalfOfUnpaid | modules/staking/src/slashing.rs:501-519 | a report of the span's maximum pays exactly half, rounded down, of the part of the fraction not yet paid; a lower one pays nothing |
| SlashHistory.RecordsAreLive | modules/staking/src/slashing.rs:491-551 | after every run each stored record belongs to a live span, and the next span to open has an empty record |
| SlashHistory.LastNonzeroSlashIsLatest | modules/staking/src/slashing.rs:477-480 | after every run the stored era is the latest one whose slash charged the stash |
| SlashHistory.ClearLeavesNothing | modules/staking/src/slashing.rs:562-588 | a successful clearing leaves no record of the stash |
| SlashHistory.EveryRunKeepsHistory | modules/staking/src/slashing.rs:228-588 | records, live spans and history agree after every run of offences, obsolete eras and killed stashes |
| SlashHistory.UnappliedIsCharged | modules/staking/src/slashing.rs:288-301 | the slash to apply names the validator and its nominators in order and carries exactly the amounts charged and rewarded by this offence |
| SlashExact.UnappliedPerAccount | modules/staking/src/slashing.rs:228-301 | there is a slash to apply if and only if the offence is a new maximum of its era; from each account it takes exactly what this offence has charged the account |
| SlashExact.VisitExact | modules/staking/src/slashing.rs:491-533 | a submitted slash charges what exceeds the largest one of its span and, when it is the largest, pays half, rounded down, of the part of the fraction not yet paid |
| SlashExact.RecordedIsLargest | modules/staking/src/slashing.rs:235-263 | after every run the proportion recorded for a validator and era is the largest reported since the era was cleared |
| SlashExact.SmallerIsIgnored | modules/staking/src/slashing.rs:252-263 | in every run a report that is not too small to be slashed and no larger than an earlier one of its validator and era changes nothing |
| SlashExact.FirstSlashExact | modules/staking/src/slashing.rs:440-463 | a stash without spans is charged if and only if the era is within the bonding window |
| SlashExact.AlteredIsPruned | modules/staking/src/slashing.rs:536-551 | after a charge no closed span of the stash ended by the window, and the ongoing one starts in it |
| SlashExact.ClearEraExact | modules/staking/src/slashing.rs:554-559 | an obsolete era loses its entries of both maps; nothing else changes |
| SlashExact.ClearStashExact | modules/staking/src/slashing.rs:562-588 | refused if and only if fewer spans are announced than the stash has; otherwise its spans and their records go and nothing else |
| SpanStability.OneSpanPerEra | modules/staking/src/slashing.rs:483-551 | over every run whose active era never falls and whose offences are not from future eras, all slashes of one era against one stash are charged to one span, until the stash is cleared |
| SpanStability.EraKeepsSpan | modules/staking/src/slashing.rs:125-182 | from any point of a run on, an era no later than the following offences keeps its span index or loses it to pruning; it never moves to another span |
| SpanEnds.SlashEndsSpan | modules/staking/src/slashing.rs:267-286 | over every timely run, a span is charged for no era after the one that was active at its first charge, until the stash is cleared |
| SpanEnds.LaterErasAbove | modules/staking/src/slashing.rs:267-286 | after every timely run, eras after the first charge of a span belong to later spans or to none |
| SpanEnds.OffenceEndsSpan | modules/staking/src/slashing.rs:228-324 | from an offence on that is slashed or too small to be slashed, the span of its era holds no era after the one then active, whatever follows |
| SpanEnds.InspectCounts | modules/staking/src/slashing.rs:277-283 | a submitted slash opens a new span if and only if its era is in the ongoing one |
| SpanEnds.KickOutCounts | modules/staking/src/slashing.rs:305-324 | so does an offence too small to be slashed |
| EraSlash.NominatorSlashIsSum | modules/staking/src/slashing.rs:235-263 | with one exposure per era and validator, after every run each nominator's slash of an era is the sum over validators of the recorded proportion of its exposure |
| EraSlash.NominatorsTelescope | modules/staking/src/slashing.rs:385-396 | the rounded differences added along an exposure telescope exactly and no subtraction saturates |
| SpanCover.SpanCoversEra | modules/staking/src/slashing.rs:235-533 | after every timely run with one exposure per era and validator, for every account not cleared: the span of an era was charged at least the sum, over the validators backed, of that era, and at least the recorded proportion of the account's own stake as a validator |
| SpanCover.ChargeIsAnEra | modules/staking/src/slashing.rs:235-533 | and no more: what a span was charged is within the larger of the two for one era charged to it, unless that era has been cleared |
| SpanCover.ValidatorPaysOwn | modules/staking/src/slashing.rs:235-286 | so an account that no exposure names as a nominator is charged within the recorded proportion of its own stake for one of the eras charged to the span |
| ApplySlash.StakingBooks.ApplySlash | modules/staking/src/slashing.rs:632-690 | the ledgers, the amount taken and the amount missing are those of slashing the validator by its part and each nominator by its own, in order; what leaves the ledgers is at most the amounts named and dust for each stash, and is reporter rewards, plus the amount handed over, plus what was missing; shares are equal and within what is left of the payout and what was taken; ledgers stay balanced |
| ApplySlash.AppliedRemoves | modules/staking/src/slashing.rs:632-660 | applying a slash removes no more than the amounts it names, and dust for each stash it names |
| ApplySlash.SlashRemoves | modules/staking/src/slashing.rs:593-629 | a bonded stash loses at least its slash or everything, and at most its slash and dust; a stash that is not bonded loses nothing |
| ApplySlash.SlashReaches | modules/staking/src/slashing.rs:593-629 | one slash changes only the ledger its stash is bonded to, and that era by era, with the window starting a bonding duration after the offence |
| ApplySlash.AppliedSlashesEach | modules/staking/src/slashing.rs:632-660 | a ledger that one entry of an applied slash names is slashed by the amount of that entry, era by era as above |
| ApplySlash.AppliedLeavesOthers | modules/staking/src/slashing.rs:632-660 | a ledger that no entry names is unchanged |
| ApplySlash.StakingBooks.DoSlash | modules/staking/src/slashing.rs:593-629 | one stash: unbonded and ledgerless stashes are skipped, missing funds reduce the payout, the ledger is stored when something was slashed |
| ApplySlash.PayReporters | modules/staking/src/slashing.rs:661-690 | every reporter gets the same floor share; shares and the amount handed over add up to what was taken |
| ApplySlash.PayEach | modules/staking/src/slashing.rs:677-685 | splitting the same share off for each reporter never runs short |
| ApplySlash.SlashConserves | modules/staking/src/slashing.rs:610-621 | what one slash removes from the ledgers was taken or missing |
| PocObject.PocPallet.OnInitialize | modules/poc/src/lib.rs:251-327 | the turn of an era, with a result that does not depend on the order storage yields commitments in |
| PocObject.PocPallet.CountVotes | modules/poc/src/lib.rs:272-291 | the counting loop gives each running candidate the saturating sum of the weights of the commitments naming it, in any order |
| PocObject.PocPallet.Elect | modules/poc/src/lib.rs:292-301 | the best candidates in ascending order without repetition |
| PocObject.PocPallet.PayWinners | modules/poc/src/lib.rs:309-320 | exactly the winners whose deposit succeeds are paid, each once and in order, and issuance grows by the reward for each |
| Poc.VotingWeight | modules/poc/src/lib.rs:604-616 | amount times 1, 10 or 100 when that fits a balance; nothing while unbonding |
| Election.WinnersAreBest | modules/poc/src/lib.rs:292-299 | winners are tallied candidates, as many as seats and candidates allow, and each beats everyone left out |
| Election.WinnersUnique | modules/poc/src/lib.rs:292-301 | no other set of accounts has these properties |
| Election.SearchExact | modules/poc/src/lib.rs:364-367 | binary search on a sorted council finds exactly its members |
| PocRuns.FundsConserved | modules/poc/src/lib.rs:382-479 | in every reachable state the locked amount is the sum of the commitments and zero or below the cap, and issuance plus locks has changed by minted rewards only |
| PocRuns.TallyNeverSaturates | modules/poc/src/lib.rs:280-288 | with a cap of at most a hundredth of the balance type, no weight wraps and no tally saturates in any reachable state |
| PocRuns.CouncilKept | modules/poc/src/lib.rs:295-377 | in every reachable state members are strictly sorted, within the seats and running; the candidate count is exact and within its bound |
| PocRuns.StopExactly | modules/poc/src/lib.rs:358-377 | in every reachable state a candidate can stop if and only if it is not a member |
| PocRuns.CouncilWithinBudget | modules/poc/src/lib.rs:309-320 | an era's council is never paid more than the era's council rewards |
| PocRuns.EraShareIsFloor | modules/poc/src/lib.rs:640-643 | the era's share of the year is the quotient rounded down, at most one |
| PocRuns.VoterRewardRate | modules/poc/src/lib.rs:620-631 | monthly locks earn nothing; others, within one unit, rate times era share times amount |
| PocRuns.CouncilRewardRate | modules/poc/src/lib.rs:634-638 | within one unit, era share times inflation times issuance |
| PocRuns.OneRewardPerEra | modules/poc/src/lib.rs:582-594 | over every run an account is paid at most one voter reward for an era index below the last one, and for the last one while the block number fits 32 bits |
| PocRuns.OnceWhileBlocksFit | modules/poc/src/lib.rs:251-270 | in every run a second payment for an index needs the last index and a block number above 32 bits |
| PocRuns.LastIndexPaysAgain | modules/poc/src/lib.rs:258-269 | for every account and every commitment that earns a reward, a run from genesis pays the account twice for the last era index |
| PocRuns.OncePerIndexExactly | modules/poc/src/lib.rs:258-269 | where some commitment can be locked and earn a reward, no run pays an account twice for an era index if and only if it is not the last index; elsewhere no run pays twice for any other index |
| PocRuns.RuntimeLocksEarn | runtime/src/lib.rs:1266-1308 | with the constants of the chain, a yearly or ten-yearly lock can be made at genesis and earns a reward each era if and only if it is within the minimum, the issuance and the cap; the chain's block numbers have 32 bits (primitives/src/lib.rs:87), so by `OnceWhileBlocksFit` no index is paid twice there |
| PocRuns.WithdrawExactly | modules/poc/src/lib.rs:518-549 | after every run a withdrawal succeeds if and only if the account's last successful call on its commitment (a lock, added funds, unbonding, a withdrawal or a vote) was unbonding, at least 30, 365 or 3650 days of blocks ago as chosen at its lock, and the deposit succeeds |
| PocHistory.CommitmentsAreHistory | modules/poc/src/lib.rs:382-597 | after every run each account's commitment is for the candidate named by its last lock or vote, and of what it locked and added since; without a lock not taken out there is none |
| PocHistory.CandidatesAreRunning | modules/poc/src/lib.rs:334-377 | after every run the candidates are exactly those who started and have not stopped since, each with the deposit |
| PocHistory.TallyIsVotes | modules/poc/src/lib.rs:272-291 | with a cap of at most a hundredth of the balance type, after every run the tally holds exactly the running candidates that some account last named, each with the sum of one, ten or a hundred times what those accounts have locked, by a month, a year or ten years, and nothing for those unbonding |
| PocHistory.LockExactly | modules/poc/src/lib.rs:382-479 | after every run a lock succeeds if and only if the account has none, the amount is enough, all locks stay below the cap and the funds are there; adding succeeds if and only if it has one, under the same cap |
| PocHistory.VoteExactly | modules/poc/src/lib.rs:483-597 | after every run unbonding and voting succeed if and only if the account has a lock and is not unbonding, and the reward of a vote can be paid |
| PocHistory.StartExactly | modules/poc/src/lib.rs:334-354 | after every run an account can start if and only if it is not running, there is room and the deposit is paid |
| PocHistory.VoteRewardExactly | modules/poc/src/lib.rs:577-594 | while eras have indices of their own, a vote is due the era's reward if and only if the account has not been paid for the era |
| PocHistory.EraIsQuotient | modules/poc/src/lib.rs:251-270 | after every run the era index is the block number divided by the era duration, up to the last index, and the era began at that multiple |
| PocHistory.TurnSeatsBest | modules/poc/src/lib.rs:272-327 | between turns the council and issuance stay; a turn seats exactly the best of the tally, sorted, and mints the same floor share of the era's rewards for each that can be paid |
| PocHistory.Execute | modules/poc/src/lib.rs:251-597 | the pallet object driven through any sequence of calls and blocks is in the state of that run, and all of the above holds of it |
| EvmCode.CountsExact | modules/evm/src/lib.rs:836-863 | over every run in which no count gets full, codes and infos have the same keys, each count is the number of accounts holding the hash plus the leaked references, and code is stored exactly while that is not zero |
| EvmCode.AddRefExactly | modules/evm/src/lib.rs:922-934 | counting a reference keeps the counts exact if and only if the count was not full |
| EvmCode.ShortRunsExact | modules/evm/src/lib.rs:902-955 | the same for every run of at most 2^32 - 1 calls, without a condition on the counts |
| EvmCode.ContractResolves | modules/evm/src/lib.rs:880-895 | every contract account resolves to stored code with its hash and recorded size, counted at least once per holder |
| EvmCode.AccountsAreHistory | modules/evm/src/lib.rs:836-955 | after every run an account exists if and only if it was made a contract and not removed since, and is that contract |
| EvmCode.SetCodeExactly | modules/evm/src/lib.rs:1016-1069 | after every run code can be set if and only if there is a contract, the caller is root or the maintainer of one not deployed, and the code is there already or fits |
| EvmCode.SetCodeHasNoEffect | modules/evm/src/lib.rs:1016-1069 | setting code changes the code of no contract account; without a hash collision the contract runs the given code afterwards if and only if its code hash already was that of the code |
| EvmCode.SetCodeLeaks | modules/evm/src/lib.rs:1016-1069 | in the run that creates a contract and sets other code, the contract keeps its first code and the other is stored with one reference and no holder |
| EvmCode.EvmStore.Perform | modules/evm/src/lib.rs:836-1069 | the object makes any call of a run, and the exact reference counts are kept |
| SignedMessage.NumeralExact | modules/evm-accounts/src/lib.rs:210-216 | the digits written backwards are the decimal numeral of the length, read from left to right, without leading zeros |
| SignedMessage.FramedReads | modules/evm-accounts/src/lib.rs:203-221 | the message is the text `\x19Ethereum Signed Message:` and a line feed, the decimal length of prefix and payload, `reef evm:` and the payload |
| SignedMessage.FramedInjective | modules/evm-accounts/src/lib.rs:203-221 | two payloads give the same message if and only if they are equal |
| SignedMessage.EthereumSignableMessage | modules/evm-accounts/src/lib.rs:203-221 | the loop builds the framed payload, or reports overflow |
| SignedMessage.HexRoundTrip | modules/evm-accounts/src/lib.rs:268-291 | every byte can be read back from its two hex digits |
| SignedMessage.PushNibble | modules/evm-accounts/src/lib.rs:282-291 | appends one character that reads back as the nibble, for a nibble its hex digit; fails exactly for values above 168 |
| SignedMessage.ConvertToAsciiHex | modules/evm-accounts/src/lib.rs:268-280 | the loop builds the hex form, or reports which bound was passed |
| SignedMessage.ClaimsCollide | modules/evm-accounts/src/lib.rs:250-258 | two claims share a message if and only if one account's bytes continue the other's and its extra bytes make up the difference in hex |
| SignedMessage.ClaimsDistinct | modules/evm-accounts/src/lib.rs:250-258 | for accounts of one length, or equal extra bytes, distinct claims have distinct messages |

## Left out

- What receivers of the slash hook do with its report (modules/staking/src/lib.rs:670): other pallets.
- Killing a stash whose ledger is below the existential deposit after a withdrawal (modules/staking/src/pallet/impls.rs:112-122): by `EveryRunBalances` its ledger is then empty, and stays in the model as an empty ledger. An unbonding that would kill it is refused, as in the source, but with one error whichever check refuses it.
- Nominator and validator minimum bonds, and a missing current era: the minimum that applies and the era are inputs.
- Claimed rewards, nominations, validator preferences, payouts and NPoS elections: other parts of the staking pallet.
- `add_offending_validator` and `chill_stash` (modules/staking/src/slashing.rs:284, 329-366): effects on the session and on lists outside the model.
- Deferring slashes and choosing the slash era and window (modules/staking/src/pallet/impls.rs:1268-1390): they pick the parameters of an offence.
- 32-bit overflow of era numbers, block numbers and span indices, and 128-bit overflow of the plain additions in slashing metadata: indices and amounts are unbounded there; saturating operations are modelled as such.
- Storage iteration by `remove_prefix` with a limit: entries of an era are removed all at once.
- Events, weights, fees and benchmarks of every pallet.
- Account balances in Proof of Commitment: only total issuance is kept; whether a reserve, withdrawal or deposit succeeds is an input.
- `remove_contract` (modules/evm/src/lib.rs:1088-1121): its transfer can kill the account and re-enter the store while an entry is being edited.
- Maintainer transfer, deployment flags and developer deposits of contracts: they do not touch code hashes.
- Signature recovery and hash functions: cryptography outside the model.
