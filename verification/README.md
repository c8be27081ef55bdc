# Namespace indexer: a verified model

This project models the consensus core of the namespace indexer and proves properties of it in Dafny.
Three parts hang together.

**The fold.** Names live in a table of rows (owned, listed, offered, reserved) with a lease and market
fields; commits wait to back claims; every owner has the height at which its set last changed. A block
first runs what time triggers (reservations revert, offers close, leases lapse, commits expire) and then
folds the carriers of its transactions in order. `Fold.dfy` states each operation as a function on table
values and the whole as a machine of small steps (a block begins, a transaction begins, a carrier acts),
so that what is proved of all runs holds in the middle of a block too. `FoldTables.dfy` is the same fold as the
program writes it: a class that updates its tables in place, each method proved equal to its function.
On top stand the invariant of every run, the stale-bitmap guard, claim priority over published commits, full
payment of every sale, consent of the owner to every change, the fair split of lease days, the canonical digest, and the agreement of the second implementation
with the first over every run (`Twin.dfy`). `ChainRuns.dfy` shows that folding a chain block by block is such a
run, and so carries anchor safety and payment in full to the state an indexer keeps.

**The derived views.** The oracle feed, the median-time rule, the rollback that refolds only the stored
blocks, and the ownership history are cheaper forms of "fold everything". Each is proved to agree with it.

**Bytes and arithmetic.** Compact targets, block work, retargeting, the merkle root, address text, script
deletion, DER signatures, multisignature scans and the relay pool are loops over arrays and chains; each
is proved against a short mathematical definition.

**Laws beside the machine.** The machine's operations are functions; what they amount to is said again without
them, in terms of what was sent and of numbers: `Selection` (which names a bitmap stands for), `CommitSteps` and
`ClaimRuns` (which published digest backs a claim), `Market` (every action's outcome field by field, both ways),
`Deadlines` (what a block's beginning does to a row), `Consent` (whose input a change needs), and laws of the same
kind in `OracleFeed`, `MedianTime`, `Retarget`, `Compact`, `Work`, `Merkle`, `Script`, `Base58` and `Digest`.

## What turned out conditional

- A rollback is described as a byte-identical refold (src/sync.c:198-204). It is one, up to what the next
  block start runs anyway, exactly when no skipped block fired a lapse: a lapse in a skipped block is stamped
  with a later height in the refold, and the anchor guard reads that stamp. `Replay.RefoldAgreesIffNoSkippedLapse`
  proves both directions; `ReplayWitness.RefoldCanChangeAnOwner` gives a validated chain of four blocks, times and
  rates as the feed computes them, after which the two folds disagree about who owns a name.
- The refold command wipes the ownership history, marks it as covered from genesis and rebuilds it from the stored
  blocks alone (src/sync.c:377-383). The rebuilt history answers as the fold at every height exactly when no skipped
  block fired a lapse (`Rederive.RebuiltAnswersIffNoSkippedLapse`); otherwise a name lapsing in a skipped block is
  still given its owner there (`ReplayWitness.RebuiltHistoryKeepsALapsedName`).
- The median time fed to the fold never falls once eleven predecessors are recorded. Before that it falls at a
  block exactly when an even number of times precede it and its own lies below an upper middle time that just half
  of them reach (`MedianTime.ClockFallsIffStepsBack`; `ClockCanStepBackEarly` is such a chain). Nothing is folded
  below the activation height, so this matters only for an activation within the first eleven blocks: a validated
  chain is in order exactly when no such block but the last is active (`Indexer.ValidatedInOrderIff`).
- An anchor at the connecting height is always accepted (`AnchorSafety.AnchorAtConfirmIsAlwaysAccepted`), and it
  can select a name its bit did not stand for before the block
  (`AnchorWitness.AnchorAtConfirmCanSelectAnUnseenName`). The guarantee about what the signer saw holds for anchors
  below it, and at it while the owner has not been stamped in the block.
- The signature parser compares only the last 32 bytes of s with half the group order. An accepted s is low exactly
  when it has at most 32 bytes (`Der.AcceptedIsLowUnlessCut`); `Der.AcceptsHighS` is an accepted encoding of 2^256.
  The Go and C# implementations refuse just those, and an r that does not fit (`Der.WholeFormAcceptsLess`).
- Compact bits survive decoding and encoding exactly when they are canonical (`Compact.EncodeDecode`); an
  on-schedule block keeps its bits under the same condition.
- There is a next target unless an input is no target or a target of one would shrink (`Retarget.NextExists`).
- The list-filter form of script deletion leaves a script that does not parse as it is, the cursor form deletes up to
  the part that does not decode. Without four-byte lengths they agree exactly when the script parses or nothing is to
  be deleted (`OpListFilter.FormsAgree`).
- The sum of a branch's work is right exactly when it stays below 2^256 (`Work.AccumulatedIsTotalIff`), as it does
  with no more headers than the least of their targets (`Work.AccumulatedIsTotal`); two targets of one sum to zero.
- An owner's set can be the one from before a block although the block stamped it: a transfer to oneself does that
  (`AnchorSafety.StampedSetCanBeThatBeforeTheBlock`).

## Reading order

`Primitives`, `NameOrder`, `Protocol`, `Lease`, `Fold` define the fold; `FoldInvariant` is the invariant
everything else about runs uses; `AnchorSafety`, `Selection`, `ClaimPriority`, `CommitSteps`, `ClaimRuns`,
`PaidInFull`, `Market`, `Deadlines`, `Consent`, `Digest`, `Twin` are its main results and `FoldTables` its in-place
form. `MedianTime`, `OracleFeed`, `Replay`, `Epochs`, `Rederive`,
`Indexer`, `ReplayWitness` are the derived views; `ChainRuns` and `AnchorWitness` build on both. `Digits`,
`Wide`, `Compact`, `Pow`, `Work`, `Retarget` are proof-of-work arithmetic; `Merkle`, `Multisig`, `Script`,
`SignedScript`, `OpListFilter`, `RedeemTemplate`, `Der` are chain and script handling; `Radix`, `Base58`
addresses; `TxCheck`, `ChainedTable`, `SeenRing`, `Mempool` the relay pool.

## Conventions

- SHA-256, its double form and the signature check are parameters: functions about which nothing is assumed.
  Where a result needs a hash not to collide it says for which inputs.
- A run (`Fold.ValidRun`) has strictly increasing block heights and, from the activation height on, median times that
  never fall; nothing else is asked of the blocks.
- Rows are values in a map. The program keeps pointers to rows, but no operation keeps one across another.
- Byte sequences stand for read-only buffers; buffers a loop writes are arrays.

## Model

| member | source | states |
|---|---|---|
| FoldTables.FoldState.constructor | protocol/impls/go/state.go:60-65 | a new state has empty tables |
| FoldTables.FoldState.Clear | protocol/impls/go/state.go:67-69 | clearing empties every table |
| FoldTables.FoldState.Bump | protocol/impls/go/state.go:71-76 | a mutation height is raised, never lowered, and no other changes |
| FoldTables.FoldState.OwnedListing | protocol/impls/go/dispatch.go:7-17 | exactly the names of an owner, in ascending byte order |
| FoldTables.FoldState.Select | protocol/impls/go/dispatch.go:42-53 | name i of the listing is selected exactly when bit i of the flags' little-endian value is one, all of them without flags; listing order is kept |
| FoldTables.FoldState.PreBlock | protocol/impls/go/fold.go:57-94 | names leave exactly with their leases; a sale that is over unlocks the row, a reservation that is over within its offer puts the listing back, other rows stay; expired commits go and lapses stamp, as the time step says |
| FoldTables.FoldState.ApplyRenew | protocol/impls/go/dispatch.go:55-79 | anchor guard, selection and water-fill extend exactly the selected leases |
| FoldTables.FoldState.ApplyTransfer | protocol/impls/go/dispatch.go:81-102 | exactly the selected unlocked names move, both parties are bumped if any did |
| FoldTables.FoldState.ApplyRelease | protocol/impls/go/dispatch.go:104-129 | exactly the selected unlocked names leave, the owner is bumped if any did |
| FoldTables.FoldState.ApplyRenewName | protocol/impls/go/dispatch.go:142-154 | the by-name renewal extends one lease by its single award |
| FoldTables.FoldState.ApplyTransferName | protocol/impls/go/dispatch.go:156-166 | the by-name transfer moves one unlocked name and bumps both parties |
| FoldTables.FoldState.ApplyReleaseName | protocol/impls/go/dispatch.go:168-175 | the by-name release drops one unlocked name and bumps its owner |
| FoldTables.FoldState.ApplyClaim | protocol/impls/go/fold.go:192-261 | in place the claim of the machine: mint, same-block displacement or nothing, as the best backing commit decides; `ClaimRuns` says of that claim which published digest backs it |
| FoldTables.FoldState.ApplySell | protocol/impls/go/dispatch.go:177-202 | an own unlocked name is listed within the price floor and lease tail, else nothing |
| FoldTables.FoldState.ApplySellTo | protocol/impls/go/dispatch.go:204-223 | a directed offer within the floor and lease tail, else nothing |
| FoldTables.FoldState.MatchOutput | protocol/impls/go/dispatch.go:353-364 | the first unconsumed output that pays exactly what is owed |
| FoldTables.FoldState.ApplyReserve | protocol/impls/go/dispatch.go:225-253 | in place the reservation of the machine: a listing is reserved when the burn covers its leg and the pay leg is matched, the legs being what `Market.LegIsHalfPercent` says |
| FoldTables.FoldState.ApplySettle | protocol/impls/go/dispatch.go:255-279 | the reserver in time, with the remainder matched, takes the name; else nothing |
| FoldTables.FoldState.ApplyPay | protocol/impls/go/dispatch.go:281-304 | the named buyer in time, with the price matched, takes the name; else nothing |
| FoldTables.FoldState.DispatchTrade | protocol/impls/go/dispatch.go:306-338 | two owners acting in one transaction swap two unlocked names, or nothing happens |
| FoldTables.FoldState.DispatchAction | protocol/impls/go/fold.go:146-190 | in place the action of the machine: every opcode reaches its operation; what a COMMIT records is said by `CommitSteps.CommitRowsArePublished` |
| FoldTables.FoldState.ApplyTx | protocol/impls/go/fold.go:107-144 | a transaction is its carriers in order, with the acting identity and consumed outputs threaded through |
| FoldTables.FoldState.ApplyBlock | protocol/impls/go/fold.go:45-55 | folding a block in place is the run of its small steps on the state |
| FoldInvariant.StepOk | protocol/impls/go/fold.go:146-190 | every step keeps the invariant and stamps every owner whose set it changes |
| FoldInvariant.RunOk | protocol/impls/go/modes.go:430-474 | the invariant holds after every prefix of every run |
| FoldInvariant.ReachableBounds | protocol/impls/go/modes.go:430-474 | lease and offer bounds, price floors, exact legs with a remainder of at least dust, seller = owner while locked, market fields zero where the status does not use them, no mutation height above the block |
| FoldInvariant.RemainderIsExact | protocol/impls/go/dispatch.go:266-266 | the 64-bit remainder of a reachable reservation is the true difference and at least the dust floor |
| FoldInvariant.PruneOk | protocol/impls/go/fold.go:85-93 | pruning leaves only live commits, in chain order, one commit time per height |
| FoldInvariant.StepOfRun | protocol/impls/go/fold.go:45-55 | each step of a run, seen with the invariant before and after and its stamps |
| AnchorSafety.AnchoredSetIsUnchanged | protocol/impls/go/dispatch.go:27-53 | an accepted anchor below the connecting height fixes the owner's sorted set, and every bitmap selection, as of that anchor |
| AnchorSafety.AnchoredTransferMovesWhatWasSeen | protocol/impls/go/dispatch.go:81-102 | an anchored transfer moves only names the signer's bitmap selected at the anchor |
| AnchorSafety.AnchoredReleaseDropsWhatWasSeen | protocol/impls/go/dispatch.go:104-129 | an anchored release drops only names the signer's bitmap selected at the anchor |
| AnchorSafety.AnchorAtConfirmIsAlwaysAccepted | protocol/impls/go/dispatch.go:29-40 | an anchor at the connecting height passes in every reachable state |
| AnchorWitness.AnchorAtConfirmCanSelectAnUnseenName | protocol/impls/go/dispatch.go:29-53 | a validated chain in which such an anchor transfers a name that its bit did not stand for before the block, so the strict bound is needed |
| AnchorSafety.UnstampedSetIsThatBeforeTheBlock | protocol/impls/go/dispatch.go:29-53 | at the connecting height the set is that before the block if the owner was not stamped in the block |
| AnchorSafety.StampedSetCanBeThatBeforeTheBlock | protocol/impls/go/dispatch.go:156-166 | the converse fails: a transfer to oneself stamps the owner and leaves the set from before the block |
| AnchorSafety.UntouchedSinceCut | protocol/impls/go/state.go:71-76 | while an owner's mutation height stays at or below h, no step after h changed what it owns |
| Selection.BitSetIsBitOfValue | protocol/impls/go/dispatch.go:19-25 | bit i of the flags is bit i of their little-endian value, and clear past the end |
| Selection.PositionIsRank | protocol/impls/go/dispatch.go:7-17 | position i of an ascending listing is the name with exactly i names below it |
| Selection.SelectionIsMarked | protocol/impls/go/dispatch.go:42-53 | a name of an owner is selected if and only if the bit numbered by how many of the owner's names are below it is one, or there are no flags; in ascending order |
| Selection.TransferMovesTheChosen | protocol/impls/go/dispatch.go:81-102 | exactly the selected unlocked names of the actor go to the target if the anchor is accepted, nothing else in any row changes, both parties are stamped if any did |
| Selection.ReleaseDropsTheChosen | protocol/impls/go/dispatch.go:104-122 | exactly the selected unlocked names of the actor leave if the anchor is accepted, no other row changes, the owner is stamped if any did |
| Selection.RenewSplitsAmongTheChosen | protocol/impls/go/dispatch.go:55-79 | exactly the selected names gain the fair split of the days the burn buys, in name order, and nothing else changes |
| CommitSteps.CommitRowsArePublished | protocol/impls/go/fold.go:146-152 | a reachable state holds a commit row if and only if an earlier verified COMMIT step published that digest in a block of that height and median time, in the transaction of that index, and it has not expired |
| CommitSteps.PlaceOfStep | protocol/impls/go/fold.go:107-112 | the height, time and transaction a step is folded under are those it stands in, and the acting identity is an input of that transaction |
| ClaimRuns.ClaimRestsOnCommit | protocol/impls/go/fold.go:192-261 | a claim that changes an owner rests on an earlier block's COMMIT of sha(salt, name, claimant), still fresh, and gives the claimant the days its burn buys |
| ClaimRuns.BestIsFirst | protocol/impls/go/fold.go:203-223 | the backing commit is the one published first, by height and transaction index |
| ClaimRuns.ClaimMintsOnFirstBacking | protocol/impls/go/fold.go:225-261 | the whole state after a backed claim: minted if the name is free or was minted in the block on a later commit, else unchanged |
| ClaimRuns.UnbackedClaimDoesNothing | protocol/impls/go/fold.go:221-223 | without a published backing a claim changes nothing |
| ClaimRuns.ClaimIsDecided | protocol/impls/go/fold.go:192-261 | a backed claim has a first backing, and every burn buys some number of days |
| ClaimRuns.FirstPublishedGetsTheName | protocol/impls/go/fold.go:192-261 | of the claims of a block on a name that was free, the one whose digest was published first in the chain ends with it, for the days its own burn buys; if none counts the name stays free |
| Market.LegIsHalfPercent | protocol/impls/go/dispatch.go:340-349 | a deposit leg is the price in half-percent steps rounded down, and one below 200 |
| Market.ReservedLegs | protocol/impls/go/dispatch.go:225-253 | every reservation of every run holds two equal legs of half a percent and a positive rest |
| Market.ReserveTakesAnOpenListing | protocol/impls/go/dispatch.go:225-253 | a listing whose leg is burned and paid is reserved, until the window or the offer ends, using up the first free output that pays it; otherwise nothing happens |
| Market.SettleSells | protocol/impls/go/dispatch.go:255-279 | the reserver in time, paying the seller the rest of the price, owns the name unlocked, lease kept, both stamped; otherwise nothing happens |
| Market.PaySells | protocol/impls/go/dispatch.go:281-304 | the named buyer in time, paying the seller the price, owns the name unlocked, lease kept, both stamped; otherwise nothing happens |
| Market.SellLists | protocol/impls/go/dispatch.go:177-202 | the whole outcome of SELL, field by field |
| Market.SellToOffers | protocol/impls/go/dispatch.go:204-223 | the whole outcome of SELL_TO, field by field |
| Market.TransferNameGives | protocol/impls/go/dispatch.go:154-164 | an own unlocked name goes to the target with its lease, both stamped; otherwise nothing happens |
| Market.ReleaseNameDrops | protocol/impls/go/dispatch.go:166-175 | an own unlocked name leaves, its owner stamped; otherwise nothing happens |
| Market.RenewNameExtends | protocol/impls/go/dispatch.go:140-152 | an own name, in a sale or not, gains the smaller of the whole days the burn buys and its headroom; nobody is stamped |
| Market.TradeSwaps | protocol/impls/go/dispatch.go:306-338 | two different verified inputs swap two different unlocked names they own, leases kept, both stamped; otherwise nothing happens |
| Market.AsActs | protocol/impls/go/fold.go:125-132 | naming an input makes it the acting identity exactly when it exists and is verified; otherwise nobody acts |
| Market.NobodyActs | protocol/impls/go/fold.go:119-142 | below activation nothing happens, and without a verified identity only a trade can |
| Market.TxOpens | protocol/impls/go/fold.go:107-112 | a transaction opens with its first input acting and no output used |
| Deadlines.BlockStart | protocol/impls/go/fold.go:57-94 | the beginning of a block row by row: names leave exactly with their leases and stamp their owners, each other row becomes what its deadlines say |
| Deadlines.PruneKeepsBag | protocol/impls/go/fold.go:85-93 | exactly the commits not yet expired stay, each as often as it stood |
| Deadlines.UnchangedIffNothingDue | protocol/impls/go/fold.go:57-84 | over runs a row survives a block's beginning unchanged if and only if none of its deadlines has come |
| Deadlines.EndedOfferUnlocks | protocol/impls/go/fold.go:64-76 | a sale whose end has come leaves an unlocked row with owner and lease kept |
| Deadlines.EndedReservationReopensTheListing | protocol/impls/go/fold.go:64-72 | a reservation that ends while its offer runs leaves exactly the listing that stood before the reserve step it goes back to |
| Consent.RowsChangeByConsent | protocol/impls/go/fold.go:107-144 | inside a block a row changes only in a transaction with a verified input of its owner, or by the next step of a sale its owner opened, or by a better claim in the block that minted it |
| Consent.NamesComeByClaim | protocol/impls/go/fold.go:192-261 | no step but a claim of a name brings it into being |
| Consent.NamesComeFromCommits | protocol/impls/go/fold.go:192-261 | every name that appears in a run is claimed there on a digest published in an earlier block |
| ChainRuns.LiveIsRun | protocol/impls/go/fold.go:45-55 | folding a chain block by block ends in the state of the one run of all its steps |
| ChainRuns.ChainIsValidRun | src/sync.c:149-178 | a chain in height order whose times do not fall from activation on is a run of the kind all run results speak of |
| ChainRuns.LiveAnchorSafety | protocol/impls/go/dispatch.go:27-53 | anchor safety for the live state of a chain: an accepted earlier anchor stands for the set after the last block up to it |
| ChainRuns.AcceptedAnchorMatchesHistory | src/db.c:576-591 | the ownership history at the anchor lists exactly the names an accepted anchor selects from |
| ChainRuns.LiveSettlementIsPaidInFull | protocol/impls/go/dispatch.go:225-279 | in every block of a chain a settled name was reserved earlier in the chain by its new owner and is paid in three parts |
| ChainRuns.LiveOfferIsPaidInFull | protocol/impls/go/dispatch.go:281-304 | in every block of a chain an offered name moves only to the named buyer for the whole price |
| ClaimPriority.BestCommitIsLeast | protocol/impls/go/fold.go:203-223 | the backing commit is one that matches and precedes the block, and none precedes it |
| ClaimPriority.SameBlockCommitsBackNothing | protocol/impls/go/fold.go:206-220 | commits made in the claiming block back nothing in it |
| ClaimPriority.WinnerExists | protocol/impls/go/fold.go:225-249 | among the claims of a block one wins exactly when one is eligible |
| ClaimPriority.WinsIsUnique | protocol/impls/go/fold.go:232-249 | there is only one winner: least position, first in chain order on a tie |
| ClaimPriority.BestStandingGetsTheName | protocol/impls/go/fold.go:192-261 | a name unowned at the block start and touched only by claims ends with the winner and the lease its burn bought, whatever the order of the claims |
| PaidInFull.LockedMovesByPayment | protocol/impls/go/dispatch.go:255-304 | a locked name changes owner only by its buyer's settle or payment, in time |
| PaidInFull.ReservationHasOrigin | protocol/impls/go/dispatch.go:225-253 | a standing reservation goes back, unbroken, to a reserve step by the same buyer that burned and paid its legs |
| PaidInFull.SettledNameIsPaidInFull | protocol/impls/go/dispatch.go:255-279 | burn leg, matched pay leg and matched remainder of a settled name add up to the listed price |
| PaidInFull.OfferedNameIsPaidInFull | protocol/impls/go/dispatch.go:281-304 | an offered name moves only by the named buyer paying the seller the whole price |
| PaidInFull.ListedNameStays | protocol/impls/go/dispatch.go:177-202 | a listed name that nobody reserved never changes owner |
| PaidInFull.NoOutputPaysTwice | protocol/impls/go/dispatch.go:353-364 | two steps of one transaction never pay with the same output |
| Lease.LeaseTIsExact | protocol/impls/go/fold.go:279-289 | the word-sized day count is the wide quotient, or flags one of 2^64 or more |
| Lease.FairSplitIsUnique | protocol/impls/go/waterfill.go:10-53 | one award vector at most is fair: sum, caps, and no name ahead by more than one day |
| Lease.WaterFillLinear | protocol/impls/go/waterfill.go:10-53 | the level-raising loop computes the fair split |
| Lease.WaterFillBisect | protocol/impls/csharp/Lease.cs:41-83 | the binary search and the two passes over the array compute the fair split |
| Lease.BisectLevel | protocol/impls/csharp/Lease.cs:63-71 | the search ends at the highest level the days can pay for |
| Lease.SumMinLoop | protocol/impls/go/waterfill.go:55-65 | the capped sum at a level |
| Lease.WideAndWordAwardsAgree | protocol/impls/csharp/Lease.cs:41-83 | both readings of a burn give every name the same days |
| Lease.SingleIsCapped | protocol/impls/go/fold.go:265-277 | a single award is the smaller of the whole days the burn buys and the headroom |
| Lease.HeadroomDays | protocol/impls/go/fold.go:291-301 | the largest whole number of days that keeps a lease within its cap |
| Lease.DaysAreFloor | protocol/impls/go/fold.go:279-289 | the day count is the greatest whole number of days whose price the burn covers |
| Lease.LeaseTByWord | protocol/impls/go/fold.go:279-289 | at any price the word form divides by the price's low word and flags a count of 2^64 or more |
| NameOrder.AscendingIsUnique | protocol/impls/go/dispatch.go:7-17 | a set of names has one ascending listing, so a bit position names one name |
| NameOrder.InsertName | protocol/impls/go/dispatch.go:7-17 | sorting step: the listing stays ascending and gains exactly one name |
| NameOrder.SortNames | protocol/impls/go/fold.go:96-103 | the keys of a table in ascending order |
| Twin.TwinsAgree | protocol/impls/csharp/Fold.cs:62-490 | the second implementation, with its own text wherever it reads differently, reaches the same tables after every prefix of every run |
| Twin.StartsAlike | protocol/impls/csharp/Fold.cs:62-91 | one sweep over the sorted names, stamping lapses as it meets them, is the time step |
| Twin.OffersAlike | protocol/impls/csharp/Fold.cs:365-445 | the lease tail compared in unsigned 64-bit words admits the same sales and offers on sound states at times that are not negative |
| Twin.TailsAlikeIff | protocol/impls/csharp/Fold.cs:380-380 | the unsigned comparison is the signed one if and only if both sides or neither are negative |
| Twin.ReservesAlike | protocol/impls/csharp/Fold.cs:389-407 | the reservation text has the same outcome and takes the same output |
| Twin.SelectsAlike | protocol/impls/csharp/Fold.cs:501-515 | one pass that stops where the flags end and shifts each byte selects the same names |
| Twin.TradesAlike | protocol/impls/csharp/Fold.cs:464-487 | resolving both inputs first and changing the rows one after the other is the swap |
| Twin.TransfersAlike | protocol/impls/csharp/Fold.cs:323-346 | moving the selected rows one by one is the transfer |
| Twin.ReleasesAlike | protocol/impls/csharp/Fold.cs:349-362 | dropping the selected rows one by one is the release |
| Twin.ConveysAlike | protocol/impls/csharp/Fold.cs:410-461 | bumping the old owner first equals bumping the seller last on every locked row of a reachable state |
| Twin.ClaimsAlike | protocol/impls/csharp/Fold.cs:182-244 | the liveness filter, the wide day count and the market reset of a displaced row change nothing on reachable states |
| Twin.RenewsAlike | protocol/impls/csharp/Fold.cs:248-281 | renewal with wide day counts extends the same leases by the same days |
| Twin.SingleAlike | protocol/impls/csharp/Fold.cs:208-214 | a one-name water-fill is the single award |
| Twin.BestAlike | protocol/impls/csharp/Fold.cs:195-206 | on pruned commits the liveness test is always passed |
| Twin.SalesAlike | protocol/impls/csharp/Fold.cs:410-461 | settle and pay have the same outcome and take the same output |
| MedianTime.SortIsOrderedPermutation | src/sync.c:775-779 | the sorted times are ordered and a permutation of the recorded ones |
| MedianTime.InsertionSort | src/sync.c:775-779 | the in-place loop sorts the recorded times and leaves the rest of the buffer |
| MedianTime.RankInPlace | src/sync.c:775-780 | the element read after sorting has exactly its rank among the inputs |
| MedianTime.RankIsUnique | protocol/impls/csharp/Oracle.cs:51-59 | a rank determines its value |
| MedianTime.RankByCounts | src/sync.c:775-780 | an element has rank k when at most k elements are smaller and more than k are no greater; it is one of the elements |
| MedianTime.MedianByCounts | protocol/impls/csharp/Oracle.cs:51-59 | of an even number of times the median is the upper of the two in the middle |
| MedianTime.PredecessorsAreNewest | src/sync.c:763-775 | the compared times are the newest eleven of the checkpoint's two and the recorded ones |
| MedianTime.CheckTime | src/sync.c:771-784 | a block time is accepted exactly when it is later than the median of its predecessors |
| MedianTime.LaterTimeKeepsMedian | src/sync.c:771-784 | appending a time later than the median never lowers the median of the window |
| MedianTime.ClockNeverRunsBackwards | src/sync.c:771-784 | once eleven predecessors are recorded the median time of a validated chain never falls |
| MedianTime.FallsIffBetweenMiddles | src/sync.c:771-784 | a time added without a drop lowers the median if and only if the count is even and it lies below an upper middle that half the times reach |
| MedianTime.ClockFallsIffStepsBack | src/sync.c:771-784 | along a validated chain the clock falls at a block if and only if it is among the first eleven, after an even number of times, and lies below such an upper middle |
| MedianTime.MonotoneIffNoStepBack | src/sync.c:771-784 | the clock is monotone from the first block on if and only if no block among the first eleven does so |
| MedianTime.ClockCanStepBackEarly | src/sync.c:771-784 | a validated chain of three times whose median falls |
| OracleFeed.OracleRate | protocol/impls/go/oracle.go:20-67 | the floor below a thousand paying blocks, else 200 times the lower of the two middle fees per byte, kept within its bounds, with a fee given by its bounds and one entry per paying block |
| OracleFeed.Clamp | protocol/impls/go/oracle.go:59-66 | a value between the floor and the cap is kept, any other moved to the nearer bound |
| OracleFeed.PaysIsFee | protocol/impls/go/oracle.go:37-53 | a fee per byte of v means v times the bytes are covered and v + 1 times are not, v at least one, a size that is not positive read as one |
| OracleFeed.ParticipantsPay | protocol/impls/go/oracle.go:24-54 | the participants are the fees of the paying blocks of the window, each once, in order |
| OracleFeed.RateIsMiddleFee | protocol/impls/go/oracle.go:54-66 | from a thousand paying blocks on the rate is that of a fee with less than half below it and at least half not above it, one of the fees itself |
| OracleFeed.RateIsUnique | protocol/impls/go/oracle.go:54-66 | no other rate fits that description |
| OracleFeed.FeeRowsAre | src/oracle_feed.c:53-65 | the fee window holds exactly the rows of the last 10081 heights, each once, in height order |
| OracleFeed.OnlyRowsBelowMatter | src/oracle_feed.c:45-67 | rows at or above a height do not affect what the feed says for it |
| OracleFeed.FewRowsGiveFloor | protocol/impls/go/oracle.go:20-67 | until a thousand rows are recorded the rate is the floor |
| OracleFeed.MtpOfTip | src/oracle_feed.c:45-52 | above the tip the feed's median is that of the newest eleven times |
| OracleFeed.Feed.Record | src/oracle_feed.c:29-39 | recording keeps the rows strictly ascending, the last write at a height winning |
| OracleFeed.Feed.Rollback | src/oracle_feed.c:41-43 | rolling back keeps exactly the rows below a height |
| OracleFeed.Feed.ForHeight | src/oracle_feed.c:45-67 | the windows collected and reversed in place give the median time and rate of a height |
| Replay.RefoldAgreesIffNoSkippedLapse | src/sync.c:198-220 | refolding only stored blocks agrees with folding every block at every prefix if and only if no skipped block fired a lapse |
| Replay.ProvisoKeepsInStep | src/sync.c:181-220 | under the proviso both folds make the same state from every later block start on |
| Replay.StartsCompose | protocol/impls/go/fold.go:57-94 | time steps at non-decreasing times compose into the last one when the earlier fires no lapse |
| Replay.IdleBlock | protocol/impls/go/fold.go:45-55 | a block without carriers is only its time step |
| ReplayWitness.RefoldCanChangeAnOwner | src/sync.c:198-204 | a validated chain of four blocks, with times and rates as the feed gives them, whose refold ends with a different owner of a name than the fold itself |
| Epochs.Update | src/db.c:522-574 | one pass over the state and one over the open rows update the history as specified row by row |
| Epochs.UpdatedAgrees | src/db.c:522-574 | after an update history and state agree on every owner, and earlier heights answer as before |
| Epochs.RederivingIsNoOp | src/db.c:524-526 | repeating an update over rows above its height changes nothing |
| Epochs.Lookup | src/db.c:576-591 | the query reads the newest row of a name that starts by a height, or none |
| Epochs.UngatedBlockMovesNothing | src/sync.c:171-174 | a block without carriers or lapses changes no owner |
| Epochs.ConnectKeepsAccurate | src/sync.c:171-174 | writing rows only in carrier or lapse blocks keeps the history exact at every height |
| Epochs.PruneKeepsAccurate | src/db.c:408-420 | pruning above a height leaves the history exact for the shorter chain |
| Epochs.Ask | src/db.c:576-621 | the query over the tables: the newest row by the height, else absence or unknown as the coverage mark, the first row and the live names say |
| Epochs.GenesisHistoryIsExact | src/db.c:576-621 | while the history is accurate, as connecting and rolling back keep it, the query covered from genesis gives the owner, or absence, after any block |
| Epochs.FirstRowsStartCoverage | src/db.c:592-606 | the first rows ever written start a history that is exact from that block on |
| Epochs.ConnectKeepsCoverage | src/sync.c:171-174 | connecting keeps it exact from the same height on |
| Epochs.CoveredAnswersAreExact | src/db.c:576-621 | such a history answers the fold's owner, or absence, from its first height on, and unknown before |
| Rederive.RederivedIffNoSkippedLapse | src/sync.c:181-196 | the history rebuilt from the stored blocks alone is accurate if and only if no skipped block fired a lapse |
| Rederive.RebuiltAnswersIffNoSkippedLapse | src/sync.c:377-383 | after a wipe that marks the history covered from genesis, every answer is the fold's if and only if no skipped block fired a lapse |
| Rederive.SkippedLapseAnswer | src/sync.c:190-193 | a name lapsing in the first such block keeps its old owner on record there, where the fold has none |
| ReplayWitness.RebuiltHistoryKeepsALapsedName | src/sync.c:377-383 | a validated chain of four blocks after whose refold the query names an owner of a name the fold had dropped |
| Indexer.Indexer.Connect | src/sync.c:149-178 | connecting folds with the feed's values, records the block, keeps its bytes when replay needs them |
| Indexer.Indexer.ConnectInOrder | src/sync.c:149-178 | in time order the state stays the live fold and the history stays exact |
| Indexer.Indexer.Rollback | src/sync.c:206-220 | a rollback rebuilds the refold of the stored blocks and, under the proviso, rewrites no history row |
| Indexer.Indexer.RollbackInOrder | src/sync.c:206-220 | without a skipped lapse below the fork a rollback leaves a current state and an exact history |
| Indexer.Indexer.RefoldAll | src/sync.c:369-392 | the refold command leaves the refold of the stored blocks and the rebuilt history, marked covered from genesis; in order, that history is accurate if and only if no skipped block fired a lapse |
| Indexer.Indexer.OwnerAtHeight | src/db.c:576-621 | on a current state with an accurate history covered from genesis every answer is the fold's |
| Indexer.Indexer.UpdateHistory | src/db.c:512-517 | writing rows starts the coverage of a history that has none and never moves it |
| Indexer.RefoldIsFoldOfStored | src/sync.c:181-195 | replaying the kept bytes with values from the full feed is the refold |
| Indexer.EntryClock | src/oracle_feed.c:45-52 | every block of a chain is fed the median of the times before it |
| Indexer.FedTimesNeverFall | src/sync.c:771-784 | on a validated chain the times fed to the fold never fall once eleven blocks are recorded |
| Indexer.ValidatedInOrderIff | src/sync.c:771-784 | a validated chain is in order if and only if no block of its first eleven, at or above activation and not the last, steps the clock back |
| Indexer.ValidatedIsInOrder | src/sync.c:771-784 | with activation beyond the first eleven blocks validation alone puts a chain in order |
| Wide.Compare | src/pow.c:134-140 | byte comparison from the top orders the values |
| Wide.Add | src/pow.c:143-146 | the carry loop adds modulo the width |
| Wide.Subtract | src/pow.c:147-150 | the borrow loop subtracts exactly when the result is not negative |
| Wide.ShiftLeftOne | src/pow.c:151-154 | the shift loop doubles modulo the width and leaves the lowest bit clear |
| Digits.BitOfVal | src/pow.c:170-170 | a bit of the value is a bit of one byte |
| Pow.BitsToTarget | src/pow.c:111-122 | the buffer holds the decoded target, or zero with a refusal |
| Pow.TargetToBits | src/pow.c:123-133 | the compact form of the buffer's value |
| Compact.DecodedIsBelowHalf | src/pow.c:111-122 | a decoded target is positive and leaves the top bit clear |
| Compact.DecodeIsWholePart | src/pow.c:111-122 | a compact form stands for the whole part of mantissa times 256^(exponent - 3), when its sign bit is clear, its exponent at most 32 and that part positive; otherwise for nothing |
| Compact.EncodeDecode | src/pow.c:111-133 | encoding a decoded target gives back its bits if and only if they are canonical |
| Compact.EncodeRoundsDown | src/pow.c:123-133 | encoding yields canonical bits for the largest representable target not above the number, less than one part in 32768 below it |
| Work.WorkOf | src/pow.c:156-174 | the work buffer holds floor(2^256 / (target + 1)) exactly, zero for an undecodable target |
| Work.Divide | src/pow.c:167-172 | the bit-by-bit division leaves the quotient, with a remainder below the divisor |
| Work.DivisionStep | src/pow.c:168-171 | one pass brings a bit down and subtracts when the divisor fits, overflowing nothing |
| Work.WorkFits | src/pow.c:156-174 | the work of a valid target is positive and at most 2^255 |
| Work.WorkIsLargest | src/pow.c:156-174 | the work of a target is the largest number of times target plus one fits in 2^256 |
| Work.EasierIsNoMoreWork | src/pow.c:156-174 | an easier target never counts for more work |
| Work.BranchWork | src/sync.c:867-875 | the buffer holds the sum of a branch as 256-bit additions make it |
| Work.AccumulatedIsTotal | src/sync.c:825-854 | with no more headers than the least of their targets the sum is exact: it stays below 2^256 |
| Work.AccumulatedIsTotalIff | src/pow.c:175-175 | the sum is exact if and only if it stays below 2^256 |
| Work.SumCanVanish | src/pow.c:175-175 | two headers of a target of one sum to zero |
| Retarget.NextBitsFor | src/pow.c:178-212 | the byte loops compute the compact form of the clamped, scaled and capped target |
| Retarget.MultiplySmall | src/pow.c:190-199 | the 40-byte product is exact |
| Retarget.DivideBySpacing | src/pow.c:200-205 | the in-place division by 60 is exact |
| Retarget.CapAtLimit | src/pow.c:206-210 | cutting to 32 bytes and to the limit is the minimum of the two values |
| Retarget.NextStaysWithinLimit | src/pow.c:178-212 | the next target never exceeds the limit and its bits are canonical |
| Retarget.NextExists | src/pow.c:178-212 | there is a next target unless an input is none or a target of one would shrink |
| Retarget.OnScheduleKeepsBits | src/pow.c:178-212 | a block solved on schedule keeps bits within the limit if and only if they are canonical |
| Retarget.SlowerIsNoHarder | src/pow.c:178-212 | a slower block never makes the next target harder |
| Retarget.NextTargetIsScaled | src/pow.c:187-210 | the next target is the previous one times the modulated time over sixty, rounded down, or the limit if that is less |
| Retarget.Modulated | src/pow.c:183-186 | sixty seconds moved an eighth of the way to the solve time, rounded toward sixty; beyond -60 and 300 the limits 45 and 90 |
| Merkle.MerkleRoot | src/chain.c:176-193 | the in-place loop computes the odd-duplicating root and raises the flag exactly when a supplied pair repeats on some level |
| Merkle.Fold | src/chain.c:182-189 | one level is overwritten by the level above it without disturbing what is still to be read |
| Merkle.ScanPairs | src/chain.c:180-181 | equal siblings are found exactly when there are any |
| Merkle.RootIsTree | src/chain.c:176-193 | the level-by-level root is the root of the balanced tree, a missing right half copied from the left |
| Merkle.RootDeterminesIds | src/chain.c:172-193 | two unflagged lists of one height with one root are the same list, when no two buffers hashed for them collide |
| Merkle.RepeatedTailKeepsRoot | src/chain.c:172-175 | repeating an odd last id keeps the root under every hash, and is flagged |
| Merkle.SmallRoots | src/chain.c:176-193 | the roots of one, two and three ids written out |
| Multisig.InOrderScan | src/attrib.c:259-269 | the single loop succeeds exactly when some increasing assignment of signatures to verifying keys exists |
| Multisig.NestedScan | protocol/impls/csharp/Attribution.cs:126-140 | the nested loops decide the same question |
| Multisig.EnoughKeys | src/attrib.c:259-269 | no key serves two signatures |
| Multisig.MoreKeysStillSatisfy | protocol/impls/go/attrib.go:523-535 | keys around the ones used never spoil an assignment |
| Script.NextOp | src/attrib.c:92-101 | the cursor passes exactly one operation, or stops at the end |
| Script.OpLenByValue | src/attrib.c:92-101 | an operation is its first byte, its length bytes and as much data as those say, least significant byte first |
| Script.SignedMoveIsOpLen | src/attrib.c:92-101 | with lengths read into a 32-bit int the cursor moves as modelled if and only if no four-byte length is 2^31 or more |
| Script.SignedLoopIsDeletion | src/attrib.c:102-113 | on a script with no negative length on the cursor's way the loop with signed moves is the deletion |
| Script.FindAndDelete | src/attrib.c:102-113 | the script is rewritten in place to what the cursor reading keeps |
| Script.DeletionIsFilter | src/attrib.c:102-113 | for a pattern that is one push this is filtering the list of operations, the undecodable tail verbatim |
| Script.UnchangedIffAbsent | src/attrib.c:102-113 | nothing is deleted if and only if no operation is the pattern |
| Script.DeletingTwiceIsOnce | src/attrib.c:102-113 | what is left never joins into the pattern again |
| OpListFilter.FormsAgree | protocol/impls/java/Attrib.java:209-221 | the list-filter form agrees with the cursor if and only if the script parses or there is nothing to delete |
| OpListFilter.FormsOnAnyScript | protocol/impls/java/Attrib.java:97-125 | on any script, four-byte lengths or not: the forms differ if just one reading has the pattern, agree if neither has it |
| OpListFilter.AgreementFromLongPush | protocol/impls/java/Attrib.java:209-221 | up to the first four-byte length the readings cut alike: the forms agree if and only if they agree from there on |
| OpListFilter.TemplatesFilteredAlike | protocol/impls/java/Attrib.java:209-221 | on both templates that reach deletion the forms agree for every pattern that is one operation |
| OpListFilter.FormsCanDiffer | protocol/impls/java/Attrib.java:209-221 | a script on which the two forms differ |
| SignedScript.PushIsOneOp | src/attrib.c:125-130 | a minimal push is one operation |
| SignedScript.KeyHashScriptIsKept | src/attrib.c:225-227 | on the key-hash script deletion acts if and only if the signature equals the hash |
| SignedScript.RedeemIsKept | src/attrib.c:69-90 | deleting a strict DER signature push leaves every accepted multisignature script as it is |
| SignedScript.SignedUnchanged | src/attrib.c:245-254 | so does deleting any number of them |
| SignedScript.TemplatesHaveNoNegativeLength | src/attrib.c:69-90 | no operation of either template has a four-byte length |
| SignedScript.SignedLoopOnTemplates | src/attrib.c:102-113 | the loop with signed moves does to both templates what is modelled |
| RedeemTemplate.Recognise | src/attrib.c:69-90 | accepts exactly the m-of-n scripts over compressed keys, returning m and the keys |
| Der.DerParse | src/attrib.c:29-54 | accepts exactly the strict DER encodings with the one hash type whose s is low in its last 32 bytes, returning the last 32 bytes of both integers |
| Der.AcceptedIsLowUnlessCut | src/attrib.c:47-51 | an accepted s is low itself if and only if it has at most 32 bytes |
| Der.AcceptsHighS | src/attrib.c:47-51 | an accepted encoding whose s is 2^256 |
| Der.WholeFormAcceptsLess | protocol/impls/csharp/Attribution.cs:150-195 | of those encodings the Go and C# forms accept exactly the ones with a fitting r and an s of at most 32 bytes |
| Der.SignatureIsUnique | src/attrib.c:29-54 | a signature encodes one pair of integers |
| Der.FixedKeepsValue | src/attrib.c:47-51 | the 32-byte form keeps the value if and only if the integer has at most 32 bytes or a zero first byte |
| Der.BeCompare | src/attrib.c:23-23 | byte comparison from the most significant end orders the values |
| Base58.Encode | src/base58.c:8-39 | the address of a version and payload, exactly when both buffers are large enough; the digit buffer never fills |
| Base58.Decode | src/base58.c:46-77 | accepts exactly the addresses whose payload fits, and returns what they were made from |
| Base58.AddressIsUnique | src/base58.c:46-77 | an address has one reading |
| Base58.RoomForDigits | src/base58.c:29-32 | while bytes are left the digit buffer has room |
| Base58.DivideInPlace | src/base58.c:22-28 | the in-place division by 58 is exact |
| Base58.MultiplyAdd | src/base58.c:50-57 | the in-place multiplication by 58 with a digit added is exact up to the carry |
| Base58.DigitOf | src/base58.c:41-44 | the digit of a character, or none outside the alphabet |
| Radix.ConvertBack | src/base58.c:8-77 | changing the base there and back, one zero per leading zero, is the identity |
| Radix.DigitsNeeded | src/base58.c:19-30 | two bytes never need more than three base-58 digits |
| Base58.CharOf | src/base58.c:6-6 | the alphabet: digits without zero, capitals without I and O, small letters without l, in order |
| Base58.AddressReads | src/base58.c:8-39 | an address spells in base 58 the number its bytes are in base 256, with as many leading zeros; the bytes are version, payload and the first four of their hash |
| ChainedTable.Table.Find | src/mempool.c:46-55 | walking a chain finds the node of a key or none |
| ChainedTable.Table.Unlink | src/mempool.c:58-68 | unlinking removes one node and keeps every chain |
| ChainedTable.Table.Link | src/mempool.c:148-155 | linking at the head adds one node and keeps every chain |
| Mempool.TotalWithout | src/mempool.c:69-69 | the byte total does not depend on counting order |
| Mempool.AgreementExcludesDoubleSpends | src/mempool.c:46-55 | indexes that agree with the entries leave no double spend and no repeated id |
| Mempool.Pool.RemoveEntry | src/mempool.c:57-71 | removing an entry keeps both indexes and both counters exact |
| Mempool.Pool.InsertEntry | src/mempool.c:143-156 | inserting an entry keeps both indexes and both counters exact |
| Mempool.Pool.EvictOldest | src/mempool.c:73-80 | the evicted entry is the oldest, of equally old ones the first met in bucket order |
| Mempool.Pool.MakeRoom | src/mempool.c:131-134 | room is made by evicting from the oldest on, and putting the last one back would break a cap |
| Mempool.Pool.Admit | src/mempool.c:125-160 | a standard transaction is pooled exactly when new and without conflict; caps hold, eviction is oldest first and no more than needed |
| Mempool.Relay.Accept | src/mempool.c:95-160 | accepted exactly when standard, new and without conflict; the id is remembered whenever the bytes parse |
| Mempool.Relay.Seen | src/mempool.c:178-183 | an announced id needs no request exactly when it is pooled or remembered |
| Mempool.Pool.OnConfirmed | src/mempool.c:190-200 | exactly the confirmed transaction and everything spending one of its inputs leave |
| Mempool.Pool.Sweep | src/mempool.c:202-211 | exactly the expired entries leave |
| TxCheck.StatelessCheck | src/txcheck.c:33-95 | accepted exactly when size, shape, inputs, scripts and outputs are standard: no loose coinbase, no repeated input, push-only scripts, values and their sum in range, known templates above dust |
| TxCheck.ScriptPushOnly | src/txcheck.c:15-31 | the walk succeeds exactly when the script decodes to its end and every operation is a push |
| TxCheck.CheckOutputs | src/txcheck.c:67-89 | the running checks succeed exactly when every output and the total are in bounds |
| SeenRing.Ring.Note | src/mempool.c:87-92 | the ring keeps the newest ids in order of arrival, each once |
| SeenRing.Ring.Seen | src/mempool.c:83-86 | an id is found exactly when the ring keeps it |
| SeenRing.NotedStaysDistinct | src/mempool.c:87-92 | the ring never repeats an id nor outgrows its size |
| SeenRing.NewestAreKept | src/mempool.c:87-92 | of different ids the newest 4096 are kept, in the order they came |
| Digest.StateDigest | protocol/impls/go/digest.go:14-76 | the digest is the hash of a preimage: sorted tables behind their counts |
| Digest.OrderIsUnique | protocol/impls/go/digest.go:42-52 | ties are between identical rows, so one order of the commits is possible |
| Digest.SameBytesSameTables | protocol/impls/go/digest.go:14-76 | two states share their bytes if and only if they have the same rows, the same bag of commits and the same mutation heights |
| Digest.ReachableTimes | protocol/impls/go/fold.go:148-152 | in a reachable state rows of one height share their commit time |
| Digest.RunFits | protocol/impls/go/digest.go:14-76 | with 32-bit times and counts every reachable value fits the width it is written in |
| Digest.RunsDigestAlike | protocol/impls/go/digest.go:14-76 | two runs, of one deployment or two, digest alike if and only if they end with the same tables |
| Digest.RowOffsets | protocol/SPEC-conformance.md:225-230 | owner, status and lease of a name row stand at their offsets, the market fields behind them |
| Digest.MarketOffsets | protocol/SPEC-conformance.md:229-230 | every market field stands at its offset, in use or not |
| Digest.CommitOffsets | protocol/SPEC-conformance.md:231-231 | every field of a commit row stands at its offset |
| Digest.I64IsTwosComplement | protocol/SPEC-conformance.md:222-223 | a signed field is little-endian two's complement |
| Digest.NameRecord | protocol/impls/go/digest.go:27-41 | a name record can be told from whatever follows it |
| Digest.NameOffsets | protocol/SPEC-conformance.md:226-228 | a name record is the name behind its length, then the row |
| Digest.CommitAt | protocol/SPEC-conformance.md:231-231 | commit record i stands at 52 i |
| Digest.MutAt | protocol/SPEC-conformance.md:232-232 | mutation record i, an owner and a height, stands at 28 i |
| Digest.LayoutOffsets | protocol/SPEC-conformance.md:224-232 | the magic bytes and the three lists, each behind its count, stand one after the other and fill the preimage |
| Digest.PreimageLists | protocol/impls/go/digest.go:14-76 | what is hashed lists every row once in name order, the commits sorted, every owner once in byte order |
| Digest.CommitsStandByDigest | protocol/impls/go/digest.go:42-52 | commits stand by digest, then height, then transaction index |

## Left out

- Twin.TwinsAgree: asks for rates up to the rate cap, times that are not negative and fit the words, and fewer than 2^48 names, beyond which the two implementations' word sizes could differ; commits, the by-name transfer and release, the row aging and the output matcher read the same in both and are shared, and a transaction's index comes with it in place of being counted.
- Merkle.RootDeterminesIds: compares lists of one tree height, as two heights can share a root through an id that is itself a hash of two nodes.
- Script.NextOp: reads a four-byte data length as a non-negative number; the program's int differs exactly where `Script.SignedMoveIsOpLen` says.
- Script.FindAndDelete: stands on the same reading; `Script.SignedLoopIsDeletion` and `SignedScript.SignedLoopOnTemplates` say where the program's loop is this one, the templates that reach deletion among them.
- OpListFilter.FormsAgree: excludes scripts with four-byte data lengths, which the list parser reads as a plain opcode.
- OpListFilter.FormsOnAnyScript: leaves open the scripts in which both readings contain the pattern; `OpListFilter.AgreementFromLongPush` reduces them to what follows the first four-byte length. No template has one.
- Mempool.Relay.Accept: what the bytes parse to and which template each output script has are given; allocation succeeds and one caller holds the lock.
- ChainedTable.Table.Find: chains are sequences in an array of buckets, not linked nodes; the two bucket hashes are arbitrary functions.
- Base58.Encode: returns the text instead of writing it with a terminator into the caller's buffer.
- Digest.SameBytesSameTables: asks that counts fit 32 bits and times and heights 64 bits; for runs all but the counts follow from the words of the block headers (`Digest.RunFits`).
- Digest.StateDigest: sorting is by insertion where the program calls its library.
- Epochs.Update: rows carry no owner type, and the table is a map in place of SQL statements; the coverage mark is kept by `Indexer.Indexer.UpdateHistory`.
- Indexer.Indexer.Connect: whether a block fires a lapse is tested on the state before it, in place of the event counter; stored bytes are a height-ordered list of parsed blocks.
- Indexer.Indexer.RollbackInOrder: holds without a skipped lapse; what happens otherwise is in the witness. Like ConnectInOrder it asks for a chain in order, which validation gives as `Indexer.ValidatedInOrderIff` says.
- AnchorSafety.UnstampedSetIsThatBeforeTheBlock: is one direction; the other is false (`AnchorSafety.StampedSetCanBeThatBeforeTheBlock`).
- Heights and times are unbounded integers in the fold: block times are 32-bit, so the program's 64-bit arithmetic on them does not wrap.
- The decoder of payloads and blocks (name syntax, carrier bodies, transactions, scripts of outputs): carriers arrive decoded.
- The C fold engine the indexer links is not part of this model; the fold is modelled after the Go implementation.
- AuxPoW headers, scrypt and the checkpoint tables: long linear checks or opaque functions.
- Legacy signature hashes and the curve: the verification relation is arbitrary.
- Wallet, watch and peer tables, queries, sockets, the serve loop and the command line: input, output and local policy.
