# Data union: ledger, Merkle commits and vault, verified

A data union shares revenue among its members off chain. Tokens arrive at the vault contract; a server replays the
transfers, together with joins and parts that come over a stream, into a ledger of earnings. Now and then it commits
the Merkle root of a snapshot of that ledger to the contract and stores the snapshot. A member asks the server for a
proof against a stored block, and the contract pays out what the proof shows. The contract cannot look inside a root,
so its own comment leaves one duty to the server: the committed earnings must never exceed what the vault has and has
paid out (flat/DataunionVault_flat.sol:643-645). This project models both sides and proves that the duty is met, and
that members can rely on the payslips they are given.

`dafny verify dfyconfig.toml` checks everything.

## How it is laid out

| file | what it holds |
|---|---|
| Hashing, MerkleSpec | an ideal hash; the tree as a function of its leaves; completeness and soundness of proofs |
| MerkleTrees | the builder that fills the array in place, the lazily built tree object, the path it serves |
| VaultSpec | the contract as a value, its transactions as functions, what every run of them keeps |
| Payments | what each transaction does to accounts, tokens and roles, when it succeeds and how it fails, call by call; what needs an account's consent |
| VaultContract | the contract's fields and functions in place, with reverts, against VaultSpec |
| Members, Sums, Ledger | member lists, sums over addresses, the revenue ledger and its runs |
| LedgerRuns | what a run comes to in terms of its operations alone: fee, recorded total, admin, entries |
| Blocks, FileStore | the truncated list of latest blocks, the block store with its latest link |
| MonoplasmaState | the state object: shared member objects, latest blocks, tree cache |
| Events, Playback, Watcher | the two merges, replay in pieces, the prunable message cache |
| Replays | which events a playback replays and in which order; what replay does to blocks, fee and members |
| WatcherRuns | runs of messages, live events, playbacks and prunings, and the pruning mark in them |
| TreeBuilds | the asynchronous tree build that shares running work, and its base class, as step machines |
| PublishQueue | the serialised publish queue, as a step machine |
| DataUnion | all of it together: transactions, replay and publishing in any interleaving, and the invariant they keep |
| Guarantees | what follows for members and for the contract in every reachable state |
| Offers | the block that is offered for withdrawing, out of all that were ever stored |
| Rejoins | what happens to the payslips and payments of members who leave and come back |

Of the contract's entry points a few stand for all in the table below: each of them ends as its transaction in
VaultSpec says, or with its error and no change.

Where the program changes objects or arrays in place, there is a class or a method with a loop, and its contract ties
the new state to a function of the old one; the properties are then proved of those functions.

## The main results

* **Solvency.** In every reachable state, take for each address any balance that some proof, of any shape, shows
  against any committed root. They sum to at most the vault's tokens plus what it has paid out. Hence the contract's
  bank-run guard never stops a correct proof (`Guarantees.Solvency`, `Guarantees.CorrectProofFailsOnlyIfFrozenOrOld`).
* **Proofs.** A balance can be proven against a block exactly if it is an entry of the snapshot committed for it
  (`Guarantees.ProvableAreTheEntries`, resting on `MerkleSpec.Completeness` and `MerkleSpec.Soundness`).
* **Payslips.** Whatever happens after a block was stored, its payslips stay good; the block offered for withdrawing
  is the newest of all ever stored that the contract does not freeze, as long as the clock does not go back; and from
  it one transaction pays a member's new earnings out (`Guarantees.PayslipStaysGood`, `Offers.OfferedIsNewestStored`,
  `Guarantees.PayoutSucceedsExactlyWhen`).
* **Consent.** Each withdrawal call succeeds exactly under its written-out conditions, takes its amount from its own
  account only, and sends it to its recipient. In every run in which an account neither sends a transaction nor has
  signed for one, all that is withdrawn of its earnings arrives in its own balance; and a signature that is good for
  one message pays one recipient one amount in one contract (`Payments.WithdrawalSucceedsExactlyWhen`,
  `Payments.WithdrawalPays`, `Payments.WithoutConsentAllGoesHome`, `Payments.SignatureBindsPayment`).
* **Books.** Every run of transactions keeps the contract's totals; every run of the ledger hands out all revenue but
  dust, and its members are those who joined last without parting since (`VaultSpec.RunKeepsAccounts`,
  `Ledgers.RevenueIsConserved`, `Ledgers.MembersAreThoseJoined`).
* **What is replayed.** A playback replays exactly the chain's fee, commit and transfer logs of its blocks and the
  messages of its time, in order; afterwards the fee and the members are those said last, and every commit has its
  block in the store, with the ledger as it was at that commit (`Replays.PlaybackReplaysTheWindow`,
  `Replays.HappeningsAreInOrder`, `Replays.ReplayStoresEveryCommit`, `Replays.ReplayAdmitsThoseSaid`,
  `Replays.ReplayTakesTheLastFee`).
* **Replay in pieces.** Playing to one block and then to a later one is playing straight to the later one, unless that
  is the block right after the first, which is skipped. In every run of messages, live events, playbacks and prunings,
  the pruned cache plays as the full history does, the watcher's own playback is never refused, and pruning never
  shows in its state (`Playback.PlaybackComposes`, `Playback.PlaybackComposesExactlyWhen`,
  `WatcherRuns.PlaybackSeesFullHistory`, `WatcherRuns.RunEndsAsUnpruned`).
* **Concurrency.** Shared tree builds serve every caller what it asked for; at most one publication runs, and the
  queue always drains (`TreeBuilds.EveryCallerIsServed`, `PublishQueue.NeverTwoAtOnce`,
  `PublishQueue.RunsAreBounded`).

## Where the code does less than it says, or than one would hope

Each of these is proved as an if-and-only-if over all inputs. What fails is either everything past a bound, or a
failing input or run is given.

* `roundUpToPowerOfTwo` lets inputs up to 2^32 through "against infinite loop", but its 32-bit shift makes the loop
  end exactly for inputs up to 2^30 (`MerkleTrees.RoundingEndsExactlyUpTo`). Likewise the contract's loop over a proof
  ends exactly for up to 255 hashes (`VaultSpec.CounterEndsExactlyUpTo`), and the midpoints of the binary search are
  right exactly for up to 2^30 items (`Watchers.MidpointsAreRightExactlyUpTo`).
* After a part and a rejoin an address has two entries. A payslip reads the first and its path is of the last; the
  contract accepts it exactly if the two have the same earnings (`MerkleTrees.PayslipProvesExactlyWhen`). Every new
  data union can come to a stored block with a payslip that is refused (`Rejoins.RejoinSpoilsPayslip`,
  `Rejoins.RefusedPayslipIsReachable`). What the contract can be shown for such an address is its greatest entry,
  which is all it has earned exactly if at most one of its entries has earned anything
  (`Rejoins.RejoinedIsProvenGreatestEntry`); after a part, a rejoin and one payout it is less
  (`Ledgers.RejoinerIsOwedMore`).
* A clone is the same ledger exactly if the admin was never parted and every entry is still indexed
  (`Ledgers.CloneIsTheSameExactlyWhen`). A join makes the two differ exactly if the address was parted, and a payout
  exactly if the admin was parted and is due something (`Ledgers.CloneTreatsJoinAlikeExactlyWhen`,
  `Ledgers.CloneTreatsPayoutAlikeExactlyWhen`). So from any ledger a single part makes the two differ
  (`Ledgers.PartMakesCloneDiffer`, `Ledgers.AdminPartMakesCloneDiffer`).
* `totalEarnings` misses exactly the payouts that find nobody active (`Ledgers.TotalEarningsMissesIdlePayouts`), such
  as the first of a new union (`Ledgers.FirstPayoutIsNotRecorded`).
* Playing to one block and then to a later one ends as playing straight there, exactly if the later one is not right
  after the first or the first step was skipped (`Playback.PlaybackComposesExactlyWhen`). What is missing then is
  exactly what happened in the skipped block, for instance a transfer; it is made up for by the next step that is not
  skipped (`Playback.SkippedHappeningsAreMissing`, `Playback.SkippedTransferIsMissing`,
  `Playback.SkippedBlockIsMadeUpFor`).
* Truncation of the block list shows exactly if the withdrawable block is asked for when none of the kept blocks is
  withdrawable but a dropped one is; with timestamps in order that is a window of the clock, which only a clock that
  goes back can hit (`Blocks.TruncationIsInvisibleExactlyWhen`, `Blocks.CutAnswersAlikeByClock`,
  `Blocks.TruncationIsInvisible`, `Blocks.TruncationShowsIfClockGoesBack`).
* The cache of running tree builds has the contents array as its only key: a caller gets the tree it asked for exactly
  if the build that it joined was started with its salt (`TreeBuilds.CallerIsServedExactlyWhen`,
  `TreeBuilds.ReusedArrayGoesWrong`).
* The base class of the tree marks itself clean when a build ends, whatever was updated meanwhile. It then has the
  right tree exactly if what was built has the leaves of what there is now; an update during a build to anything else
  leaves it clean and stale (`TreeBuilds.BaseIsRightExactlyWhen`, `TreeBuilds.UpdateDuringBuildGoesStale`). The
  wrapper that the state object uses compares before it marks itself clean.
* A publish call that waits for another runs exactly if that one succeeds; if it fails, the call fails without having
  run, and so do all that wait in a row behind it (`PublishQueue.RunsExactlyIfPredecessorSucceeds`,
  `PublishQueue.FailurePropagates`, `PublishQueue.SecondFailsUnstarted`).

## Model

| member | source | states |
|---|---|---|
| Guarantees.Solvency | flat/DataunionVault_flat.sol:641-645 | in every reachable state, balances that can be proven, one for each address, sum to at most the vault's tokens plus what was withdrawn |
| Guarantees.CorrectProofFailsOnlyIfFrozenOrOld | flat/DataunionVault_flat.sol:500-507 | with less than 2^255 received, a correct proof is refused only if its block is frozen or its earnings are not higher; the guard for missing balance and the overflow checks never stop it; otherwise exactly the account's earnings and the total move |
| Guarantees.ProvableAreTheEntries | flat/DataunionVault_flat.sol:314-319 | in every reachable state a balance can be proven against a block if and only if it is an entry of the snapshot committed for that block |
| Guarantees.EntryIsProvable | flat/DataunionVault_flat.sol:326-337 | on a committed snapshot the path of an entry, at most 30 hashes, proves the earnings of that entry and no other balance |
| Guarantees.PayslipStaysGood | src/state.js:191-253 | after any further run a stored block is served unchanged, and the contract accepts the served path for an entry exactly if its earnings are those of the address's last entry |
| Guarantees.EveryPayslipIsAccepted | src/state.js:244-253 | with distinct addresses in the block, every payslip from it is accepted after any further run |
| Guarantees.OfferedIsNewestUnfrozen | src/state.js:137-150 | the block offered for withdrawing is the newest listed one that the contract does not freeze; none is offered exactly if all are frozen |
| Offers.OfferedIsNewestStored | src/state.js:137-150 | in every run in which the clock does not go back, the block offered is the newest of all ever stored that the contract does not freeze, although the list is cut; none is offered exactly if all are frozen |
| Guarantees.PayoutSucceedsExactlyWhen | flat/DataunionVault_flat.sol:519-532 | with the payslip from the offered block, proving and withdrawing in one transaction succeeds exactly if the earnings are higher than those proven and the address is not zero; the member then has exactly all of its earnings |
| Rejoins.RejoinSpoilsPayslip | src/state.js:191-199 | from every reachable state, after a member with earnings has left and come back, the next publication stores a block from which its payslip is refused |
| Rejoins.RefusedPayslipIsReachable | src/state.js:244-253 | every new data union can come to such a block |
| Rejoins.RejoinedIsProvenGreatestEntry | flat/DataunionVault_flat.sol:444-507 | in every reachable state an address can be proven its greatest entry of a block and nothing above it; that is all its entries have earned if and only if at most one has earned anything |
| Guarantees.FiledStays | src/state.js:156-165 | in no run is a stored block lost or changed, and it is what is served under its number |
| Guarantees.StoredNumbersIncrease | src/operator.ts:125-157 | a block that gets stored is newer than all stored ones, the latest link and the head of the list lead to it, and it is the snapshot committed under its number |
| Guarantees.PublishingStoresTheLedger | src/operator.ts:117-157 | from every reachable state with nothing in progress, a run exists in which a publication of a new number, asked for or observed, commits the root of the present members and stores them with the commit's time |
| Guarantees.CommitSucceedsExactlyWhen | src/operator.ts:140-144 | the commit of a publication succeeds if and only if there are members and the number has no root yet, and then the root and time are there; otherwise the task fails and nothing else changes |
| Guarantees.PublicationSucceedsExactlyIfStored | src/operator.ts:148-157 | a committed block is stored, and its task has succeeded, if and only if its number and time are safe integers above zero; otherwise the task fails and nothing is stored or listed |
| Guarantees.ReachableIsSafe | src/operator.ts:94-172 | every state that any interleaving reaches from a new vault and ledger satisfies the whole invariant |
| DataUnions.StepIsSafe | src/operator.ts:117-172 | every step, be it a transaction, a replayed transfer or message, a publishing step or a query, keeps earnings backed, roots and snapshots matched, stored blocks committed, and the queue in order |
| DataUnions.EveryRunIsSafe | src/operator.ts:94-172 | at the end of every run, in whatever interleaving, the whole invariant holds |
| DataUnions.TransactIsSafe | flat/DataunionVault_flat.sol:500-657 | a transaction from anyone keeps the invariant: proven earnings stay entries of committed snapshots |
| DataUnions.TransactIsBacked | flat/DataunionVault_flat.sol:650-657 | tokens that leave are counted as withdrawn and tokens that come reach the inbox, so earnings stay covered |
| DataUnions.ReplayTransferIsSafe | src/utils/events.js:18-22 | a received amount, replayed at any time and in any order, keeps earnings covered |
| DataUnions.ReplayMessageIsSafe | src/utils/events.js:30-50 | joins, parts and fee changes keep earnings covered and never shrink an entry |
| DataUnions.CommitIsSafe | src/operator.ts:140-144 | a commit, or its refusal, keeps the invariant: the root is that of the clone, under a number without a root |
| DataUnions.StoreIsSafe | src/operator.ts:150-157 | what is stored is the snapshot that was committed under its number, with the contract's timestamp |
| DataUnions.AskIsSafe | src/state.js:143-146 | cutting the block list drops no block from the store |
| DataUnions.ProofsAreOfEntries | flat/DataunionVault_flat.sol:314-319 | a proof that the contract takes for correct is of an entry of the committed snapshot |
| DataUnions.StartIsSafe | src/state.js:27-82 | a new vault and a ledger of just the admin satisfy the invariant |
| MerkleSpec.LevelFillsFromTheLeft | src/merkletree/api.js:74-91 | on every level exactly the first so many slots hold a node |
| MerkleSpec.LevelCountIsCeiling | src/merkletree/api.js:74-91 | a level k steps above the leaves has n divided by 2^k nodes, rounded up |
| MerkleSpec.StepUp | src/merkletree/api.js:80-88 | next to every node stands a hash or the zero, and the parent is the two combined, or the node itself next to a zero |
| MerkleSpec.PathLeadsToRoot | flat/DataunionVault_flat.sol:326-337 | folding the siblings of any node on any level gives the root |
| MerkleSpec.Completeness | src/merkletree/api.js:130-150 | the path of every entry of every list folds to the root, and is no longer than the tree is high |
| MerkleSpec.Soundness | flat/DataunionVault_flat.sol:314-337 | whatever list of hashes folds a leaf to a root, the leaf is an entry of the list that the root was made of, with its salt |
| MerkleSpec.ProvableExactlyIfEntry | flat/DataunionVault_flat.sol:314-337 | a list of hashes that folds a leaf to a root exists if and only if the leaf is an entry with the salt of the root |
| MerkleSpec.RootBindsEntries | src/merkletree/api.js:57-96 | lists with the same root have the same salt and the same entries |
| MerkleSpec.FoldIsInjective | flat/DataunionVault_flat.sol:326-337 | the same proof takes different leaves to different roots |
| Hashing.CombinedIgnoresOrder | src/merkletree/api.js:27-31 | two nodes combine to the same hash in either order |
| Hashing.CombinedIsSorted | src/merkletree/api.js:27-31 | what is hashed together are the two hashes, the lesser one first |
| Hashing.LessIsStrictAndTotal | src/merkletree/api.js:28-30 | the order in which hashes are sorted before combining is strict and total |
| MerkleTrees.RoundingEndsExactlyUpTo | src/merkletree/api.js:33-42 | with 32-bit shifts the rounding loop ends if and only if its input is at most 2^30 |
| MerkleTrees.RoundUpToPowerOfTwo | src/merkletree/api.js:33-42 | for inputs up to 2^30 the least power of two at or above, in as many turns of the loop as its exponent; inputs above 2^32 are refused; on those between, no number of turns suffices |
| MerkleTrees.BuildMerkleTree | src/merkletree/api.js:57-96 | the array holds, cell by cell, the tree that the specification derives from the leaves, and the index leads to each address's last leaf |
| MerkleTrees.HashLeaves | src/merkletree/api.js:58-70 | after the first pass the leaf cells hold the leaves and nothing above them is computed |
| MerkleTrees.BuildBranches | src/merkletree/api.js:72-93 | after the level passes every cell but cell 0 holds its node, or the zero next to an odd node, or nothing |
| MerkleTrees.BuildLevel | src/merkletree/api.js:75-91 | a pass that stops at the first missing node still leaves nothing of its level or its parents undone |
| MerkleTrees.BuildPair | src/merkletree/api.js:78-88 | a pair gives its parent, an odd node a zero and itself promoted, and nothing else changes |
| MerkleTrees.ClimbStep | src/merkletree/api.js:143-148 | every sibling slot that is read on the way up lies in the array and holds a hash or the zero |
| MerkleTrees.PathUp | src/merkletree/api.js:142-149 | the collected hashes are the path of the leaf |
| MerkleTrees.FindPath | src/merkletree/api.js:136-150 | an address gets the path of its last entry, an unknown one an error |
| MerkleTrees.MerkleTree.constructor | src/merkletree/api.js:99-101 | a new tree is dirty and has the given contents and salt |
| MerkleTrees.MerkleTree.Update | src/merkletree/api.js:103-112 | an update makes the tree dirty and touches no array |
| MerkleTrees.MerkleTree.GetContents | src/merkletree/api.js:114-124 | when nothing is updated during the build: afterwards a tree with contents is clean, and a clean tree has the array of its present contents and salt; empty contents are refused |
| MerkleTrees.MerkleTree.GetPath | src/merkletree/api.js:136-150 | serves the path in the tree of the present contents and salt, however stale the array was |
| MerkleTrees.MerkleTree.GetRootHash | src/merkletree/api.js:152-155 | gives the root of the present contents and salt, however stale the array was |
| MerkleTrees.ServedExactlyIfListed | src/merkletree/api.js:136-141 | a path is served for an address if and only if it has an entry |
| MerkleTrees.ServedPathIsOfLastEntry | src/merkletree/api.js:66-70 | the served path is of the last entry with the address |
| MerkleTrees.PayslipProvesExactlyWhen | src/state.js:191-199 | the served path proves an entry of the address if and only if its earnings are those of the last one |
| Members.IndexOfFindsLast | src/state.js:72-73 | the index of a list leads to the last entry with each address, and to all addresses that have one |
| VaultSpec.WithdrawSucceedsExactlyWhen | flat/DataunionVault_flat.sol:650-657 | with books in order a withdrawal succeeds if and only if it is not empty, is covered by proven earnings, and has a recipient: the token transfer and the sums never fail |
| VaultSpec.VerifyKeepsAccounts | flat/DataunionVault_flat.sol:500-507 | recording proven earnings keeps the books, and the account has the new earnings |
| VaultSpec.WithdrawKeepsAccounts | flat/DataunionVault_flat.sol:650-657 | a withdrawal keeps the books, and the account's withdrawn amount strictly grows |
| VaultSpec.WithdrawalIsProveThenPay | flat/DataunionVault_flat.sol:515-639 | each of the nine ways to withdraw is the proving that the call asks for, if any, and then one payment of the call's amount, or of all up to the proven earnings, out of the account written out for that call |
| VaultSpec.ExecuteKeepsAccounts | flat/DataunionVault_flat.sol:287-657 | every transaction, succeeding or reverted, keeps the books; tokens plus withdrawals change by exactly what was received |
| VaultSpec.RunKeepsAccounts | flat/DataunionVault_flat.sol:434-448 | in every run the totals are the sums over accounts, nobody has withdrawn more than proven, what is proven and not withdrawn is covered by tokens, and nothing proven or withdrawn is taken back |
| VaultSpec.CommitsStay | flat/DataunionVault_flat.sol:287-293 | what others than operator and owner do leaves roots and times alone, and changes earnings only by a correct proof |
| VaultSpec.RootsAreFinal | flat/DataunionVault_flat.sol:287-293 | a root or its time changes only if the operator commits to a block without a root, and then to that root at that time |
| VaultSpec.RootsAreFinalInRuns | flat/DataunionVault_flat.sol:287-293 | in every run, whoever becomes operator, a committed root and its time are final |
| VaultSpec.SignedWithdrawalMovesOn | flat/DataunionVault_flat.sol:673-693 | a signed withdrawal succeeds only on a message, signed by the account it is taken from, that names the recipient paid, the amount paid or zero for all, this contract, and what is withdrawn so far; and it moves past that |
| VaultSpec.SignedWithdrawalsAreSingleUse | flat/DataunionVault_flat.sol:659-664 | in no run does a signature that is good for one message only pass twice |
| VaultSpec.SafeAddIs | flat/DataunionVault_flat.sol:26-31 | on words the wrap-around test refuses exactly the sums that do not fit |
| Payments.ProveSucceedsExactlyWhen | flat/DataunionVault_flat.sol:302-337 | earnings can be proven if and only if the proof of at most 255 hashes folds their leaf to the committed root, the freeze is over, they are higher than those proven, and tokens cover the new total; then exactly they and the total change |
| Payments.ProveCallSucceedsExactlyWhen | flat/DataunionVault_flat.sol:302-305 | anyone may prove any account, under exactly these conditions, and only that account changes |
| Payments.SignatureIsAcceptedExactlyWhen | flat/DataunionVault_flat.sol:673-693 | a signature is accepted if and only if it has 65 bytes, its version is 0, 1, 27 or 28, and it recovers to the signer for the message of recipient, amount, this contract and what the signer has withdrawn |
| Payments.WithdrawalSucceedsExactlyWhen | flat/DataunionVault_flat.sol:515-657 | each of the nine calls succeeds if and only if it is signed where it must be, its proof if it has one is good, it pays something within the earnings then proven, and it has a recipient |
| Payments.WithdrawalFailsWithFirst | flat/DataunionVault_flat.sol:515-693 | a failed withdrawal fails with the error of its first check that fails: the signature, then the proof, then the payment |
| Payments.WithdrawalPays | flat/DataunionVault_flat.sol:515-657 | a withdrawal adds exactly its amount to what its account has withdrawn, moves exactly that from the vault to its recipient, sets only that account's earnings to what it proves, and changes nothing else for anybody |
| Payments.PaysOthersOnlyByConsent | flat/DataunionVault_flat.sol:602-639 | what an account has withdrawn changes only by a call on that account, by the call's amount, and pays another address only if the account sent the transaction or signed for it |
| Payments.WithoutConsentAllGoesHome | flat/DataunionVault_flat.sol:528-657 | in every run in which an account does not act, everything that is withdrawn of its earnings arrives in its own token balance |
| Payments.SignatureBindsPayment | flat/DataunionVault_flat.sol:687-692 | a signature that is good for one message is accepted for one recipient, one amount and one contract only, in whatever vaults and calls |
| Payments.TokensMove | flat/DataunionVault_flat.sol:656-656 | a transaction moves exactly the tokens of its withdrawal, transfer or minting, and no other balance changes |
| Payments.RolesFollowTheOwner | flat/DataunionVault_flat.sol:461-475 | operator and fee take a new value if and only if the owner sets it, the fee only within bounds; owner and freeze period stay |
| Payments.OperatorIsLastAppointed | flat/DataunionVault_flat.sol:461-464 | in every run the operator is the one the owner appointed last |
| Payments.OtherCallsFailExactlyWhen | flat/DataunionVault_flat.sol:287-293 | commits, role and fee changes and transfers are refused exactly for a root that is there, the wrong sender, a fee above the whole, or missing tokens or recipient, with the error of the first of these |
| VaultContract.Token.Transfer | flat/DataunionVault_flat.sol:656-656 | an honest token moves exactly the amount, or refuses and moves nothing |
| VaultContract.DataunionVault.constructor | flat/DataunionVault_flat.sol:450-455 | a new vault's books are in order, whatever tokens it was sent before |
| VaultContract.DataunionVault.Commit | flat/DataunionVault_flat.sol:287-293 | ends as the specified transaction, or with its error and no change |
| VaultContract.DataunionVault.OnCommit | flat/DataunionVault_flat.sol:483-486 | refuses others than the operator, and otherwise only records the time |
| VaultContract.DataunionVault.CalculateRoot | flat/DataunionVault_flat.sol:326-337 | with the counter wrapping at 8 bits, the loop gives the sorted fold for up to 255 hashes, and for more runs out of gas however much there is |
| VaultSpec.CounterEndsExactlyUpTo | flat/DataunionVault_flat.sol:328-328 | the 8-bit counter ever reaches a proof's length if and only if that is at most 255 |
| VaultContract.DataunionVault.IsProofCorrect | flat/DataunionVault_flat.sol:314-319 | true exactly if the proof folds the leaf to the committed root; an error if there is none |
| VaultContract.DataunionVault.VerifySuccess | flat/DataunionVault_flat.sol:500-507 | ends in the specified state or with the specified error, in the order of the checks |
| VaultContract.DataunionVault.WithdrawInside | flat/DataunionVault_flat.sol:650-657 | the same for a withdrawal, whose books are written before the tokens move |
| VaultContract.DataunionVault.Authorize | flat/DataunionVault_flat.sol:673-693 | ends as the specified check, which accepts exactly well-formed signatures that recover to the signer for the message of recipient, amount, contract and withdrawn so far (`Payments.SignatureIsAcceptedExactlyWhen`) |
| VaultContract.DataunionVault.Prove | flat/DataunionVault_flat.sol:302-305 | ends as the specified transaction, or with its error and no change |
| VaultContract.DataunionVault.WithdrawAllFor | flat/DataunionVault_flat.sol:528-532 | ends as the specified transaction, or with its error and no change, even of what it had proven first |
| VaultContract.DataunionVault.ProveAndWithdrawToSigned | flat/DataunionVault_flat.sol:586-596 | ends as the specified transaction, or with its error and no change, even of what it had proven first |
| VaultContract.DataunionVault.SetAdminFee | flat/DataunionVault_flat.sol:471-475 | ends as the specified transaction, or with its error and no change |
| Ledgers.NewIsValidExactlyWhen | src/state.js:65-81 | a list starts a ledger that keeps the index invariant if and only if its active entries are the last with their addresses |
| Ledgers.AddMemberKeepsValid | src/state.js:317-337 | a join keeps the index invariant and loses or shrinks no entry |
| Ledgers.RemoveMemberKeepsValid | src/state.js:344-364 | a part keeps the index invariant and loses or shrinks no entry |
| Ledgers.JoinAdmits | src/state.js:317-337 | after a join the address is a member, and nobody else's membership changes |
| Ledgers.PartRemoves | src/state.js:344-364 | after a part the address is no member, and nobody else's membership changes |
| Ledgers.MembersAreThoseJoined | src/state.js:317-401 | after any run the members are exactly the addresses whose last join or part was a join, or that started as members and had neither |
| Ledgers.ActiveAddressesAreDistinct | src/state.js:317-364 | no two active entries have the same address, after whatever joins and parts |
| Ledgers.CloneListsTheSame | src/state.js:88-100 | a clone has the same entries and keeps the invariant |
| Ledgers.CloneIsTheSameExactlyWhen | src/state.js:66-100 | a clone is the same ledger if and only if the admin was not parted and every entry is indexed |
| Ledgers.CloneTreatsJoinAlikeExactlyWhen | src/state.js:72-73 | a join gives ledger and clone the same entries if and only if the address is indexed or new; a parted one gets a second entry, but in the clone its old one |
| Ledgers.CloneTreatsPayoutAlikeExactlyWhen | src/state.js:74-81 | a payout gives ledger and clone the same entries if and only if the admin was not parted or is due nothing |
| Ledgers.PartMakesCloneDiffer | src/state.js:88-100 | after the part of any indexed address, clone and ledger differ, and a join of that address gives them different entries |
| Ledgers.AdminPartMakesCloneDiffer | src/state.js:74-81 | after the part of the admin, every payout of which it is due something gives clone and ledger different entries |
| Ledgers.RejoinStartsFromZero | src/state.js:317-364 | after a part and a rejoin the old entry keeps its earnings, and the last entry with the address has none |
| Ledgers.GreatestIsAllExactlyWhen | flat/DataunionVault_flat.sol:444-445 | the greatest entry of an address is all that its entries have earned if and only if at most one of them has earned anything |
| Ledgers.RejoinerIsOwedMore | src/state.js:294-364 | from any ledger whose fee is not all: after a part, a rejoin and a payout, a member that had earned something has a greatest entry that is less than all its entries have earned |
| Ledgers.PayoutPaysDues | src/state.js:294-309 | with someone active the admin gets the largest whole amount within the fee fraction and each active entry the largest equal share of the rest; with nobody active the admin gets all |
| Ledgers.RevenueIsHandedOut | src/state.js:294-309 | a payout hands out all but dust, less than one unit for each active entry, and never more than came in |
| Ledgers.TotalEarningsMissesIdlePayouts | src/state.js:297-307 | the recorded total grows by exactly the payouts that find someone active |
| Ledgers.FirstPayoutIsNotRecorded | src/state.js:297-307 | a new union that nobody has joined earns its first payout in full, and records none of it |
| Ledgers.EarningsAreBacked | src/state.js:294-364 | in every run earnings sum to at most what was there and what was received |
| Ledgers.RevenueIsConserved | src/state.js:294-364 | in every run in which the admin is not parted they sum to exactly that, less the dust of each payout |
| Ledgers.EqualActivityEqualGain | src/state.js:306-306 | entries other than the admin's that are active for the same payouts gain the same |
| LedgerRuns.FeeIsTakenExactlyIfWithinBounds | src/state.js:274-289 | a fee between 0 and 1 becomes the fee and changes nothing else; any other is refused and changes nothing |
| LedgerRuns.FeeIsLastSet | src/state.js:274-289 | after any run the fee is the last one within bounds that was set, or the initial one |
| LedgerRuns.AdminIsPaidTheLastFee | src/state.js:294-309 | a payout in a run pays a listed admin the largest whole amount within the fee that was set last, and each active entry the largest equal share of the rest |
| LedgerRuns.TotalIsWhatWasRecorded | src/state.js:294-309 | in every run the recorded total grows by exactly the payouts that find somebody active |
| LedgerRuns.AdminLeavesExactlyByPart | src/state.js:344-364 | in every run the admin object is out of the list if and only if the admin's address was parted; no join brings it back |
| LedgerRuns.RevenueIsConservedAfterThePart | src/state.js:294-364 | once the admin has been parted, in every run entries and detached admin object together have earned exactly what came in, less the dust |
| LedgerRuns.EntriesAreNewJoins | src/state.js:317-364 | after any run an address has one more entry for each join anew or after a part; re-activating an indexed one makes none |
| Blocks.SortFindsTheSame | src/state.js:157-160 | in whatever order a list was, sorting it changes no answer to which block has a number |
| Blocks.ListedInOrder | src/operator.ts:155-157 | putting a block with a new number in front and sorting gives a strictly falling list with that block and the old ones |
| Blocks.StoredGoesFirst | src/state.js:411-426 | a block that the duplicate guard lets through becomes the head of a strictly falling list |
| Blocks.TruncationIsInvisible | src/state.js:127-150 | for any requests, as long as the clock does not go back, all answers are those of a list that is never cut |
| Blocks.CutAnswersAlikeExactlyWhen | src/state.js:143-149 | a cut list gives the same withdrawable block as the full one if and only if a kept block is withdrawable or no block is |
| Blocks.CutAnswersAlikeByClock | src/state.js:143-149 | with timestamps in order: if and only if the clock is past the freeze of the last block kept, or not past that of the oldest |
| Blocks.TruncationIsInvisibleExactlyWhen | src/state.js:127-150 | for any requests and any clock, all answers are those of a list that is never cut if and only if every question comes when a kept block is withdrawable or no block is |
| Blocks.TruncationShowsIfClockGoesBack | src/state.js:143-146 | any two blocks with different timestamps can be missed this way, by a clock that goes back between their freezes |
| FileStores.SaveKeepsConsistent | src/fileStore.js:114-137 | in whatever order blocks are saved, the latest link names the greatest number |
| FileStores.StoringKeepsPublished | src/state.js:156-165 | storing a new block changes no other published block |
| FileStores.TruncatingKeepsPublished | src/state.js:146-165 | cutting the list changes no published block |
| FileStores.ListedIsPublished | src/state.js:156-165 | published under a number is the first listed block with it, whatever is stored; else the stored one; else none |
| FileStores.FileStore.SaveBlock | src/fileStore.js:114-124 | the store is left as specified; block number zero is refused |
| FileStores.FileStore.MakeLatestSymlink | src/fileStore.js:126-137 | the link moves unless it names a newer block |
| FileStores.FileStore.GetLatestBlock | src/fileStore.js:69-77 | gives the block that the link names, if any |
| FileStores.FileStore.LoadBlock | src/fileStore.js:56-62 | gives the stored block of that number |
| FileStores.LoadsWhatWasSavedLast | src/fileStore.js:56-85 | after any saves, loading a number gives what was saved last under it, and a number under which nothing was saved does not exist |
| FileStores.SavedLastIsTheLast | src/fileStore.js:114-124 | what was saved last under a number is the last of the saved blocks with that number |
| MonoplasmaStates.MonoplasmaMember.AddRevenue | src/member.js:11-13 | earnings grow by the amount |
| MonoplasmaStates.MonoplasmaMember.SetActive | src/member.js:22-24 | only the flag changes |
| MonoplasmaStates.MonoplasmaMember.Clone | src/member.js:38-44 | a new object with the same values |
| MonoplasmaStates.ActiveOfIsTheActiveOnes | src/state.js:295-296 | the filtered objects are distinct, active, all there are, and as many as are counted |
| MonoplasmaStates.PayAll | src/state.js:306-306 | every object of a list without repetition is paid once |
| MonoplasmaStates.MonoplasmaState.constructor | src/state.js:27-82 | the state represents the specified new ledger with objects of its own, and starts valid under the condition on active entries |
| MonoplasmaStates.MonoplasmaState.Clone | src/state.js:88-100 | the clone lists the same entries in objects of its own; it has no blocks and its time starts from zero |
| MonoplasmaStates.MonoplasmaState.AddRevenue | src/state.js:294-309 | paying shared objects in place amounts to the specified payout, also when the admin object is an entry, an active entry, or in no entry |
| MonoplasmaStates.MonoplasmaState.AddMember | src/state.js:317-337 | the specified join, keeping the link between admin object and entry |
| MonoplasmaStates.MonoplasmaState.RemoveMember | src/state.js:344-364 | the specified part, which detaches the admin object if it was the entry |
| MonoplasmaStates.MonoplasmaState.AddMembers | src/state.js:377-386 | the specified joins in order, reporting the new entries |
| MonoplasmaStates.MonoplasmaState.RemoveMembers | src/state.js:393-401 | the specified parts in order, reporting the members that left |
| MonoplasmaStates.MonoplasmaState.SetAdminFeeFraction | src/state.js:274-289 | a fraction between 0 and 1 is taken, any other refused without change (`LedgerRuns.FeeIsTakenExactlyIfWithinBounds`) |
| MonoplasmaStates.MonoplasmaState.StoreBlock | src/state.js:408-430 | the specified block list and store, or the specified error and no change; cached trees stay right |
| MonoplasmaStates.MonoplasmaState.GetLatestBlock | src/state.js:127-135 | the head of the list |
| MonoplasmaStates.MonoplasmaState.GetLatestWithdrawableBlock | src/state.js:137-150 | the newest listed block whose freeze is over, and the specified cut; cached trees stay right |
| MonoplasmaStates.MonoplasmaState.GetBlock | src/state.js:156-165 | the block as listed, else as stored, else an error |
| MonoplasmaStates.LeastUsed | src/state.js:214-221 | the first entry with the least hit count |
| MonoplasmaStates.MonoplasmaState.Evict | src/state.js:212-223 | exactly one entry goes, one of least hit count |
| MonoplasmaStates.MonoplasmaState.GetTreeAt | src/state.js:208-236 | always the tree of the block that is published under the number; the cache keeps distinct numbers and its size, a hit is counted, and a full one drops a least used entry, even if no block is published |
| MonoplasmaStates.MonoplasmaState.ListBlock | src/operator.ts:155-157 | the block joins the sorted list; listing one that is stored leaves every cached tree right |
| MonoplasmaStates.StorePublished | src/operator.ts:150-157 | the clone's snapshot is stored and then published by the live state; under a new number every cached tree of the live state stays right and its list strictly falling |
| MonoplasmaStates.MonoplasmaState.GetProofAt | src/state.js:244-253 | the path that the published block's tree serves for the address, whatever is cached |
| MonoplasmaStates.MonoplasmaState.PrepareRootHash | src/state.js:255-258 | the root of all present entries, salted with the block number |
| Events.MergeIsPermutation | src/utils/events.js:68-124 | a merge has the events of both lists and no others |
| Events.MergeIsSorted | src/utils/events.js:68-124 | merging sorted lists gives a sorted list |
| Events.MergeIsStable | src/utils/events.js:62-67 | of events that tie, those of the first list come first and each list keeps its order |
| Events.MergeSplits | src/utils/events.js:68-124 | merging lists that are cut at the same point is merging the parts |
| Events.BothOrdersAreTotalPreorders | src/utils/events.js:77-106 | chain order and time order are total and transitive, so the merge results apply to both |
| Events.MergeEventLists | src/utils/events.js:93-124 | the endless loop ends, with the merge in chain order |
| Events.MergeEventsWithMessages | src/utils/events.js:68-91 | the endless loop ends, with the merge in time order |
| Playback.ReplayInPieces | src/utils/events.js:6-11 | replaying two lists one after the other is replaying their concatenation, stopping at the first failure |
| Playback.ReplayIsLedgerRun | src/utils/events.js:6-55 | a replay of any events is a run of the ledger on what they say, on all of them or up to the one that failed |
| Playback.ReplayIsBacked | src/utils/events.js:6-55 | a replay adds no more to the earnings than its transfers brought |
| Replays.HappeningsAreExactly | src/watcher.ts:264-289 | what is replayed for a range of blocks is each fee, commit and transfer log of the range with its block's time, and each message of the time window, as often as it occurs, and nothing else |
| Replays.HappeningsAreInOrder | src/watcher.ts:279-292 | it is in time order: the logs of all kinds in chain order, the messages in the order they came, logs first where times tie |
| Replays.PlaybackReplaysTheWindow | src/watcher.ts:250-295 | a playback that runs replays exactly what happened after the state's block and time up to the block played to, and then stands at that block and its time |
| Replays.PublishedIsTheLastCommit | src/watcher.ts:297-299 | playback returns the block named by the last commit log of its range, zero if there is none, nothing if it was skipped or failed |
| Replays.CommitStoresExactlyWhen | src/utils/events.js:24-29 | a replayed commit stores the present members, total, owner and fee under its number and its time in seconds, heading the list, if and only if the time is a whole safe second, the number safe and above every listed one; otherwise it fails with the specified error and changes nothing |
| Replays.ReplayStoresEveryCommit | src/utils/events.js:6-29 | after a replay without an error every commit in it has its block in the store, with the ledger as it was when that commit was replayed |
| Replays.RestartIsClone | src/watcher.ts:126-137 | the ledger that is started from a stored block, with the admin and fee it was stored with, is the clone of the one that was stored |
| Replays.EventFailsExactlyWhen | src/utils/events.js:14-55 | an event fails if and only if it is a commit that cannot be stored or a fee above the whole, and then changes nothing |
| Replays.ReplayTakesTheLastFee | src/utils/events.js:46-50 | after a replay without an error the fee is the one said last |
| Replays.ReplayAdmitsThoseSaid | src/utils/events.js:30-37 | after a replay without an error the members are those of whom a join was said last, and of the others those who were members before |
| Playback.HappeningsSplit | src/watcher.ts:264-289 | what is replayed for a range of blocks is what is replayed for its parts, messages included |
| Playback.PlaybackComposes | src/watcher.ts:250-299 | playing to one block and then to a later one that is not the next, or after a first step that was skipped, ends as playing straight there, in state and in error |
| Playback.PlaybackComposesExactlyWhen | src/watcher.ts:250-299 | where nothing fails, playing in pieces ends as playing straight if and only if the second block is not right after the first or the first step was skipped |
| Playback.SkippedHappeningsAreMissing | src/watcher.ts:252-256 | playing to the block right after the last one played changes nothing, while playing straight there ends, but for the position, as replaying exactly the happenings of that block on that state, with the same error |
| Playback.SkippedTransferIsMissing | src/watcher.ts:252-256 | from every state a run in which a transfer in that block is in the ledger when playing straight and not when playing in pieces |
| Playback.SkippedBlockIsMadeUpFor | src/watcher.ts:252-256 | a step to the block right after the last one played changes nothing, and the next step that is not skipped makes up for it |
| Playback.PruningIsTransparent | src/watcher.ts:258-289 | a playback that the guard lets through sees what it would see had nothing been pruned |
| Playback.GuardSufficesExactlyWhen | src/watcher.ts:258-262 | a cache that is the tail of a history answers every window from the mark on as the history does if and only if nothing newer than the mark has been dropped, which the runs keep |
| WatcherRuns.PlaybackSeesFullHistory | src/watcher.ts:250-311 | in every run of a new watcher, with messages in time order and block times that increase: its own playback is never refused and sees the full history, and so does any other state's unless it is refused for starting before the mark |
| WatcherRuns.RunKeepsMark | src/watcher.ts:250-311 | in every run nothing newer than the mark has been dropped, and the mark is not ahead of the watcher's time, nor that ahead of its block's |
| WatcherRuns.RunEndsAsUnpruned | src/watcher.ts:143-311 | in every run the state is the one that live replay and playbacks from all messages ever received come to, as if nothing had been pruned |
| Playback.AddedAreTheUnindexed | src/state.js:373-386 | reported as added are, once each, the given addresses that were not indexed; so a rejoin is reported and a re-activation is not |
| Playback.RemovedWereTheMembers | src/state.js:388-401 | reported as removed are, once each, the given addresses that were members |
| Watchers.BisectFindFirstIndex | src/utils/bisectFindFirstIndex.js:9-22 | on up to 2^30 items the search ends at an index within as many turns as there are items, and if the items are sorted by the condition that is the point at which it turns true; on more items it may fail |
| Watchers.MidpointsAreRightExactlyUpTo | src/utils/bisectFindFirstIndex.js:14-14 | with 32-bit shifts the midpoints lie halfway if and only if there are at most 2^30 items |
| Watchers.ReplayEvent | src/utils/events.js:14-55 | each event takes the state object where the specification says, or to its error; what that is for commits, fees and members is in Replays |
| Watchers.ReplayOn | src/utils/events.js:6-11 | the merged events take effect in order, up to the first that fails |
| Watchers.WindowIsSlice | src/watcher.ts:287-289 | in a sorted cache the two searches cut out exactly the messages of the window |
| Watchers.MonoplasmaWatcher.OnMessage | src/watcher.ts:143-152 | a message joins the cache whenever it comes; the time order is kept exactly if it is not older than one before |
| Watchers.MonoplasmaWatcher.PlaybackUntilBlock | src/watcher.ts:250-299 | if messages came in time order the state ends as in a playback from the full history, which replays exactly the window's logs and messages (`Replays.PlaybackReplaysTheWindow`), or playback is refused because too much was pruned; in any case it stays valid and the block that the last commit in the range names is returned |
| Watchers.MonoplasmaWatcher.CachedBetween | src/watcher.ts:287-289 | a slice of the cache; if messages came in time order, exactly the cached messages after one time and up to another |
| Watchers.MonoplasmaWatcher.ChannelPruneCache | src/watcher.ts:306-311 | a head of the cache is dropped and the mark becomes the watcher's time; if messages came in time order, exactly the messages newer than that are kept, and the mark is right if and only if nothing newer had been dropped before |
| TreeBuilds.StepKeepsSharing | src/merkletree/index.js:134-153 | in every interleaving exactly the unsettled builds are in the task cache, each under its array |
| TreeBuilds.OneBuildPerArray | src/merkletree/index.js:128-131 | in every run no two builds of one array are unsettled at the same time |
| TreeBuilds.NoCallerIsStuck | src/merkletree/index.js:138-152 | in every run, while a caller waits, its build or the caller itself can go on |
| TreeBuilds.CallerIsServedExactlyWhen | src/merkletree/index.js:183-196 | in every run, without any rule for salts, a caller gets the tree it asked for, and a wrapper not updated meanwhile the right one, if and only if the build it joined was started with its salt |
| TreeBuilds.CallBuildsExactlyWhen | src/merkletree/index.js:134-193 | in every run a call starts a build if and only if the wrapper is dirty and every build of its array has settled; it waits if the wrapper is dirty and is served at once if it is clean |
| TreeBuilds.EveryCallerIsServed | src/merkletree/index.js:178-199 | if an array keeps its salt, in every interleaving a clean wrapper has the tree of its contents and salt, and every caller got the tree of those it captured |
| TreeBuilds.CleanCallIsServedAtOnce | src/merkletree/index.js:178-199 | if an array keeps its salt, in every interleaving a call of a clean wrapper gets the tree of its contents and salt at once and changes nothing else |
| TreeBuilds.NewIsCorrect | src/merkletree/index.js:160-163 | a new wrapper satisfies what every interleaving keeps |
| TreeBuilds.ReusedArrayGoesWrong | src/merkletree/index.js:134-153 | a run in which an array is used with a second salt, and the wrapper ends up clean with the tree of the first |
| TreeBuilds.SameTreeExactlyIfSameLeaves | src/merkletree/api.js:57-96 | two lists get the same array and index if and only if they have the same addresses, earnings and salt, in the same order |
| TreeBuilds.BaseIsRightExactlyWhen | src/merkletree/api.js:114-124 | in every run of the base class, when a build ends it is clean, with the right tree if and only if what was built has the leaves of the present contents and salt |
| TreeBuilds.QuietBaseIsRight | src/merkletree/api.js:108-124 | in every run of the base class in which no update comes during a build, a clean tree is that of the present contents and salt |
| TreeBuilds.UpdateDuringBuildGoesStale | src/merkletree/api.js:108-124 | a run in which an update during a build leaves the base class clean with the old tree, which no later call rebuilds |
| PublishQueue.StepKeepsOrder | src/operator.ts:94-109 | in every interleaving each task waits for the one before it, and settles after it |
| PublishQueue.RunKeepsOrder | src/operator.ts:94-109 | at the end of every run each task waits for the one before it, and has settled after it |
| PublishQueue.NeverTwoAtOnce | src/operator.ts:94-109 | in every run from an empty queue, with any calls and failures, no two publications are under way at once |
| PublishQueue.EveryStepCounts | src/operator.ts:99-106 | every step but a new call leaves less to do |
| PublishQueue.NeverStuck | src/operator.ts:99-106 | while something is in progress, some task can take its next step, not just fail, whatever failed before |
| PublishQueue.EndsDrained | src/operator.ts:99-106 | a run that only a new call can extend ends with nothing in progress and every task settled |
| PublishQueue.RunsExactlyIfPredecessorSucceeds | src/operator.ts:99-100 | in every run, once the task before has settled, a waiting task can run if and only if that one succeeded, and if it failed never has run |
| PublishQueue.CheckPassesExactlyIfNewer | src/operator.ts:117-126 | a publication passes its check if and only if its number is newer than the latest stored one, and fails otherwise |
| PublishQueue.PublishesWhatWasAsked | src/operator.ts:123-126 | in every run the number being published is the one asked for, or if none was the one observed at its check, and was newer then than the latest stored one |
| PublishQueue.FailurePropagates | src/operator.ts:99-100 | in every run one failure fails all tasks that wait in a row behind it |
| PublishQueue.SecondFailsUnstarted | src/operator.ts:99-106 | a run in which the second of two calls fails without having been started |
| PublishQueue.RunsAreBounded | src/operator.ts:94-109 | without new calls every run is at most as long as the work that was left, so the queue drains |

## Left out

- Keccak, ABI packing and ecrecover: a digest is the term that was hashed, with separate terms for values that are no hash, and recovery is any function from message and signature to an address. Collisions do not exist in the model.
- The token is an honest ERC-20 that refuses the zero address; a token that lies or calls back is not modelled.
- Owner change (`transferOwnership`, `claimOwnership`) and the OwnershipTransferred branch of `replayEvent`, which works on a field that the state class does not define.
- The system model assumes that the owner does not appoint another operator and that only the server uses the operator's key; VaultSpec assumes neither.
- The system model gives every Transfer event to the ledger at most once, late and in any order; replaying one twice, which a comment at src/operator.ts:162 suspects, would break solvency.
- One lifetime of the server: start-up from a stored block, whose replay of NewCommit events may store a block again with other members, is not part of the system model. `Playback` models the replay itself.
- In the system model transfers and messages reach the ledger one by one, in any order; that a playback is such a run is proved for the ledger (`Playback.ReplayIsLedgerRun`), but its two merges are not part of the system model's steps.
- Seconds and milliseconds: `start` passes seconds where playback stores milliseconds (src/watcher.ts:126-135, 294). Playback is modelled in one unit.
- MerkleTrees.BuildMerkleTree: requires at most 2^30 members; with more, the rounding before it never ends or refuses, as RoundUpToPowerOfTwo says.
- MerkleTrees.MerkleTree.GetContents: is atomic; the base class awaits the build, and what an update meanwhile does is modelled by the base class steps in TreeBuilds, on values.
- MonoplasmaStates.LeastUsed: if every hit count has reached the largest safe integer the code evicts the last entry; that is modelled, but counts are not rounded as floating point numbers would be.
- Watchers.BisectFindFirstIndex: on more than 2^30 items its contract promises nothing; midpoints can then fall outside the list.
- Watchers.MonoplasmaWatcher.PlaybackUntilBlock: requires a cache of at most 2^30 messages; if messages came out of time order it promises only a valid state and the block returned, CachedBetween only a slice of the cache, and ChannelPruneCache only that a head of it goes, since the binary searches assume the order.
- Calls to one tree cache are sequential; the awaits inside `getTreeAt` and `getProofAt` may interleave in the program.
- Contents arrays are not changed once they are handed to a tree build.
- Addresses are an opaque type and amounts are naturals: checksums, BigNumber conversion, the fee given as a number or string, and the JSON text are left out, as are the names `storeTimestamp` and `getMemberCount`, which would only add easy members.
- Timers, logging, network retries, process forking and the RPC of the tree worker, `minIntervalBlocks`, saveEvents, loadEvents and listBlockNumbers, which reads a directory field that is never set.
- src/server.js, src/validator.js, src/streamrChannel.js, the routers and scripts: input and output, or code without stable behaviour.
