/** What members and the contract can count on in every state that a run of the data union can reach. */
module Guarantees {
  import opened Wrappers
  import opened Members
  import opened Hashing
  import opened MerkleSpec
  import opened MerkleTrees
  import opened Sums
  import opened Blocks
  import opened FileStores
  import opened DataUnions
  import V = VaultSpec
  import L = Ledgers
  import Q = PublishQueue
  import P = Playback

  const TWO_255: nat := V.TWO_256 / 2

  // ----- reachable states

  /** A vault against which nothing was committed or proven yet. */
  ghost predicate IsNew(vault: V.Vault) {
    V.Accounted(vault) && vault.committedHash == map[] && vault.earnings == map[]
  }

  /** Some run leads from one state to the other. */
  ghost predicate Leads(s: System, ecrecover: V.Recover, end: System)
    requires Safe(s)
  {
    exists steps :: IsRun(s, ecrecover, steps) && After(s, ecrecover, steps) == end
  }

  /** Some run leads to the state from a new vault and a ledger of just the admin. */
  ghost predicate Reachable(s: System, ecrecover: V.Recover) {
    exists vault, admin, adminFee :: StartsAndLeads(vault, admin, adminFee, ecrecover, s)
  }

  ghost predicate StartsAndLeads(vault: V.Vault, admin: Address, adminFee: nat, ecrecover: V.Recover, s: System) {
    && IsNew(vault) && adminFee <= L.ONE
    && (StartIsSafe(vault, admin, adminFee); Leads(Start(vault, admin, adminFee), ecrecover, s))
  }

  lemma LeadsToSafe(s: System, ecrecover: V.Recover, end: System)
    requires Safe(s) && Leads(s, ecrecover, end)
    ensures Safe(end)
  {
    hide Safe, IsRun, After;
    var steps :| IsRun(s, ecrecover, steps) && After(s, ecrecover, steps) == end;
    EveryRunIsSafe(s, ecrecover, steps);
  }

  /** Whatever order things happen in, every state that is reached is safe. */
  lemma ReachableIsSafe(s: System, ecrecover: V.Recover)
    requires Reachable(s, ecrecover)
    ensures Safe(s)
  {
    hide Safe, Leads, Start, V.Accounted;
    var vault, admin, adminFee :| StartsAndLeads(vault, admin, adminFee, ecrecover, s);
    StartIsSafe(vault, admin, adminFee);
    LeadsToSafe(Start(vault, admin, adminFee), ecrecover, s);
  }

  // ----- solvency

  /** Some proof of the balance is correct against a committed root. */
  ghost predicate Provable(v: V.Vault, account: Address, balance: V.Word) {
    exists n, proof :: V.ProofIsCorrect(v, n, account, balance, proof) == Success(true)
  }

  ghost predicate InSnapshot(s: System, account: Address, balance: nat) {
    exists n :: n in s.snapshots && HasEntry(s.snapshots[n], account, balance)
  }

  lemma SnapshotIsSound(s: System, n: nat)
    requires Safe(s) && n in s.snapshots
    ensures IsSnapshot(s, n)
  {
  }

  lemma SafeIsBacked(s: System)
    requires Safe(s)
    ensures Backed(s) && Snapshotted(s) && ProvenFromSnapshots(s)
  {
  }

  /** An entry of a snapshot has grown since, if it has changed at all. */
  lemma SnapshotEntryIsInLedger(s: System, account: Address, balance: nat) returns (j: nat)
    requires Safe(s) && InSnapshot(s, account, balance)
    ensures j < |s.ledger.members| && s.ledger.members[j].address == account && balance <= s.ledger.members[j].earnings
  {
    hide Safe;
    var n :| n in s.snapshots && HasEntry(s.snapshots[n], account, balance);
    SnapshotIsSound(s, n);
    j :| 0 <= j < |s.snapshots[n]| && s.snapshots[n][j].address == account && s.snapshots[n][j].earnings == balance;
  }

  lemma SnapshotsAreCovered(s: System, best: map<Address, nat>)
    requires Safe(s) && forall a :: a in best && best[a] > 0 ==> InSnapshot(s, a, best[a])
    ensures Total(best) <= V.Balance(s.vault) + s.vault.totalWithdrawn
  {
    hide Safe, InSnapshot;
    forall a | a in best && best[a] > 0
      ensures exists j ::
                0 <= j < |s.ledger.members| && s.ledger.members[j].address == a
                  && best[a] <= s.ledger.members[j].earnings
    {
      var j := SnapshotEntryIsInLedger(s, a, best[a]);
    }
    TotalAtMostEntries(best, s.ledger.members);
    SafeIsBacked(s);
  }

  /** Solvency: whatever balances can be proven, one for each address and by whatever proofs, they sum to at most
      what the contract has and has paid out. */
  lemma Solvency(s: System, ecrecover: V.Recover, best: map<Address, V.Word>)
    requires Reachable(s, ecrecover) && forall a :: a in best ==> Provable(s.vault, a, best[a])
    ensures Total(best) <= V.Balance(s.vault) + s.vault.totalWithdrawn
  {
    hide Safe;
    ReachableIsSafe(s, ecrecover);
    SafeIsBacked(s);
    forall a | a in best ensures InSnapshot(s, a, best[a]) {
      var n, proof :| V.ProofIsCorrect(s.vault, n, a, best[a], proof) == Success(true);
      ProofsAreOfEntries(s, n, a, best[a], proof);
    }
    SnapshotsAreCovered(s, best);
  }

  /** The bank-run guard never stops a correct proof: it fails only if the block is frozen or the earnings are not
      higher. */
  lemma CorrectProofFailsOnlyIfFrozenOrOld(s: System, ecrecover: V.Recover, now: nat, blockNumber: nat,
                                           account: Address, balance: V.Word, proof: seq<Digest>)
    requires Reachable(s, ecrecover) && V.Balance(s.vault) + s.vault.totalWithdrawn < TWO_255
    requires V.ProofIsCorrect(s.vault, blockNumber, account, balance, proof) == Success(true)
    ensures V.ProveBalance(s.vault, now, blockNumber, account, balance, proof) ==
            if V.IsFrozen(s.vault, now, blockNumber) then Failure(V.Frozen)
            else if balance <= Get(s.vault.earnings, account) then Failure(V.OldEarnings)
            else Success(s.vault.(totalProven := s.vault.totalProven - Get(s.vault.earnings, account) + balance,
                                  earnings := s.vault.earnings[account := balance]))
  {
    ReachableIsSafe(s, ecrecover);
    CorrectProofSucceeds(s, now, blockNumber, account, balance, proof);
  }

  lemma CorrectProofSucceeds(s: System, now: nat, blockNumber: nat, account: Address, balance: V.Word,
                             proof: seq<Digest>)
    requires Safe(s) && V.Balance(s.vault) + s.vault.totalWithdrawn < TWO_255
    requires V.ProofIsCorrect(s.vault, blockNumber, account, balance, proof) == Success(true)
    ensures V.ProveBalance(s.vault, now, blockNumber, account, balance, proof) ==
            if V.IsFrozen(s.vault, now, blockNumber) then Failure(V.Frozen)
            else if balance <= Get(s.vault.earnings, account) then Failure(V.OldEarnings)
            else Success(s.vault.(totalProven := s.vault.totalProven - Get(s.vault.earnings, account) + balance,
                                  earnings := s.vault.earnings[account := balance]))
  {
    hide Safe, Backed, Snapshotted, ProvenFromSnapshots, V.ProofIsCorrect, V.OnVerifySuccess, V.Accounted, V.IsFrozen;
    SafeIsBacked(s);
    ProofsAreOfEntries(s, blockNumber, account, balance, proof);
    ProvenStayCovered(s, account, balance);
    GuardLetsThrough(s.vault, now, blockNumber, account, balance);
  }

  lemma ProvenStayCovered(s: System, account: Address, balance: nat)
    requires Safe(s) && InSnapshot(s, account, balance)
    ensures V.Accounted(s.vault)
    ensures s.vault.totalProven - Get(s.vault.earnings, account) + balance <= V.Balance(s.vault) +
            s.vault.totalWithdrawn
  {
    hide Safe, V.Accounted;
    SafeIsBacked(s);
    var best := s.vault.earnings[account := balance];
    forall a | a in best && best[a] > 0 ensures InSnapshot(s, a, best[a]) {
      if a != account {
        assert Get(s.vault.earnings, a) > 0;
      }
    }
    SnapshotsAreCovered(s, best);
    TotalUpdated(s.vault.earnings, account, balance);
    TotalProvenIs(s.vault);
  }

  lemma TotalProvenIs(v: V.Vault)
    requires V.Accounted(v)
    ensures v.totalProven == Total(v.earnings)
  {
  }

  lemma GuardLetsThrough(v: V.Vault, now: nat, blockNumber: nat, account: Address, balance: V.Word)
    requires V.Accounted(v)
    requires v.totalProven - Get(v.earnings, account) + balance <= V.Balance(v) + v.totalWithdrawn < TWO_255
    ensures V.OnVerifySuccess(v, now, blockNumber, account, balance) ==
            if V.IsFrozen(v, now, blockNumber) then Failure(V.Frozen)
            else if balance <= Get(v.earnings, account) then Failure(V.OldEarnings)
            else Success(v.(totalProven := v.totalProven - Get(v.earnings, account) + balance,
                earnings := v.earnings[account := balance]))
  {
    V.WithdrawnAtMostProven(v, account);
    TotalMonotone(v.withdrawn, v.earnings);
    V.SafeAddIs(v.totalProven, balance);
  }

  // ----- payslips

  lemma PathIsShort(contents: seq<Member>, salt: nat, j: nat)
    requires j < |contents| <= MAX_ROUNDED
    ensures |MemberPath(contents, salt, j)| <= 30
  {
    hide MemberPath, CeilLog2, Pow2;
    Completeness(contents, salt, j);
    Pow2Of30();
    CeilLog2AtMost(LeafRoom(|contents|), 30);
  }

  /** Against a committed root, an entry's path proves a balance exactly if it is the balance of the entry. */
  lemma EntryIsProvable(s: System, n: nat, j: nat, balance: V.Word)
    requires Safe(s) && n in s.snapshots && j < |s.snapshots[n]|
    ensures V.ProofIsCorrect(s.vault, n, s.snapshots[n][j].address, balance, MemberPath(s.snapshots[n], n, j)) ==
            Success(balance == s.snapshots[n][j].earnings)
  {
    hide Safe, Root, MemberPath, L.Extends;
    SnapshotIsSound(s, n);
    var entry, path := s.snapshots[n][j], MemberPath(s.snapshots[n], n, j);
    Completeness(s.snapshots[n], n, j);
    PathIsShort(s.snapshots[n], n, j);
    if Fold(LeafHash(entry.address, balance, n), path) == Fold(LeafHash(entry.address, entry.earnings, n), path) {
      FoldIsInjective(LeafHash(entry.address, balance, n), LeafHash(entry.address, entry.earnings, n), path);
    }
  }

  /** What can be proven against a block is exactly what was in the snapshot committed for it. */
  lemma ProvableAreTheEntries(s: System, ecrecover: V.Recover, n: nat, account: Address, balance: V.Word)
    requires Reachable(s, ecrecover)
    ensures (exists proof :: V.ProofIsCorrect(s.vault, n, account, balance, proof) == Success(true))
       <==> n in s.snapshots && HasEntry(s.snapshots[n], account, balance)
  {
    hide Safe, V.ProofIsCorrect, MemberPath;
    ReachableIsSafe(s, ecrecover);
    SafeIsBacked(s);
    if n in s.snapshots && HasEntry(s.snapshots[n], account, balance) {
      var members := s.snapshots[n];
      var j :| 0 <= j < |members| && members[j].address == account && members[j].earnings == balance;
      EntryIsProvable(s, n, j, balance);
    }
    forall proof | V.ProofIsCorrect(s.vault, n, account, balance, proof) == Success(true)
      ensures n in s.snapshots && HasEntry(s.snapshots[n], account, balance)
    {
      ProofsAreOfEntries(s, n, account, balance, proof);
    }
  }

  lemma FiledIsSound(s: System, n: nat)
    requires Safe(s) && n in s.files.blocks
    ensures BlockSound(s, n) && s.files.blocks[n].blockNumber == n
  {
  }

  lemma StepKeepsFiled(s: System, ecrecover: V.Recover, step: Step, n: nat)
    requires Safe(s) && Can(s, step) && L.Valid(s.ledger) && n in s.files.blocks
    ensures n in Do(s, ecrecover, step).files.blocks && Do(s, ecrecover, step).files.blocks[n] == s.files.blocks[n]
  {
    hide Safe, L.Valid, SortDescending, V.CommitBlock;
    if step.StorePublished? {
      TaskIsSound(s, step.task);
    }
  }

  lemma {:induction false} RunKeepsFiled(s: System, ecrecover: V.Recover, steps: seq<Step>, n: nat)
    requires Safe(s) && IsRun(s, ecrecover, steps) && n in s.files.blocks
    ensures n in After(s, ecrecover, steps).files.blocks
    ensures After(s, ecrecover, steps).files.blocks[n] == s.files.blocks[n]
    decreases |steps|
  {
    hide Safe, Can, Do;
    if steps != [] {
      LedgerIsValid(s);
      StepKeepsFiled(s, ecrecover, steps[0], n);
      StepIsSafe(s, ecrecover, steps[0]);
      RunKeepsFiled(Do(s, ecrecover, steps[0]), ecrecover, steps[1..], n);
    }
  }

  /** A stored block is never lost or changed, and is what is served under its number. */
  lemma FiledStays(s: System, ecrecover: V.Recover, end: System, n: nat)
    requires Reachable(s, ecrecover) && (ReachableIsSafe(s, ecrecover); Leads(s, ecrecover, end))
    requires n in s.files.blocks
    ensures n in end.files.blocks && end.files.blocks[n] == s.files.blocks[n]
    ensures Published(end.listed, end.files.blocks, n) == Some(s.files.blocks[n])
  {
    hide Safe, Reachable, IsRun, After;
    ReachableIsSafe(s, ecrecover);
    var steps :| IsRun(s, ecrecover, steps) && After(s, ecrecover, steps) == end;
    RunKeepsFiled(s, ecrecover, steps, n);
    LeadsToSafe(s, ecrecover, end);
    FiledIsPublished(end, n);
  }

  lemma FiledIsPublished(s: System, n: nat)
    requires Safe(s) && n in s.files.blocks
    ensures Published(s.listed, s.files.blocks, n) == Some(s.files.blocks[n])
  {
    FindIsFiled(s.listed, s.files.blocks, n);
  }

  /** A payslip from a stored block stays good whatever happens after: the block is served unchanged, and the
      contract accepts the path served for an address as proof of any of its entries that has the earnings of the
      last one, and of no other. */
  lemma PayslipStaysGood(s: System, ecrecover: V.Recover, end: System, n: nat, i: nat, last: nat)
    requires Reachable(s, ecrecover) && (ReachableIsSafe(s, ecrecover); Leads(s, ecrecover, end))
    requires n in s.files.blocks
    requires var members := s.files.blocks[n].members;
             && i <= last && LastWithItsAddress(members, last) && members[i].address == members[last].address
             && members[i].earnings < V.TWO_256
    ensures Published(end.listed, end.files.blocks, n) == Some(s.files.blocks[n])
    ensures var members := s.files.blocks[n].members;
            && ServedPath(members, n, members[i].address).Some?
            && V.ProofIsCorrect(end.vault, n, members[i].address, members[i].earnings,
                               ServedPath(members, n, members[i].address).value) ==
               Success(members[i].earnings == members[last].earnings)
  {
    hide Safe, Leads, Reachable, V.ProofIsCorrect, ServedPath, MemberPath;
    var members := s.files.blocks[n].members;
    FiledStays(s, ecrecover, end, n);
    ReachableIsSafe(s, ecrecover);
    LeadsToSafe(s, ecrecover, end);
    FiledIsSound(end, n);
    ServedPathIsOfLastEntry(members, n, last);
    EntryIsProvable(end, n, last, members[i].earnings);
  }

  ghost predicate DistinctAddresses(members: seq<Member>) {
    forall i, j :: 0 <= i < j < |members| ==> members[i].address != members[j].address
  }

  /** Payslip acceptance: if nobody has left and rejoined, every payslip proves what it says, for ever. */
  lemma EveryPayslipIsAccepted(s: System, ecrecover: V.Recover, end: System, n: nat, i: nat)
    requires Reachable(s, ecrecover) && (ReachableIsSafe(s, ecrecover); Leads(s, ecrecover, end))
    requires n in s.files.blocks && DistinctAddresses(s.files.blocks[n].members)
    requires i < |s.files.blocks[n].members| && s.files.blocks[n].members[i].earnings < V.TWO_256
    ensures var members := s.files.blocks[n].members;
            && Published(end.listed, end.files.blocks, n) == Some(s.files.blocks[n])
            && ServedPath(members, n, members[i].address).Some?
            && V.ProofIsCorrect(end.vault, n, members[i].address, members[i].earnings,
                               ServedPath(members, n, members[i].address).value) ==
               Success(true)
  {
    hide Safe, Leads, Reachable, V.ProofIsCorrect, ServedPath;
    PayslipStaysGood(s, ecrecover, end, n, i, i);
  }

  // ----- freezing and payouts

  /** The contract's freeze deadline of a block fits in its word. */
  ghost predicate NoWraparound(s: System, n: nat) {
    V.TimestampAt(s.vault, n) + s.vault.blockFreezeSeconds < V.TWO_256
  }

  lemma ListedIsSound(s: System, i: nat)
    requires Safe(s) && i < |s.listed|
    ensures var b := s.listed[i];
            && b.blockNumber in s.files.blocks && s.files.blocks[b.blockNumber] == b
            && b.timestamp == V.TimestampAt(s.vault, b.blockNumber)
            && Descending(s.listed)
  {
    assert s.listed[i].blockNumber in s.files.blocks;
    assert BlockSound(s, s.listed[i].blockNumber);
  }

  lemma ListedFreezeAgrees(s: System, i: nat, now: nat)
    requires Safe(s) && i < |s.listed| && NoWraparound(s, s.listed[i].blockNumber)
    ensures IsWithdrawable(s.listed[i], now, s.vault.blockFreezeSeconds) <==>
            !V.IsFrozen(s.vault, now, s.listed[i].blockNumber)
  {
    hide Safe, Descending;
    ListedIsSound(s, i);
  }

  /** The block that members are offered for withdrawing is the newest listed one that the contract no longer freezes;
      none is offered exactly if the contract freezes all that are listed. */
  lemma OfferedIsNewestUnfrozen(s: System, ecrecover: V.Recover, now: nat)
    requires Reachable(s, ecrecover) && forall i :: 0 <= i < |s.listed| ==> NoWraparound(s, s.listed[i].blockNumber)
    ensures match LatestWithdrawable(s.listed, now, s.vault.blockFreezeSeconds)
            case Some(b) =>
              && b in s.listed && !V.IsFrozen(s.vault, now, b.blockNumber)
              && forall c :: c in s.listed && c.blockNumber > b.blockNumber ==> V.IsFrozen(s.vault, now, c.blockNumber)
            case None => forall c :: c in s.listed ==> V.IsFrozen(s.vault, now, c.blockNumber)
  {
    hide Safe, Reachable, IsWithdrawable, V.IsFrozen;
    ReachableIsSafe(s, ecrecover);
    forall i | 0 <= i < |s.listed|
      ensures IsWithdrawable(s.listed[i], now, s.vault.blockFreezeSeconds) <==>
              !V.IsFrozen(s.vault, now, s.listed[i].blockNumber)
    {
      ListedFreezeAgrees(s, i, now);
    }
    if s.listed != [] {
      ListedIsSound(s, 0);
    }
  }

  /** Payout: with the payslip from the offered block, anyone can have a member's new earnings paid out to it, in one
      transaction that succeeds exactly if they are higher than what was proven before and the member has an address to
      send to. */
  lemma PayoutSucceedsExactlyWhen(s: System, ecrecover: V.Recover, sender: Address, now: nat, last: nat)
    requires Reachable(s, ecrecover) && V.Balance(s.vault) + s.vault.totalWithdrawn < TWO_255
    requires LatestWithdrawable(s.listed, now, s.vault.blockFreezeSeconds).Some?
    requires var b := LatestWithdrawable(s.listed, now, s.vault.blockFreezeSeconds).value;
             && NoWraparound(s, b.blockNumber) && LastWithItsAddress(b.members, last)
             && b.members[last].earnings < V.TWO_256
    ensures var b := LatestWithdrawable(s.listed, now, s.vault.blockFreezeSeconds).value;
            var (account, e) := (b.members[last].address, b.members[last].earnings);
            && ServedPath(b.members, b.blockNumber, account).Some?
            && var tx := V.Tx(sender, now, V.WithdrawAllFor(account, b.blockNumber, e,
                                                         ServedPath(b.members, b.blockNumber, account).value));
            && (V.Execute(s.vault, ecrecover, tx).Success? <==>
               e > Get(s.vault.earnings, account) && account != V.ZERO_ADDRESS)
            && (V.Execute(s.vault, ecrecover, tx).Success? ==>
               PaidOut(s.vault, V.Apply(s.vault, ecrecover, tx), account, e))
  {
    hide Safe, Snapshotted, ProvenFromSnapshots, V.Accounted, ServedPath, MemberPath, V.ProofIsCorrect, V.Execute,
        V.ProveBalance, Reachable;
    ReachableIsSafe(s, ecrecover);
    SafeIsBacked(s);
    var i := FirstWithdrawable(s.listed, now, s.vault.blockFreezeSeconds);
    var b := s.listed[i];
    ListedIsSound(s, i);
    ListedFreezeAgrees(s, i, now);
    OfferedProofIsCorrect(s, b, last);
    var account, e: V.Word := b.members[last].address, b.members[last].earnings;
    var path := ServedPath(b.members, b.blockNumber, account).value;
    CorrectProofSucceeds(s, now, b.blockNumber, account, e, path);
    PaysWhatWasProven(s.vault, ecrecover, sender, now, b.blockNumber, account, e, path);
  }

  lemma OfferedProofIsCorrect(s: System, b: Block, last: nat)
    requires Safe(s) && b.blockNumber in s.files.blocks && s.files.blocks[b.blockNumber] == b
    requires LastWithItsAddress(b.members, last) && b.members[last].earnings < V.TWO_256
    ensures ServedPath(b.members, b.blockNumber, b.members[last].address).Some?
    ensures V.ProofIsCorrect(s.vault, b.blockNumber, b.members[last].address, b.members[last].earnings,
                             ServedPath(b.members, b.blockNumber, b.members[last].address).value) == Success(true)
  {
    hide Safe, ServedPath, MemberPath, V.ProofIsCorrect;
    FiledIsSound(s, b.blockNumber);
    ServedPathIsOfLastEntry(b.members, b.blockNumber, last);
    EntryIsProvable(s, b.blockNumber, last, b.members[last].earnings);
  }

  /** The account has got all of its earnings, in tokens; if it is the vault itself, it has sent them to itself. */
  ghost predicate PaidOut(v: V.Vault, w: V.Vault, account: Address, e: nat) {
    && Get(w.earnings, account) == Get(w.withdrawn, account) == e
    && (account != v.self ==>
          && Get(w.tokens, account) == Get(v.tokens, account) + e - Get(v.withdrawn, account)
          && V.Balance(w) == V.Balance(v) - (e - Get(v.withdrawn, account)))
    && (account == v.self ==> V.Balance(w) == V.Balance(v))
  }

  lemma PaysWhatWasProven(v: V.Vault, ecrecover: V.Recover, sender: Address, now: nat, n: nat, account: Address,
                          e: V.Word, path: seq<Digest>)
    requires V.Accounted(v)
    requires V.ProveBalance(v, now, n, account, e, path) ==
             if e <= Get(v.earnings, account) then Failure(V.OldEarnings)
             else Success(v.(totalProven := v.totalProven - Get(v.earnings, account) + e,
                                   earnings := v.earnings[account := e]))
    ensures var tx := V.Tx(sender, now, V.WithdrawAllFor(account, n, e, path));
            && (V.Execute(v, ecrecover, tx).Success? <==> e > Get(v.earnings, account) && account != V.ZERO_ADDRESS)
            && (V.Execute(v, ecrecover, tx).Success? ==> PaidOut(v, V.Apply(v, ecrecover, tx), account, e))
  {
    hide V.Accounted, V.ProveBalance, V.DoWithdraw;
    var tx := V.Tx(sender, now, V.WithdrawAllFor(account, n, e, path));
    assert V.Execute(v, ecrecover, tx) == V.ProveAndWithdrawAll(v, now, account, account, n, e, path);
    if e > Get(v.earnings, account) {
      V.ProvingOnlyProves(v, now, n, account, e, path);
      WithdrawnAreProven(v, account);
      PaysTheGap(v, V.ProveBalance(v, now, n, account, e, path).value, account, e);
    }
  }

  lemma WithdrawnAreProven(v: V.Vault, account: Address)
    requires V.Accounted(v)
    ensures Get(v.withdrawn, account) <= Get(v.earnings, account)
  {
  }

  lemma PaysTheGap(v: V.Vault, proven: V.Vault, account: Address, e: V.Word)
    requires V.Accounted(proven)
    requires proven == v.(totalProven := proven.totalProven, earnings := v.earnings[account := e])
    requires Get(v.withdrawn, account) < e
    ensures var r := V.DoWithdraw(proven, account, account, e - Get(v.withdrawn, account));
            && (r.Success? <==> account != V.ZERO_ADDRESS)
            && (r.Success? ==> PaidOut(v, r.value, account, e))
  {
    hide V.Accounted, V.DoWithdraw;
    V.WithdrawSucceedsExactlyWhen(proven, account, account, e - Get(v.withdrawn, account));
    if account != V.ZERO_ADDRESS {
      PaymentKeepsEarnings(proven, account, e - Get(v.withdrawn, account));
    }
  }

  lemma PaymentKeepsEarnings(v: V.Vault, account: Address, amount: V.Word)
    requires V.DoWithdraw(v, account, account, amount).Success?
    ensures V.DoWithdraw(v, account, account, amount).value.earnings == v.earnings
  {
    V.PayingKeepsCommits(v, account, account, amount);
  }

  // ----- publishing

  /** A block that gets stored is newer than all that were; the store's link and the list then lead to it. */
  lemma StoredNumbersIncrease(s: System, ecrecover: V.Recover, task: nat)
    requires Reachable(s, ecrecover) && Can(s, StorePublished(task))
    ensures L.Valid(s.ledger)
    ensures var next := Do(s, ecrecover, StorePublished(task));
            next.files != s.files ==>
              var n := s.queue.tasks[task].stage.blockNumber;
              && (forall m :: m in s.files.blocks ==> m < n)
              && next.files.blocks.Keys == s.files.blocks.Keys + {n}
              && LatestBlock(next.files) == Latest(next.listed) == Some(next.files.blocks[n])
              && n in s.snapshots && next.files.blocks[n].members == s.snapshots[n]
  {
    hide Safe, Q.Orderly, Save, SortDescending, L.Valid, L.Extends;
    hide Reachable;
    ReachableIsSafe(s, ecrecover);
    LedgerIsValid(s);
    var stage := s.queue.tasks[task].stage;
    TaskIsSound(s, task);
    FilesAreSound(s);
    var block := P.BlockOf(stage.state, stage.blockNumber, V.TimestampAt(s.vault, stage.blockNumber));
    StoredGoesFirst([], block);
    assert [block] + [] == [block];
    NewestIsListedFirst(s.files, s.listed, block);
  }

  /** A commit succeeds exactly if there are members and the number has no root yet; otherwise the task fails, and
      nothing else changes. */
  lemma CommitSucceedsExactlyWhen(s: System, ecrecover: V.Recover, task: nat, now: nat)
    requires Safe(s) && Can(s, CommitRoot(task, now))
    ensures L.Valid(s.ledger)
    ensures var stage, next := s.queue.tasks[task].stage, Do(s, ecrecover, CommitRoot(task, now));
            && |next.queue.tasks| == |s.queue.tasks|
            && if stage.state.members != [] && V.HashAt(s.vault, stage.blockNumber) == Zero then
                 && next.queue.tasks[task].stage == Q.Committed(stage.state, stage.blockNumber)
                 && V.HashAt(next.vault, stage.blockNumber) == Root(stage.state.members, stage.blockNumber)
                 && V.TimestampAt(next.vault, stage.blockNumber) == now
               else next.queue.tasks[task].stage == Q.Ended(false) && next == s.(queue := next.queue)
  {
    hide Safe, Root, L.Valid;
    LedgerIsValid(s);
  }

  /** A committed block is stored exactly if its number and its time in the contract are safe integers above zero; the
      task has succeeded exactly then, and otherwise nothing is stored or listed. */
  lemma PublicationSucceedsExactlyIfStored(s: System, ecrecover: V.Recover, task: nat)
    requires Safe(s) && Can(s, StorePublished(task))
    ensures L.Valid(s.ledger)
    ensures var n, next := s.queue.tasks[task].stage.blockNumber, Do(s, ecrecover, StorePublished(task));
            var ok := 1 <= n <= MAX_SAFE_INTEGER && 1 <= V.TimestampAt(s.vault, n) <= MAX_SAFE_INTEGER;
            && |next.queue.tasks| == |s.queue.tasks|
            && next.queue.tasks[task].stage == Q.Ended(ok)
            && n !in s.files.blocks && (n in next.files.blocks <==> ok)
            && (!ok ==> next == s.(queue := next.queue))
  {
    hide Safe, L.Valid, L.Extends, SortDescending;
    LedgerIsValid(s);
    TaskIsSound(s, task);
  }

  lemma FilesAreSound(s: System)
    requires Safe(s)
    ensures Consistent(s.files) && Descending(s.listed) && AllFiled(s.listed, s.files.blocks)
  {
  }

  /** A task at the end of the queue. */
  ghost predicate LastIsAt(s: System, t: nat, stage: Q.Stage) {
    |s.queue.tasks| == t + 1 && s.queue.tasks[t].stage == stage
  }

  lemma OneStep(s: System, ecrecover: V.Recover, step: Step) returns (next: System)
    requires Safe(s) && Can(s, step)
    ensures L.Valid(s.ledger) && next == Do(s, ecrecover, step) && Safe(next)
  {
    hide Safe, Can, Do;
    LedgerIsValid(s);
    StepIsSafe(s, ecrecover, step);
    next := Do(s, ecrecover, step);
  }

  lemma RunOf(s: System, ecrecover: V.Recover, step: Step, rest: seq<Step>)
    requires Safe(s) && Can(s, step) && L.Valid(s.ledger) && Safe(Do(s, ecrecover, step))
    requires IsRun(Do(s, ecrecover, step), ecrecover, rest)
    ensures IsRun(s, ecrecover, [step] + rest)
    ensures After(s, ecrecover, [step] + rest) == After(Do(s, ecrecover, step), ecrecover, rest)
  {
    hide Safe, Can, Do;
    assert ([step] + rest)[1..] == rest;
  }

  lemma NoSteps(s: System, ecrecover: V.Recover)
    requires Safe(s)
    ensures IsRun(s, ecrecover, []) && After(s, ecrecover, []) == s
  {
    hide Safe;
  }

  lemma AskStep(s: System, ecrecover: V.Recover, n: nat) returns (next: System)
    requires Safe(s) && s.queue.inProgress.None?
    ensures Can(s, Publish(Q.Enqueue(n))) && L.Valid(s.ledger) && next == Do(s, ecrecover, Publish(Q.Enqueue(n)))
    ensures Safe(next) && next == s.(queue := next.queue)
    ensures LastIsAt(next, |s.queue.tasks|, Q.Queued)
    ensures next.queue.tasks[|s.queue.tasks|] == Q.Task(n, None, Q.Queued)
  {
    hide Safe, L.Valid;
    next := OneStep(s, ecrecover, Publish(Q.Enqueue(n)));
  }

  lemma StartStep(s: System, ecrecover: V.Recover, t: nat, n: nat) returns (next: System)
    requires Safe(s) && LastIsAt(s, t, Q.Queued) && s.queue.tasks[t] == Q.Task(n, None, Q.Queued)
    ensures var step := Publish(Q.Start(t, s.ledger));
            Can(s, step) && L.Valid(s.ledger) && next == Do(s, ecrecover, step)
    ensures Safe(next) && next == s.(queue := next.queue)
    ensures LastIsAt(next, t, Q.Cloned(L.Clone(s.ledger))) && next.queue.tasks[t].requested == n
  {
    hide Safe, L.Valid, L.Clone;
    next := OneStep(s, ecrecover, Publish(Q.Start(t, s.ledger)));
  }

  lemma CheckStep(s: System, ecrecover: V.Recover, t: nat, state: L.Ledger, n: nat) returns (next: System)
    requires Safe(s) && LastIsAt(s, t, Q.Cloned(state))
    requires s.queue.tasks[t].requested == n || s.queue.tasks[t].requested == 0
    requires forall m :: m in s.files.blocks ==> m < n
    ensures var step := Publish(Q.Check(t, s.files.latest, n));
            Can(s, step) && L.Valid(s.ledger) && next == Do(s, ecrecover, step)
    ensures Safe(next) && next == s.(queue := next.queue)
    ensures LastIsAt(next, t, Q.Checked(state, n))
  {
    hide Safe, L.Valid;
    FilesAreSound(s);
    next := OneStep(s, ecrecover, Publish(Q.Check(t, s.files.latest, n)));
  }

  lemma CommitStep(s: System, ecrecover: V.Recover, t: nat, state: L.Ledger, n: nat, now: nat) returns (next: System)
    requires Safe(s) && LastIsAt(s, t, Q.Checked(state, n)) && 0 < |state.members| <= MAX_ROUNDED
             && V.HashAt(s.vault, n) == Zero
    ensures Can(s, CommitRoot(t, now)) && L.Valid(s.ledger) && next == Do(s, ecrecover, CommitRoot(t, now))
            && Safe(next)
    ensures LastIsAt(next, t, Q.Committed(state, n)) && next.files == s.files && V.TimestampAt(next.vault, n) == now
    ensures V.HashAt(next.vault, n) == Root(state.members, n)
  {
    hide Safe, Root, L.Valid;
    next := OneStep(s, ecrecover, CommitRoot(t, now));
  }

  lemma StoreStep(s: System, ecrecover: V.Recover, t: nat, state: L.Ledger, n: nat) returns (next: System)
    requires Safe(s) && LastIsAt(s, t, Q.Committed(state, n))
    requires 1 <= n <= MAX_SAFE_INTEGER && 1 <= V.TimestampAt(s.vault, n) <= MAX_SAFE_INTEGER
    ensures Can(s, StorePublished(t)) && L.Valid(s.ledger) && next == Do(s, ecrecover, StorePublished(t)) && Safe(next)
    ensures next.vault == s.vault && n in next.files.blocks && next.files.blocks[n] ==
            P.BlockOf(state, n, V.TimestampAt(s.vault, n))
  {
    hide Safe, L.Valid, SortDescending;
    next := OneStep(s, ecrecover, StorePublished(t));
  }

  /** Publishing publishes: when nothing is in progress and the block is new, there is a run that commits the root
      of the present ledger and stores it, be it the block that was asked for or, if none was, the one observed. */
  lemma PublishingStoresTheLedger(s: System, ecrecover: V.Recover, requested: nat, n: nat, now: nat)
    returns (end: System)
    requires requested == n || requested == 0
    requires Reachable(s, ecrecover) && s.queue.inProgress.None? && 0 < |s.ledger.members| <= MAX_ROUNDED
    requires 1 <= n <= MAX_SAFE_INTEGER && 1 <= now <= MAX_SAFE_INTEGER
    requires V.HashAt(s.vault, n) == Zero && forall m :: m in s.files.blocks ==> m < n
    ensures Safe(s) && Leads(s, ecrecover, end)
    ensures V.HashAt(end.vault, n) == Root(s.ledger.members, n)
    ensures n in end.files.blocks && end.files.blocks[n].members == s.ledger.members
            && end.files.blocks[n].timestamp == now
  {
    hide Safe, Reachable, Root, L.Valid, L.Clone, IsRun, After;
    ReachableIsSafe(s, ecrecover);
    LedgerIsValid(s);
    FilesAreSound(s);
    L.CloneListsTheSame(s.ledger);
    hide Can, Do;
    var t, state := |s.queue.tasks|, L.Clone(s.ledger);
    var asked, started, checked := Publish(Q.Enqueue(requested)), Publish(Q.Start(t, s.ledger)),
        Publish(Q.Check(t, s.files.latest, n));
    var s1 := AskStep(s, ecrecover, requested);
    var s2 := StartStep(s1, ecrecover, t, requested);
    var s3 := CheckStep(s2, ecrecover, t, state, n);
    var s4 := CommitStep(s3, ecrecover, t, state, n, now);
    end := StoreStep(s4, ecrecover, t, state, n);
    NoSteps(end, ecrecover);
    var last := [StorePublished(t)] + [];
    RunOf(s4, ecrecover, StorePublished(t), []);
    RunOf(s3, ecrecover, CommitRoot(t, now), last);
    RunOf(s2, ecrecover, checked, [CommitRoot(t, now)] + last);
    RunOf(s1, ecrecover, started, [checked] + ([CommitRoot(t, now)] + last));
    RunOf(s, ecrecover, asked, [started] + ([checked] + ([CommitRoot(t, now)] + last)));
  }
}
