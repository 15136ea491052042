/**
 The whole data union as one state machine: anyone's transactions to the vault and its token, the events and
 messages that reach the ledger when they like, and the operator's publishing, in any interleaving.
 */
module DataUnions {
  import opened Wrappers
  import opened Members
  import opened Hashing
  import opened MerkleSpec
  import opened MerkleTrees
  import opened Sums
  import opened Blocks
  import opened FileStores
  import V = VaultSpec
  import L = Ledgers
  import Q = PublishQueue
  import P = Playback

  /** `inbox` holds the received amounts that have not reached the ledger yet, `snapshots` the member list behind
      each committed root. */
  datatype System = System(
    vault: V.Vault,
    ledger: L.Ledger,
    inbox: seq<nat>,
    queue: Q.Queue,
    files: Files,
    listed: seq<Block>,
    snapshots: map<nat, seq<Member>>)

  datatype Step =
    | Transact(tx: V.Tx)
    | ReplayTransfer(index: nat)
    | ReplayMessage(op: L.Op)
    | Publish(step: Q.Step)
    | CommitRoot(task: nat, now: nat)
    | StorePublished(task: nat)
    | AskWithdrawable(now: nat)

  /** Before anything has happened: a new vault, which may hold tokens already, and a ledger of just the admin. */
  function Start(vault: V.Vault, admin: Address, adminFee: nat): System {
    System(vault, L.New([], admin, adminFee, 0), [], Q.EMPTY, Files(map[], None), [], map[])
  }

  /** Only the server uses the operator's key to commit, and the owner does not appoint another operator. */
  predicate Can(s: System, step: Step) {
    match step
    case Transact(tx) =>
      && tx.sender != s.vault.self
      && (tx.call.Commit? ==> tx.sender != s.vault.operator)
      && (tx.call.SetOperator? ==> tx.sender != s.vault.owner)
    case ReplayTransfer(i) => i < |s.inbox|
    case ReplayMessage(op) => !op.Revenue?
    case Publish(q) =>
      && Q.Can(s.queue, q) && !q.Commit? && !q.StoreBlock?
      && (q.Start? ==> q.live == s.ledger)
      && (q.Check? ==> q.latest == s.files.latest)
    case CommitRoot(t, _) => Q.Can(s.queue, Q.Commit(t)) && |s.queue.tasks[t].stage.state.members| <= MAX_ROUNDED
    case StorePublished(t) => Q.Can(s.queue, Q.StoreBlock(t))
    case AskWithdrawable(_) => true
  }

  function Do(s: System, ecrecover: V.Recover, step: Step): System
    requires Can(s, step) && L.Valid(s.ledger)
  {
    match step
    case Transact(tx) =>
      var received := V.ReceivedBy(s.vault, ecrecover, tx);
      s.(vault := V.Apply(s.vault, ecrecover, tx), inbox := if received > 0 then s.inbox + [received] else s.inbox)
    case ReplayTransfer(i) => s.(ledger := L.AddRevenue(s.ledger, s.inbox[i]), inbox := s.inbox[..i] + s.inbox[i + 1..])
    case ReplayMessage(op) => s.(ledger := L.Apply(s.ledger, op))
    case Publish(q) => s.(queue := Q.Do(s.queue, q))
    case CommitRoot(t, now) => DoCommit(s, t, now)
    case StorePublished(t) => DoStore(s, t)
    case AskWithdrawable(now) => s.(listed := Truncate(s.listed, now, s.vault.blockFreezeSeconds))
  }

  /** Commits the root of the cloned member list; if the contract refuses, the task fails. */
  function DoCommit(s: System, t: nat, now: nat): System
    requires Q.Can(s.queue, Q.Commit(t))
  {
    var stage := s.queue.tasks[t].stage;
    if stage.state.members == [] then s.(queue := Q.Do(s.queue, Q.Fail(t)))
    else
      var root := Root(stage.state.members, stage.blockNumber);
      var tx := V.Tx(s.vault.operator, now, V.Commit(stage.blockNumber, root));
      match V.CommitBlock(s.vault, tx, stage.blockNumber, root)
      case Failure(_) => s.(queue := Q.Do(s.queue, Q.Fail(t)))
      case Success(v) =>
        s.(vault := v, snapshots := s.snapshots[stage.blockNumber := stage.state.members],
            queue := Q.Do(s.queue, Q.Commit(t)))
  }

  /** Stores the clone under the contract's timestamp, and lists the block with the live state. */
  function DoStore(s: System, t: nat): System
    requires Q.Can(s.queue, Q.StoreBlock(t))
  {
    var stage := s.queue.tasks[t].stage;
    var clone := P.Plasma(stage.state, [], s.files, 0, 0);
    match P.StoreBlock(clone, stage.blockNumber, V.TimestampAt(s.vault, stage.blockNumber))
    case Failure(_) => s.(queue := Q.Do(s.queue, Q.Fail(t)))
    case Success(stored) =>
      s.(files := stored.files,
         listed := SortDescending(stored.latestBlocks + s.listed),
         queue := Q.Do(s.queue, Q.StoreBlock(t)))
  }

  // ----- what every interleaving keeps

  function SumOf(amounts: seq<nat>): nat {
    if amounts == [] then 0 else amounts[0] + SumOf(amounts[1..])
  }

  lemma {:induction false} SumOfConcat(a: seq<nat>, b: seq<nat>)
    ensures SumOf(a + b) == SumOf(a) + SumOf(b)
  {
    if a == [] {
      assert a + b == b;
    } else {
      assert (a + b)[1..] == a[1..] + b;
      SumOfConcat(a[1..], b);
    }
  }

  lemma SumOfWithout(a: seq<nat>, i: nat)
    requires i < |a|
    ensures SumOf(a) == SumOf(a[..i] + a[i + 1..]) + a[i]
  {
    SumOfConcat(a[..i], a[i..]);
    SumOfConcat(a[..i], a[i + 1..]);
    assert a == a[..i] + a[i..] && a[i..][1..] == a[i + 1..];
  }

  /** What members have earned, and what will reach the ledger, is covered by what the vault has or has paid out. */
  ghost predicate Backed(s: System) {
    && V.Accounted(s.vault) && L.Valid(s.ledger)
    && SumEarnings(s.ledger.members) + SumOf(s.inbox) <= V.Balance(s.vault) + s.vault.totalWithdrawn
  }

  /** Every committed root is the root of its snapshot, and no snapshot is ahead of the ledger. */
  ghost predicate Snapshotted(s: System) {
    && (forall n :: n in s.snapshots ==> IsSnapshot(s, n))
    && (forall n :: V.HashAt(s.vault, n) != Zero ==> n in s.snapshots)
  }

  ghost predicate IsSnapshot(s: System, n: nat)
    requires n in s.snapshots
  {
    && s.snapshots[n] != [] && |s.snapshots[n]| <= MAX_ROUNDED
    && L.Extends(s.snapshots[n], s.ledger.members)
    && V.HashAt(s.vault, n) == Root(s.snapshots[n], n) != Zero
  }

  /** Whatever has been proven is an entry of a committed snapshot. */
  ghost predicate ProvenFromSnapshots(s: System) {
    forall a :: Get(s.vault.earnings, a) > 0 ==>
      exists n :: n in s.snapshots && HasEntry(s.snapshots[n], a, Get(s.vault.earnings, a))
  }

  ghost predicate MoneySafe(s: System) {
    Backed(s) && Snapshotted(s) && ProvenFromSnapshots(s)
  }

  /** The clone that a running task works on is not ahead of the ledger; what it is about to store is newer than
      all that is stored, and once committed is the snapshot of its block. */
  ghost predicate StageSound(s: System, stage: Q.Stage) {
    && (Q.IsRunning(stage) ==> L.Valid(stage.state) && L.Extends(stage.state.members, s.ledger.members))
    && (stage.Checked? || stage.Committed? ==> forall n :: n in s.files.blocks ==> n < stage.blockNumber)
    && (stage.Committed? ==> stage.blockNumber in s.snapshots && s.snapshots[stage.blockNumber] == stage.state.members)
  }

  /** Every stored block is the snapshot committed under its number, with the contract's timestamp. */
  ghost predicate BlockSound(s: System, n: nat)
    requires n in s.files.blocks
  {
    && n in s.snapshots && s.files.blocks[n].members == s.snapshots[n]
    && s.files.blocks[n].timestamp == V.TimestampAt(s.vault, n)
  }

  ghost predicate StagesSound(s: System) {
    forall t :: 0 <= t < |s.queue.tasks| ==> StageSound(s, s.queue.tasks[t].stage)
  }

  ghost predicate BlocksSound(s: System) {
    && Consistent(s.files) && (forall n :: n in s.files.blocks ==> BlockSound(s, n))
    && Descending(s.listed) && AllFiled(s.listed, s.files.blocks)
  }

  ghost predicate PublishingSafe(s: System) {
    Q.Orderly(s.queue) && StagesSound(s) && BlocksSound(s)
  }

  ghost predicate Safe(s: System) {
    MoneySafe(s) && PublishingSafe(s)
  }

  lemma RootIsNotZero(contents: seq<Member>, salt: nat)
    requires contents != []
    ensures Root(contents, salt) != Zero
  {
    RootExists(Leaves(contents, salt));
    assert AllLeafHashes(Leaves(contents, salt));
    NodesAreHashes(Leaves(contents, salt), BranchCount(|contents|), 1);
  }

  // ----- money

  /** Snapshots, with the contract's timestamps, are still there, and the ledger's entries have not shrunk. */
  ghost predicate Later(s: System, next: System) {
    && L.Valid(next.ledger) && L.Extends(s.ledger.members, next.ledger.members)
    && forall n :: n in s.snapshots ==> StaysSnapshot(s, next, n)
  }

  ghost predicate StaysSnapshot(s: System, next: System, n: nat)
    requires n in s.snapshots
  {
    n in next.snapshots && next.snapshots[n] == s.snapshots[n]
      && V.TimestampAt(next.vault, n) == V.TimestampAt(s.vault, n)
  }

  lemma StagesStaySound(s: System, next: System)
    requires StagesSound(s) && Later(s, next) && next.queue == s.queue && next.files == s.files
    ensures StagesSound(next)
  {
    hide L.Valid, L.Extends, V.TimestampAt;
    forall t | 0 <= t < |next.queue.tasks| ensures StageSound(next, next.queue.tasks[t].stage) {
      var stage := s.queue.tasks[t].stage;
      assert StageSound(s, stage);
      if Q.IsRunning(stage) {
        L.ExtendsIsTransitive(stage.state.members, s.ledger.members, next.ledger.members);
      }
      assert stage.Committed? ==> StaysSnapshot(s, next, stage.blockNumber);
    }
  }

  lemma BlocksStaySound(s: System, next: System)
    requires BlocksSound(s) && Later(s, next) && next.files == s.files && next.listed == s.listed
    ensures BlocksSound(next)
  {
    hide L.Valid, L.Extends, V.TimestampAt, Consistent, Descending, AllFiled;
    forall n | n in next.files.blocks ensures BlockSound(next, n) {
      assert BlockSound(s, n) && StaysSnapshot(s, next, n);
    }
  }

  lemma PublishingStaysSafe(s: System, next: System)
    requires PublishingSafe(s) && Later(s, next)
    requires next.queue == s.queue && next.files == s.files && next.listed == s.listed
    ensures PublishingSafe(next)
  {
    hide StagesSound, BlocksSound, Later, Q.Orderly;
    StagesStaySound(s, next);
    BlocksStaySound(s, next);
  }

  /** The ledger has moved on. */
  lemma LedgerMovesOn(s: System, ledger: L.Ledger, inbox: seq<nat>)
    requires Safe(s) && L.Valid(ledger) && L.Extends(s.ledger.members, ledger.members)
    requires SumEarnings(ledger.members) + SumOf(inbox) <= V.Balance(s.vault) + s.vault.totalWithdrawn
    ensures Safe(s.(ledger := ledger, inbox := inbox))
  {
    var next := s.(ledger := ledger, inbox := inbox);
    hide L.Valid, V.Accounted, L.Extends, PublishingSafe;
    PublishingStaysSafe(s, next);
    forall n | n in next.snapshots ensures IsSnapshot(next, n) {
      assert IsSnapshot(s, n);
      L.ExtendsIsTransitive(s.snapshots[n], s.ledger.members, ledger.members);
    }
  }

  lemma ReplayTransferIsSafe(s: System, ecrecover: V.Recover, i: nat)
    requires Safe(s) && Can(s, ReplayTransfer(i))
    ensures Safe(Do(s, ecrecover, ReplayTransfer(i)))
  {
    hide L.Valid, V.Accounted, PublishingSafe, Snapshotted, ProvenFromSnapshots, SumEarnings, SumOf, L.Extends;
    var amount := s.inbox[i];
    L.AddRevenueKeepsValid(s.ledger, amount);
    L.RevenueIsHandedOut(s.ledger, amount);
    SumOfWithout(s.inbox, i);
    hide L.AddRevenue;
    LedgerMovesOn(s, L.AddRevenue(s.ledger, amount), s.inbox[..i] + s.inbox[i + 1..]);
  }

  lemma ReplayMessageIsSafe(s: System, ecrecover: V.Recover, op: L.Op)
    requires Safe(s) && Can(s, ReplayMessage(op))
    ensures Safe(Do(s, ecrecover, ReplayMessage(op)))
  {
    L.ApplyKeepsValid(s.ledger, op);
    L.OneStepSum(s.ledger, op);
    hide L.Apply, L.Valid;
    LedgerMovesOn(s, L.Apply(s.ledger, op), s.inbox);
  }

  /** A correct proof against the vault is a proof of an entry of the snapshot. */
  lemma ProofsAreOfEntries(s: System, blockNumber: nat, account: Address, balance: V.Word, proof: seq<Digest>)
    requires Snapshotted(s) && V.ProofIsCorrect(s.vault, blockNumber, account, balance, proof) == Success(true)
    ensures blockNumber in s.snapshots && HasEntry(s.snapshots[blockNumber], account, balance)
  {
    assert IsSnapshot(s, blockNumber);
    Soundness(s.snapshots[blockNumber], blockNumber, account, balance, blockNumber, proof);
  }

  lemma StillProvenFromSnapshots(s: System, vault: V.Vault)
    requires Snapshotted(s) && ProvenFromSnapshots(s) && V.ProvenByProof(s.vault, vault.earnings)
    ensures ProvenFromSnapshots(s.(vault := vault))
  {
    if vault.earnings != s.vault.earnings {
      var n, account, balance: V.Word, proof :|
        V.ProofIsCorrect(s.vault, n, account, balance, proof) == Success(true)
            && vault.earnings == s.vault.earnings[account := balance];
      ProofsAreOfEntries(s, n, account, balance, proof);
      forall a | Get(vault.earnings, a) > 0
        ensures exists n :: n in s.snapshots && HasEntry(s.snapshots[n], a, Get(vault.earnings, a))
      {
        if a != account {
          assert Get(s.vault.earnings, a) > 0;
        }
      }
    }
  }

  lemma TransactIsSafe(s: System, ecrecover: V.Recover, tx: V.Tx)
    requires Safe(s) && Can(s, Transact(tx))
    ensures Safe(Do(s, ecrecover, Transact(tx)))
  {
    hide V.Apply, V.ReceivedBy, V.Accounted, L.Valid, PublishingSafe, Backed, Snapshotted, ProvenFromSnapshots,
        L.Extends, V.ProvenByProof;
    LedgerIsValid(s);
    var next := Do(s, ecrecover, Transact(tx));
    TransactIsBacked(s, ecrecover, tx);
    V.CommitsStay(s.vault, ecrecover, tx);
    CommitsAreSnapshots(s, next);
    StillProvenFromSnapshots(s, next.vault);
    SameSnapshots(s, next);
    L.ExtendsItself(s.ledger.members);
    PublishingStaysSafe(s, next);
  }

  /** What a transaction brings is in the inbox, what it pays out is counted as withdrawn. */
  lemma TransactIsBacked(s: System, ecrecover: V.Recover, tx: V.Tx)
    requires Safe(s) && Can(s, Transact(tx))
    ensures Backed(Do(s, ecrecover, Transact(tx))) && V.Accounted(s.vault)
  {
    hide V.Apply, V.ReceivedBy, V.Accounted, V.Grown, L.Valid, PublishingSafe, Snapshotted, ProvenFromSnapshots;
    V.ExecuteKeepsAccounts(s.vault, ecrecover, tx);
    SumOfConcat(s.inbox, [V.ReceivedBy(s.vault, ecrecover, tx)]);
  }

  lemma CommitsAreSnapshots(s: System, next: System)
    requires Safe(s) && next.vault.committedHash == s.vault.committedHash && next.snapshots == s.snapshots
             && next.ledger == s.ledger
    ensures Snapshotted(s) && Snapshotted(next)
  {
    hide V.Accounted, L.Valid, L.Extends, PublishingSafe, Backed, ProvenFromSnapshots, Root;
    forall n | n in next.snapshots ensures IsSnapshot(next, n) {
      assert IsSnapshot(s, n);
    }
  }

  lemma SameSnapshots(s: System, next: System)
    requires ProvenFromSnapshots(s.(vault := next.vault)) && next.snapshots == s.snapshots
    ensures ProvenFromSnapshots(next)
  {
  }

  // ----- publishing

  /** Only one task's stage changes, to one that is sound. */
  lemma StageChangeIsSafe(s: System, queue: Q.Queue, t: nat)
    requires Safe(s) && Q.Orderly(queue)
    requires |s.queue.tasks| == |queue.tasks| && t < |queue.tasks|
    requires forall i :: 0 <= i < |queue.tasks| && i != t ==> queue.tasks[i].stage == s.queue.tasks[i].stage
    requires StageSound(s, queue.tasks[t].stage)
    ensures Safe(s.(queue := queue))
  {
    var next := s.(queue := queue);
    hide L.Valid, L.Extends, MoneySafe, BlocksSound, Q.Orderly;
    SameMoney(s, next);
    SameBlocks(s, next);
    forall i | 0 <= i < |queue.tasks| ensures StageSound(next, queue.tasks[i].stage) {
      if i != t {
        assert StageSound(s, s.queue.tasks[i].stage);
      }
    }
  }

  lemma SameBlocks(s: System, next: System)
    requires BlocksSound(s) && next.files == s.files && next.listed == s.listed && next.snapshots == s.snapshots
             && next.vault == s.vault
    ensures BlocksSound(next)
  {
    hide Consistent, Descending, AllFiled;
    forall n | n in next.files.blocks ensures BlockSound(next, n) {
      assert BlockSound(s, n);
    }
  }

  lemma SameMoney(s: System, next: System)
    requires MoneySafe(s)
    requires next.vault == s.vault && next.ledger == s.ledger && next.inbox == s.inbox && next.snapshots == s.snapshots
    ensures MoneySafe(next)
  {
    forall n | n in next.snapshots ensures IsSnapshot(next, n) {
      assert IsSnapshot(s, n);
    }
  }

  lemma EnqueueIsSafe(s: System, requested: nat)
    requires Safe(s)
    ensures Safe(s.(queue := Q.Do(s.queue, Q.Enqueue(requested))))
  {
    Q.StepKeepsOrder(s.queue, Q.Enqueue(requested));
    var next := s.(queue := Q.Do(s.queue, Q.Enqueue(requested)));
    hide L.Valid, L.Extends, MoneySafe, BlocksSound, Q.Orderly;
    SameMoney(s, next);
    SameBlocks(s, next);
    forall i | 0 <= i < |next.queue.tasks| ensures StageSound(next, next.queue.tasks[i].stage) {
      if i < |s.queue.tasks| {
        assert StageSound(s, s.queue.tasks[i].stage);
      }
    }
  }

  lemma PublishIsSafe(s: System, q: Q.Step)
    requires Safe(s) && Can(s, Publish(q))
    ensures Safe(s.(queue := Q.Do(s.queue, q)))
  {
    if q.Enqueue? {
      EnqueueIsSafe(s, q.requested);
    } else {
      hide Safe, Q.Orderly, Q.Do, Q.Can, StageSound;
      TaskIsSound(s, 0);
      Q.StepKeepsOrder(s.queue, q);
      Q.OthersStay(s.queue, q);
      NextStageIsSound(s, q);
      StageChangeIsSafe(s, Q.Do(s.queue, q), q.task);
    }
  }

  lemma NextStageIsSound(s: System, q: Q.Step)
    requires Safe(s) && Can(s, Publish(q)) && !q.Enqueue?
    ensures q.task < |Q.Do(s.queue, q).tasks| && StageSound(s, Q.Do(s.queue, q).tasks[q.task].stage)
  {
    hide Safe, L.Valid, L.Extends, L.Clone;
    TaskIsSound(s, q.task);
    if q.Start? {
      LedgerIsValid(s);
      L.CloneListsTheSame(s.ledger);
      L.ExtendsItself(s.ledger.members);
    } else if q.Check? {
      FilesAreConsistent(s);
    }
  }

  lemma FilesAreConsistent(s: System)
    requires Safe(s)
    ensures Consistent(s.files)
  {
  }

  /** A root is committed under a new number only, so the other snapshots stay. */
  lemma CommitIsSafe(s: System, t: nat, now: nat)
    requires Safe(s) && Can(s, CommitRoot(t, now))
    ensures Safe(DoCommit(s, t, now))
  {
    hide Safe, Q.Orderly, Root, L.Valid, L.Extends;
    var stage := s.queue.tasks[t].stage;
    TaskIsSound(s, t);
    PublishIsSafe(s, Q.Fail(t));
    if stage.state.members != [] {
      RootIsNotZero(stage.state.members, stage.blockNumber);
      var mid := s.(
        vault := s.vault.(blockTimestamp := s.vault.blockTimestamp[stage.blockNumber := now],
                          committedHash := s.vault.committedHash[stage.blockNumber :=
                            Root(stage.state.members, stage.blockNumber)]),
        snapshots := s.snapshots[stage.blockNumber := stage.state.members]);
      if DoCommit(s, t, now) != s.(queue := Q.Do(s.queue, Q.Fail(t))) {
        NewSnapshotIsSafe(s, mid, stage.blockNumber, stage.state.members, now);
        Q.StepKeepsOrder(s.queue, Q.Commit(t));
        CommittedStageIsSound(s, mid, stage);
        StageChangeIsSafe(mid, Q.Do(s.queue, Q.Commit(t)), t);
      }
    }
  }

  lemma CommittedStageIsSound(s: System, mid: System, stage: Q.Stage)
    requires stage.Checked? && StageSound(s, stage) && mid.ledger == s.ledger && mid.files == s.files
    requires stage.blockNumber in mid.snapshots && mid.snapshots[stage.blockNumber] == stage.state.members
    ensures StageSound(mid, Q.Committed(stage.state, stage.blockNumber))
  {
  }

  /** The vault after a commit, and the snapshot behind it. */
  ghost predicate CommittedNext(s: System, next: System, blockNumber: nat, members: seq<Member>, now: nat) {
    && members != [] && |members| <= MAX_ROUNDED && L.Extends(members, s.ledger.members)
    && V.HashAt(s.vault, blockNumber) == Zero && Root(members, blockNumber) != Zero
    && next == s.(
         vault := s.vault.(blockTimestamp := s.vault.blockTimestamp[blockNumber := now],
                           committedHash := s.vault.committedHash[blockNumber := Root(members, blockNumber)]),
         snapshots := s.snapshots[blockNumber := members])
  }

  lemma NewSnapshotIsSafe(s: System, next: System, blockNumber: nat, members: seq<Member>, now: nat)
    requires Safe(s) && CommittedNext(s, next, blockNumber, members, now)
    ensures Safe(next)
  {
    hide L.Valid, V.Accounted, L.Extends, Root, V.Grown, Snapshotted, ProvenFromSnapshots, PublishingSafe;
    NumberIsNew(s, blockNumber);
    NewIsSnapshotted(s, next, blockNumber, members, now);
    NewIsProven(s, next, blockNumber, members, now);
    V.SameAccountsMoreTokens(s.vault, next.vault);
    L.ExtendsItself(s.ledger.members);
    PublishingStaysSafe(s, next);
  }

  lemma NumberIsNew(s: System, blockNumber: nat)
    requires Snapshotted(s) && V.HashAt(s.vault, blockNumber) == Zero
    ensures blockNumber !in s.snapshots
  {
    assert blockNumber in s.snapshots ==> IsSnapshot(s, blockNumber);
  }

  lemma NewIsSnapshotted(s: System, next: System, blockNumber: nat, members: seq<Member>, now: nat)
    requires Snapshotted(s) && CommittedNext(s, next, blockNumber, members, now) && blockNumber !in s.snapshots
    ensures Snapshotted(next)
  {
    hide Root, L.Extends;
    forall n | n in next.snapshots ensures IsSnapshot(next, n) {
      if n != blockNumber {
        assert IsSnapshot(s, n);
      }
    }
  }

  lemma NewIsProven(s: System, next: System, blockNumber: nat, members: seq<Member>, now: nat)
    requires ProvenFromSnapshots(s) && CommittedNext(s, next, blockNumber, members, now) && blockNumber !in s.snapshots
    ensures ProvenFromSnapshots(next)
  {
    hide Root, L.Extends, HasEntry;
    forall a | Get(next.vault.earnings, a) > 0
      ensures exists n :: n in next.snapshots && HasEntry(next.snapshots[n], a, Get(next.vault.earnings, a))
    {
      var n :| n in s.snapshots && HasEntry(s.snapshots[n], a, Get(s.vault.earnings, a));
      assert n in next.snapshots && next.snapshots[n] == s.snapshots[n];
    }
  }

  lemma TaskIsSound(s: System, t: nat)
    requires Safe(s)
    ensures Q.Orderly(s.queue) && (t < |s.queue.tasks| ==> StageSound(s, s.queue.tasks[t].stage))
  {
  }

  /** What is stored is newer than all that was stored, and is the snapshot committed under its number. */
  lemma StoreIsSafe(s: System, t: nat)
    requires Safe(s) && Can(s, StorePublished(t))
    ensures Safe(DoStore(s, t))
  {
    hide Safe, Q.Orderly, Save, SortDescending, L.Valid, L.Extends;
    var stage := s.queue.tasks[t].stage;
    TaskIsSound(s, t);
    var timestamp := V.TimestampAt(s.vault, stage.blockNumber);
    var block := P.BlockOf(stage.state, stage.blockNumber, timestamp);
    var clone := P.Plasma(stage.state, [], s.files, 0, 0);
    StoredGoesFirst([], block);
    if P.StoreBlock(clone, stage.blockNumber, timestamp).Failure? {
      PublishIsSafe(s, Q.Fail(t));
    } else {
      NewBlockIsSafe(s, block);
      Q.StepKeepsOrder(s.queue, Q.StoreBlock(t));
      var mid := s.(files := Save(s.files, block), listed := SortDescending([block] + s.listed));
      EndedIsSafe(s, mid, t);
      assert [block] + [] == [block];
      assert DoStore(s, t) == mid.(queue := Q.Do(s.queue, Q.StoreBlock(t)));
    }
  }

  /** With the new block saved, everything is safe but for the task that saved it, and that has ended. */
  lemma EndedIsSafe(s: System, mid: System, t: nat)
    requires Safe(s) && Q.Can(s.queue, Q.StoreBlock(t)) && Q.Orderly(Q.Do(s.queue, Q.StoreBlock(t)))
    requires mid.queue == s.queue && mid.vault == s.vault && mid.ledger == s.ledger && mid.inbox == s.inbox
             && mid.snapshots == s.snapshots
    requires BlocksSound(mid)
    ensures Safe(mid.(queue := Q.Do(s.queue, Q.StoreBlock(t))))
  {
    var next := mid.(queue := Q.Do(s.queue, Q.StoreBlock(t)));
    hide MoneySafe, StagesSound, BlocksSound, Q.Orderly, Q.Can, Q.Do;
    SameMoney(s, next);
    SameBlocks(mid, next);
    Q.OthersHaveStopped(s.queue, t);
    IdleStagesAreSound(next);
  }

  lemma IdleStagesAreSound(s: System)
    requires forall i :: 0 <= i < |s.queue.tasks| ==> !Q.IsRunning(s.queue.tasks[i].stage)
    ensures StagesSound(s)
  {
  }

  lemma NewBlockIsSafe(s: System, block: Block)
    requires Safe(s)
    requires block.blockNumber in s.snapshots && s.snapshots[block.blockNumber] == block.members
    requires block.timestamp == V.TimestampAt(s.vault, block.blockNumber)
    requires forall n :: n in s.files.blocks ==> n < block.blockNumber
    ensures var files, listed := Save(s.files, block), SortDescending([block] + s.listed);
            && BlocksSound(s.(files := files, listed := listed))
            && LatestBlock(files) == Some(block) && listed == [block] + s.listed
  {
    NewestIsListedFirst(s.files, s.listed, block);
    hide SortDescending, L.Valid, V.Accounted, Q.Orderly, L.Extends, HasEntry, Save, Consistent, Descending, AllFiled;
    var files := Save(s.files, block);
    forall n | n in files.blocks
      ensures BlockSound(s.(files := files, listed := SortDescending([block] + s.listed)), n)
    {
      if n != block.blockNumber {
        assert BlockSound(s, n);
      }
    }
  }

  /** A block newer than all filed ones becomes the latest file and the head of the list. */
  lemma NewestIsListedFirst(files: Files, listed: seq<Block>, block: Block)
    requires Consistent(files) && Descending(listed) && AllFiled(listed, files.blocks)
    requires forall n :: n in files.blocks ==> n < block.blockNumber
    ensures var saved := Save(files, block);
            && saved.blocks == files.blocks[block.blockNumber := block]
            && Consistent(saved) && LatestBlock(saved) == Some(block)
            && SortDescending([block] + listed) == [block] + listed
            && Descending([block] + listed) && AllFiled([block] + listed, saved.blocks)
  {
    SaveKeepsConsistent(files, block);
    forall i | 0 <= i < |listed| ensures listed[i].blockNumber < block.blockNumber {
      assert listed[i].blockNumber in files.blocks;
    }
    StoredGoesFirst(listed, block);
  }

  /** A cut drops only blocks that are still filed. */
  lemma AskIsSafe(s: System, now: nat)
    requires Safe(s)
    ensures Safe(s.(listed := Truncate(s.listed, now, s.vault.blockFreezeSeconds)))
  {
    var next := s.(listed := Truncate(s.listed, now, s.vault.blockFreezeSeconds));
    hide MoneySafe, L.Valid, L.Extends, Q.Orderly, Consistent;
    SameMoney(s, next);
    TruncatingKeepsPublished(s.listed, s.files.blocks, now, s.vault.blockFreezeSeconds, 0);
    forall i | 0 <= i < |next.queue.tasks| ensures StageSound(next, next.queue.tasks[i].stage) {
      assert StageSound(s, s.queue.tasks[i].stage);
    }
    forall n | n in next.files.blocks ensures BlockSound(next, n) {
      assert BlockSound(s, n);
    }
  }

  // ----- runs

  lemma StepIsSafe(s: System, ecrecover: V.Recover, step: Step)
    requires Safe(s) && Can(s, step)
    ensures Safe(Do(s, ecrecover, step))
  {
    hide Safe;
    match step
    case Transact(tx) => TransactIsSafe(s, ecrecover, tx);
    case ReplayTransfer(i) => ReplayTransferIsSafe(s, ecrecover, i);
    case ReplayMessage(op) => ReplayMessageIsSafe(s, ecrecover, op);
    case Publish(q) => PublishIsSafe(s, q);
    case CommitRoot(t, now) => CommitIsSafe(s, t, now);
    case StorePublished(t) => StoreIsSafe(s, t);
    case AskWithdrawable(now) => AskIsSafe(s, now);
  }

  lemma LedgerIsValid(s: System)
    requires Safe(s)
    ensures L.Valid(s.ledger)
  {
  }

  /** A run: each step can be taken where it stands. */
  ghost predicate IsRun(s: System, ecrecover: V.Recover, steps: seq<Step>)
    requires Safe(s)
    decreases |steps|
  {
    LedgerIsValid(s);
    steps == [] ||
    (Can(s, steps[0]) &&
     (StepIsSafe(s, ecrecover, steps[0]); IsRun(Do(s, ecrecover, steps[0]), ecrecover, steps[1..])))
  }

  /** The state at the end of a run. */
  ghost function After(s: System, ecrecover: V.Recover, steps: seq<Step>): System
    requires Safe(s) && IsRun(s, ecrecover, steps)
    decreases |steps|
  {
    LedgerIsValid(s);
    if steps == [] then s
    else
      StepIsSafe(s, ecrecover, steps[0]);
      After(Do(s, ecrecover, steps[0]), ecrecover, steps[1..])
  }

  /** In every run everything stays safe. */
  lemma {:induction false} EveryRunIsSafe(s: System, ecrecover: V.Recover, steps: seq<Step>)
    requires Safe(s) && IsRun(s, ecrecover, steps)
    ensures Safe(After(s, ecrecover, steps))
    decreases |steps|
  {
    hide Safe, Can, Do;
    if steps != [] {
      LedgerIsValid(s);
      StepIsSafe(s, ecrecover, steps[0]);
      EveryRunIsSafe(Do(s, ecrecover, steps[0]), ecrecover, steps[1..]);
    }
  }

  lemma StartIsSafe(vault: V.Vault, admin: Address, adminFee: nat)
    requires V.Accounted(vault) && vault.committedHash == map[] && vault.earnings == map[] && adminFee <= L.ONE
    ensures Safe(Start(vault, admin, adminFee))
  {
    hide V.Accounted, L.Valid, L.New, V.Balance;
    NewLedger(admin, adminFee);
    forall a ensures Get(vault.earnings, a) == 0 {
    }
  }

  /** A ledger of just the admin is worth nothing. */
  lemma NewLedger(admin: Address, adminFee: nat)
    requires adminFee <= L.ONE
    ensures L.Valid(L.New([], admin, adminFee, 0)) && SumEarnings(L.New([], admin, adminFee, 0).members) == 0
  {
    L.NewIsValidExactlyWhen([], admin, adminFee, 0);
    SumEarningsAppended([], Member("admin", admin, 0, false));
    assert [] + [Member("admin", admin, 0, false)] == [Member("admin", admin, 0, false)];
  }
}
