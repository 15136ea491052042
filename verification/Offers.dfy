/** Which block members are offered for withdrawing, out of all that were ever stored. */
module Offers {
  import opened Wrappers
  import opened Members
  import opened Blocks
  import opened FileStores
  import opened DataUnions
  import opened Guarantees
  import V = VaultSpec
  import L = Ledgers
  import Q = PublishQueue
  import P = Playback

  /** The clock that the withdrawable block is asked by does not go back. */
  ghost predicate ClockRunsOn(steps: seq<Step>, clock: nat) {
    steps == [] ||
    match steps[0]
    case AskWithdrawable(now) => clock <= now && ClockRunsOn(steps[1..], now)
    case _ => ClockRunsOn(steps[1..], clock)
  }

  /** When it was last asked. */
  function LastAsked(steps: seq<Step>, clock: nat): nat {
    if steps == [] then clock
    else LastAsked(steps[1..], if steps[0].AskWithdrawable? then steps[0].now else clock)
  }

  ghost predicate IsListed(listed: seq<Block>, n: nat) {
    exists i :: 0 <= i < |listed| && listed[i].blockNumber == n
  }

  /** The oldest block listed is withdrawable, and newer than this number. */
  ghost predicate IsOutdated(listed: seq<Block>, n: nat, clock: nat, freezeSeconds: nat) {
    listed != [] && n < listed[|listed| - 1].blockNumber && IsWithdrawable(listed[|listed| - 1], clock, freezeSeconds)
  }

  /** Every stored block is listed or outdated. */
  ghost predicate NoneMissed(s: System, clock: nat) {
    forall n :: n in s.files.blocks ==>
      IsListed(s.listed, n) || IsOutdated(s.listed, n, clock, s.vault.blockFreezeSeconds)
  }

  lemma AskMissesNone(s: System, clock: nat, now: nat)
    requires Descending(s.listed) && NoneMissed(s, clock) && clock <= now
    ensures NoneMissed(s.(listed := Truncate(s.listed, now, s.vault.blockFreezeSeconds)), now)
  {
    var freeze := s.vault.blockFreezeSeconds;
    var i, cut := FirstWithdrawable(s.listed, now, freeze), Truncate(s.listed, now, freeze);
    if i == |s.listed| {
      hide Descending;
      assert cut == s.listed;
      return;
    }
    assert cut == s.listed[..i + 1];
    hide Truncate, FirstWithdrawable;
    forall n | n in s.files.blocks ensures IsListed(cut, n) || IsOutdated(cut, n, now, freeze) {
      if IsListed(s.listed, n) {
        var j :| 0 <= j < |s.listed| && s.listed[j].blockNumber == n;
        assert j <= i ==> cut[j].blockNumber == n;
      }
    }
  }

  lemma StoreMissesNone(s: System, next: System, clock: nat, block: Block)
    requires NoneMissed(s, clock) && next.vault == s.vault
    requires next.listed == [block] + s.listed && next.files.blocks == s.files.blocks[block.blockNumber := block]
    ensures NoneMissed(next, clock)
  {
    forall n | n in next.files.blocks
      ensures IsListed(next.listed, n) || IsOutdated(next.listed, n, clock, next.vault.blockFreezeSeconds)
    {
      if n == block.blockNumber {
        assert next.listed[0].blockNumber == n;
      } else if IsListed(s.listed, n) {
        var j :| 0 <= j < |s.listed| && s.listed[j].blockNumber == n;
        assert next.listed[j + 1].blockNumber == n;
      } else {
        assert next.listed[|next.listed| - 1] == s.listed[|s.listed| - 1];
      }
    }
  }

  /** The other steps change neither the list, nor the store, nor the freeze period. */
  lemma OtherStepsLeaveBlocks(s: System, ecrecover: V.Recover, step: Step)
    requires Safe(s) && Can(s, step) && L.Valid(s.ledger) && !step.AskWithdrawable? && !step.StorePublished?
    ensures var next := Do(s, ecrecover, step);
            && next.listed == s.listed && next.files == s.files
            && next.vault.blockFreezeSeconds == s.vault.blockFreezeSeconds
  {
    if step.Transact? {
      SafeIsBacked(s);
      V.CommitsStay(s.vault, ecrecover, step.tx);
    }
    hide Safe, V.Apply, V.ReceivedBy, L.Valid, V.Accounted, Q.Do, Q.Can;
  }

  lemma StoreStepMissesNone(s: System, ecrecover: V.Recover, t: nat, clock: nat)
    requires Safe(s) && Can(s, StorePublished(t)) && L.Valid(s.ledger) && NoneMissed(s, clock)
    ensures NoneMissed(Do(s, ecrecover, StorePublished(t)), clock)
  {
    hide Safe, Q.Orderly, Q.Do, Save, SortDescending, L.Valid, L.Extends, NoneMissed;
    var stage := s.queue.tasks[t].stage;
    TaskIsSound(s, t);
    FilesAreSound(s);
    var block := P.BlockOf(stage.state, stage.blockNumber, V.TimestampAt(s.vault, stage.blockNumber));
    StoredGoesFirst([], block);
    assert [block] + [] == [block];
    NewestIsListedFirst(s.files, s.listed, block);
    var next := Do(s, ecrecover, StorePublished(t));
    if next.files != s.files {
      StoreMissesNone(s, next, clock, block);
    } else {
      StoreOrFail(s, next, block);
      SameBlocksMissNone(s, next, clock);
    }
  }

  lemma StoreOrFail(s: System, next: System, block: Block)
    requires next.files == s.files && block.blockNumber !in s.files.blocks
    requires next.files == Save(s.files, block) || next.listed == s.listed
    ensures next.listed == s.listed
  {
  }

  lemma SameBlocksMissNone(s: System, next: System, clock: nat)
    requires NoneMissed(s, clock) && next.listed == s.listed && next.files == s.files
    requires next.vault.blockFreezeSeconds == s.vault.blockFreezeSeconds
    ensures NoneMissed(next, clock)
  {
    hide IsListed, IsOutdated;
  }

  lemma {:induction false} RunMissesNone(s: System, ecrecover: V.Recover, steps: seq<Step>, clock: nat)
    requires Safe(s) && IsRun(s, ecrecover, steps) && NoneMissed(s, clock) && ClockRunsOn(steps, clock)
    ensures NoneMissed(After(s, ecrecover, steps), LastAsked(steps, clock)) && LastAsked(steps, clock) >= clock
    decreases |steps|
  {
    hide Safe, NoneMissed, L.Valid;
    if steps != [] {
      var step := steps[0];
      LedgerIsValid(s);
      StepIsSafe(s, ecrecover, step);
      var next := Do(s, ecrecover, step);
      if step.AskWithdrawable? {
        FilesAreSound(s);
        AskMissesNone(s, clock, step.now);
      } else if step.StorePublished? {
        StoreStepMissesNone(s, ecrecover, step.task, clock);
      } else {
        OtherStepsLeaveBlocks(s, ecrecover, step);
        SameBlocksMissNone(s, next, clock);
      }
      hide Can, Do;
      RunMissesNone(next, ecrecover, steps[1..], if step.AskWithdrawable? then step.now else clock);
    }
  }

  /** What is offered is newest among all that are not frozen. */
  ghost predicate IsNewestUnfrozen(s: System, offered: Option<Block>, now: nat) {
    match offered
    case Some(b) =>
      && b.blockNumber in s.files.blocks && s.files.blocks[b.blockNumber] == b
      && !V.IsFrozen(s.vault, now, b.blockNumber)
      && forall n :: n in s.files.blocks && n > b.blockNumber ==> V.IsFrozen(s.vault, now, n)
    case None => forall n :: n in s.files.blocks ==> V.IsFrozen(s.vault, now, n)
  }

  /** In every run in which the clock does not go back, and although old blocks are dropped from the list, the block
      that is offered is the newest of all that were ever stored and that the contract does not freeze; none is
      offered exactly if it freezes all of them. */
  lemma OfferedIsNewestStored(s: System, ecrecover: V.Recover, clock: nat, now: nat)
    requires ReachableByClock(s, ecrecover, clock) && clock <= now
    requires forall n :: n in s.files.blocks ==> NoWraparound(s, n)
    ensures IsNewestUnfrozen(s, LatestWithdrawable(s.listed, now, s.vault.blockFreezeSeconds), now)
  {
    hide Safe, NoneMissed, IsRun, After, Start, ClockRunsOn, LastAsked, IsNewestUnfrozen, V.Accounted, NoWraparound;
    var vault, admin, adminFee, steps :| StartsAndAsks(vault, admin, adminFee, ecrecover, steps, s, clock);
    StartMissesNone(vault, admin, adminFee);
    StartIsSafe(vault, admin, adminFee);
    RunMissesNone(Start(vault, admin, adminFee), ecrecover, steps, 0);
    EveryRunIsSafe(Start(vault, admin, adminFee), ecrecover, steps);
    SafeOfferIsNewest(s, clock, now);
  }

  lemma StartMissesNone(vault: V.Vault, admin: Address, adminFee: nat)
    ensures NoneMissed(Start(vault, admin, adminFee), 0)
  {
  }

  /** Reached by a run in which the clock that is asked by does not go back and last said this. */
  ghost predicate ReachableByClock(s: System, ecrecover: V.Recover, clock: nat) {
    exists vault, admin, adminFee, steps :: StartsAndAsks(vault, admin, adminFee, ecrecover, steps, s, clock)
  }

  ghost predicate StartsAndAsks(vault: V.Vault, admin: Address, adminFee: nat, ecrecover: V.Recover, steps: seq<Step>,
                                s: System, clock: nat) {
    && IsNew(vault) && adminFee <= L.ONE && ClockRunsOn(steps, 0) && LastAsked(steps, 0) == clock
    && (StartIsSafe(vault, admin, adminFee);
        && IsRun(Start(vault, admin, adminFee), ecrecover, steps)
        && After(Start(vault, admin, adminFee), ecrecover, steps) == s)
  }

  lemma SafeOfferIsNewest(s: System, clock: nat, now: nat)
    requires Safe(s) && NoneMissed(s, clock) && clock <= now
    requires forall n :: n in s.files.blocks ==> NoWraparound(s, n)
    ensures IsNewestUnfrozen(s, LatestWithdrawable(s.listed, now, s.vault.blockFreezeSeconds), now)
  {
    var freeze := s.vault.blockFreezeSeconds;
    var i := FirstWithdrawable(s.listed, now, freeze);
    FilesAreSound(s);
    forall n | n in s.files.blocks && (i < |s.listed| ==> n > s.listed[i].blockNumber)
      ensures V.IsFrozen(s.vault, now, n)
    {
      OthersAreFrozen(s, clock, now, n);
    }
    hide Safe, NoneMissed, NoWraparound, V.IsFrozen, Descending, Consistent, AllFiled, IsWithdrawable;
    if i < |s.listed| {
      ListedIsSound(s, i);
      ListedFreezeAgrees(s, i, now);
    }
  }

  lemma NewerIsNotOutdated(listed: seq<Block>, n: nat, clock: nat, now: nat, freezeSeconds: nat)
    requires Descending(listed) && clock <= now
    requires var i := FirstWithdrawable(listed, now, freezeSeconds); i < |listed| ==> n > listed[i].blockNumber
    ensures !IsOutdated(listed, n, clock, freezeSeconds)
  {
    var i, last := FirstWithdrawable(listed, now, freezeSeconds), |listed| - 1;
    assert listed != [] && IsWithdrawable(listed[last], clock, freezeSeconds) ==>
             i <= last && listed[i].blockNumber >= listed[last].blockNumber;
  }

  lemma OthersAreFrozen(s: System, clock: nat, now: nat, n: nat)
    requires Safe(s) && NoneMissed(s, clock) && clock <= now && n in s.files.blocks && NoWraparound(s, n)
    requires var i := FirstWithdrawable(s.listed, now, s.vault.blockFreezeSeconds);
             i < |s.listed| ==> n > s.listed[i].blockNumber
    ensures V.IsFrozen(s.vault, now, n)
  {
    hide Safe, NoWraparound, V.IsFrozen, Consistent, AllFiled;
    FilesAreSound(s);
    NewerIsNotOutdated(s.listed, n, clock, now, s.vault.blockFreezeSeconds);
    var j := NewerIsNotWithdrawable(s.listed, n, now, s.vault.blockFreezeSeconds);
    hide FirstWithdrawable, IsWithdrawable, Descending, NoneMissed;
    ListedFreezeAgrees(s, j, now);
  }

  lemma NewerIsNotWithdrawable(listed: seq<Block>, n: nat, now: nat, freezeSeconds: nat) returns (j: nat)
    requires Descending(listed) && IsListed(listed, n)
    requires var i := FirstWithdrawable(listed, now, freezeSeconds); i < |listed| ==> n > listed[i].blockNumber
    ensures j < |listed| && listed[j].blockNumber == n && !IsWithdrawable(listed[j], now, freezeSeconds)
  {
    j :| 0 <= j < |listed| && listed[j].blockNumber == n;
    assert j < FirstWithdrawable(listed, now, freezeSeconds);
  }
}
