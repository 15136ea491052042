/** What happens to members who leave and come back: their entries, their payslips, and what they can be paid. */
module Rejoins {
  import opened Wrappers
  import opened Members
  import opened Hashing
  import opened MerkleSpec
  import opened MerkleTrees
  import opened Blocks
  import opened FileStores
  import opened DataUnions
  import opened Guarantees
  import V = VaultSpec
  import L = Ledgers
  import P = Playback

  // ----- runs

  lemma {:induction false} RunsJoin(s: System, ecrecover: V.Recover, first: seq<Step>, second: seq<Step>)
    requires Safe(s) && IsRun(s, ecrecover, first)
    requires Safe(After(s, ecrecover, first)) && IsRun(After(s, ecrecover, first), ecrecover, second)
    ensures IsRun(s, ecrecover, first + second)
    ensures After(s, ecrecover, first + second) == After(After(s, ecrecover, first), ecrecover, second)
    decreases |first|
  {
    hide Safe, Can, Do;
    if first == [] {
      assert first + second == second;
    } else {
      LedgerIsValid(s);
      StepIsSafe(s, ecrecover, first[0]);
      RunsJoin(Do(s, ecrecover, first[0]), ecrecover, first[1..], second);
      assert (first + second)[1..] == first[1..] + second;
    }
  }

  lemma LeadsOn(s: System, ecrecover: V.Recover, mid: System, end: System)
    requires Safe(s) && Leads(s, ecrecover, mid) && Safe(mid) && Leads(mid, ecrecover, end)
    ensures Leads(s, ecrecover, end)
  {
    hide Safe, IsRun, After;
    var first :| IsRun(s, ecrecover, first) && After(s, ecrecover, first) == mid;
    var second :| IsRun(mid, ecrecover, second) && After(mid, ecrecover, second) == end;
    RunsJoin(s, ecrecover, first, second);
    assert IsRun(s, ecrecover, first + second);
  }

  lemma ReachableOn(s: System, ecrecover: V.Recover, end: System)
    requires Reachable(s, ecrecover) && Safe(s) && Leads(s, ecrecover, end)
    ensures Reachable(end, ecrecover)
  {
    hide Safe, Leads, Start;
    var vault, admin, adminFee :| StartsAndLeads(vault, admin, adminFee, ecrecover, s);
    StartIsSafe(vault, admin, adminFee);
    LeadsOn(Start(vault, admin, adminFee), ecrecover, s, end);
    assert StartsAndLeads(vault, admin, adminFee, ecrecover, end);
  }

  lemma OneStepLeads(s: System, ecrecover: V.Recover, step: Step) returns (next: System)
    requires Safe(s) && Can(s, step)
    ensures L.Valid(s.ledger) && next == Do(s, ecrecover, step) && Safe(next) && Leads(s, ecrecover, next)
  {
    hide Safe, Can, Do;
    next := OneStep(s, ecrecover, step);
    NoSteps(next, ecrecover);
    RunOf(s, ecrecover, step, []);
    assert IsRun(s, ecrecover, [step] + []);
  }

  // ----- payslips

  /** The first entry with an address in a stored block, which a payslip shows, is not proven by the path it comes
      with. */
  ghost predicate RefusedPayslip(s: System, n: nat, i: nat)
    requires n in s.files.blocks
  {
    var members := s.files.blocks[n].members;
    && i < |members| && members[i].earnings < V.TWO_256
    && (forall j :: 0 <= j < i ==> members[j].address != members[i].address)
    && ServedPath(members, n, members[i].address).Some?
    && V.ProofIsCorrect(s.vault, n, members[i].address, members[i].earnings,
                        ServedPath(members, n, members[i].address).value) == Success(false)
  }

  /** From any reachable state: once a member with earnings has left and come back, the next publication stores a block
      from which its payslip is refused. */
  lemma RejoinSpoilsPayslip(s: System, ecrecover: V.Recover, i: nat, name: string, n: nat, now: nat)
    returns (end: System)
    requires Reachable(s, ecrecover) && s.queue.inProgress.None? && |s.ledger.members| < MAX_ROUNDED
    requires i < |s.ledger.members| && s.ledger.members[i].active && 0 < s.ledger.members[i].earnings < V.TWO_256
    requires forall j :: 0 <= j < i ==> s.ledger.members[j].address != s.ledger.members[i].address
    requires 1 <= n <= MAX_SAFE_INTEGER && 1 <= now <= MAX_SAFE_INTEGER
    requires V.HashAt(s.vault, n) == Zero && forall m :: m in s.files.blocks ==> m < n
    ensures Safe(s) && Leads(s, ecrecover, end) && Reachable(end, ecrecover)
    ensures n in end.files.blocks && RefusedPayslip(end, n, i)
  {
    hide Safe, Reachable, Leads, ServedPath, V.ProofIsCorrect;
    ReachableIsSafe(s, ecrecover);
    var a := s.ledger.members[i].address;
    var mid := LeavesAndComesBack(s, ecrecover, i, name);
    ReachableOn(s, ecrecover, mid);
    end := PublishingStoresTheLedger(mid, ecrecover, n, n, now);
    LeadsOn(s, ecrecover, mid, end);
    ReachableOn(s, ecrecover, end);
    ReachableIsSafe(end, ecrecover);
    NoStepsLead(end, ecrecover);
    PayslipStaysGood(end, ecrecover, end, n, i, |s.ledger.members|);
  }

  lemma NoStepsLead(s: System, ecrecover: V.Recover)
    requires Safe(s)
    ensures Leads(s, ecrecover, s)
  {
    hide Safe;
    NoSteps(s, ecrecover);
  }

  lemma LeavesAndComesBack(s: System, ecrecover: V.Recover, i: nat, name: string) returns (mid: System)
    requires Safe(s) && i < |s.ledger.members| && s.ledger.members[i].active
    ensures Safe(mid) && Leads(s, ecrecover, mid)
    ensures mid.vault == s.vault && mid.files == s.files && mid.queue == s.queue
    ensures var last := |s.ledger.members|;
            && |mid.ledger.members| == last + 1
            && mid.ledger.members[i] == s.ledger.members[i].(active := false)
            && mid.ledger.members[last].address == s.ledger.members[i].address && mid.ledger.members[last].earnings == 0
            && LastWithItsAddress(mid.ledger.members, last)
            && (forall j :: 0 <= j < i ==> mid.ledger.members[j].address == s.ledger.members[j].address)
  {
    hide Safe, Leads, L.Valid, L.Indexed;
    LedgerIsValid(s);
    var a := s.ledger.members[i].address;
    L.RejoinStartsFromZero(s.ledger, i, name);
    var parted := OneStepLeads(s, ecrecover, ReplayMessage(L.Part(a)));
    mid := OneStepLeads(parted, ecrecover, ReplayMessage(L.Join(a, name)));
    LeadsOn(s, ecrecover, parted, mid);
    L.ApplyKeepsValid(s.ledger, L.Part(a));
    L.ApplyKeepsValid(parted.ledger, L.Join(a, name));
  }

  // ----- such states exist

  lemma StartIsReachable(vault: V.Vault, admin: Address, adminFee: nat, ecrecover: V.Recover)
    requires IsNew(vault) && adminFee <= L.ONE
    ensures Safe(Start(vault, admin, adminFee)) && Reachable(Start(vault, admin, adminFee), ecrecover)
  {
    hide Safe, Leads, V.Accounted;
    StartIsSafe(vault, admin, adminFee);
    NoStepsLead(Start(vault, admin, adminFee), ecrecover);
    assert StartsAndLeads(vault, admin, adminFee, ecrecover, Start(vault, admin, adminFee));
  }

  lemma SoleMemberGetsAll(l: L.Ledger, amount: nat)
    requires L.Valid(l) && l.adminFee == 0 && |l.members| == 2 && !l.members[0].active && l.members[1].active
    requires l.members[1].earnings == 0 && l.admin == L.Listed(0)
    ensures var paid := L.AddRevenue(l, amount).members;
            |paid| == 2 && paid[1] == l.members[1].(earnings := amount) && paid[0] == l.members[0]
  {
    assert l.members[..1] == [l.members[0]] && L.ActiveCount([l.members[0]]) == 0;
    assert L.ActiveCount(l.members) == 1;
    assert L.AdminShare(l, amount) == 0;
  }

  /** A new data union without fee, in which one member has joined and one transfer has come. */
  lemma EarnerIsReachable(vault: V.Vault, admin: Address, a: Address, amount: V.Word, ecrecover: V.Recover)
    returns (s: System)
    requires IsNew(vault) && a != admin && amount > 0
    ensures Reachable(s, ecrecover) && s.queue.inProgress.None? && s.files.blocks == map[]
            && s.vault.committedHash == map[]
    ensures |s.ledger.members| == 2 && s.ledger.members[0].address == admin
    ensures s.ledger.members[1] == Member("", a, amount, true)
  {
    hide Safe, Reachable, Leads, L.Valid, V.Accounted;
    var start := Start(vault, admin, 0);
    StartIsReachable(vault, admin, 0, ecrecover);
    assert start.ledger.members == [Member("admin", admin, 0, false)];
    assert a !in start.ledger.indexOf;
    var tx := V.Tx(vault.self + 1, 0, V.MintTokens(vault.self, amount));
    var minted := OneStepLeads(start, ecrecover, Transact(tx));
    ReachableOn(start, ecrecover, minted);
    var joined := OneStepLeads(minted, ecrecover, ReplayMessage(L.Join(a, "")));
    ReachableOn(minted, ecrecover, joined);
    assert joined.inbox == [amount] && joined.ledger.members[1] == Member("", a, 0, true);
    LedgerIsValid(joined);
    SoleMemberGetsAll(joined.ledger, amount);
    s := OneStepLeads(joined, ecrecover, ReplayTransfer(0));
    ReachableOn(joined, ecrecover, s);
  }

  /** So every new data union can come to a stored block with a payslip that the contract refuses. */
  lemma RefusedPayslipIsReachable(vault: V.Vault, admin: Address, a: Address, ecrecover: V.Recover)
    returns (end: System)
    requires IsNew(vault) && a != admin
    ensures Reachable(end, ecrecover) && 1 in end.files.blocks && RefusedPayslip(end, 1, 1)
  {
    hide Safe, Reachable, Leads, RefusedPayslip;
    var s := EarnerIsReachable(vault, admin, a, 1, ecrecover);
    end := RejoinSpoilsPayslip(s, ecrecover, 1, "", 1, 1);
  }

  // ----- what a rejoined address can be paid

  /** The contract keeps one number for each account, so from a block an address can be proven no more than its
      greatest entry, and exactly that much; it is all that its entries have earned exactly if at most one of them
      has earned anything. */
  lemma RejoinedIsProvenGreatestEntry(s: System, ecrecover: V.Recover, n: nat, a: Address)
    requires Reachable(s, ecrecover) && n in s.snapshots
    requires exists i :: 0 <= i < |s.snapshots[n]| && s.snapshots[n][i].address == a
    requires L.Greatest(s.snapshots[n], a) < V.TWO_256
    ensures exists proof :: V.ProofIsCorrect(s.vault, n, a, L.Greatest(s.snapshots[n], a), proof) == Success(true)
    ensures forall balance: V.Word, proof ::
              V.ProofIsCorrect(s.vault, n, a, balance, proof) == Success(true) ==>
                balance <= L.Greatest(s.snapshots[n], a)
    ensures L.Greatest(s.snapshots[n], a) == L.SumOfAddress(s.snapshots[n], a) <==> L.AtMostOneEarned(s.snapshots[n], a)
  {
    hide Safe, Reachable, V.ProofIsCorrect, L.Greatest, L.SumOfAddress, L.AtMostOneEarned;
    var members := s.snapshots[n];
    L.GreatestIsGreatest(members, a);
    L.GreatestIsAllExactlyWhen(members, a);
    var i :| 0 <= i < |members| && members[i].address == a && members[i].earnings == L.Greatest(members, a);
    assert HasEntry(members, a, L.Greatest(members, a));
    ProvableAreTheEntries(s, ecrecover, n, a, L.Greatest(members, a));
    forall balance: V.Word, proof | V.ProofIsCorrect(s.vault, n, a, balance, proof) == Success(true)
      ensures balance <= L.Greatest(members, a)
    {
      ProvableAreTheEntries(s, ecrecover, n, a, balance);
      assert HasEntry(members, a, balance);
    }
  }
}
