/** What a run of the ledger comes to, in terms of the operations alone: its fee, its total, its admin, its entries. */
module LedgerRuns {
  import opened Wrappers
  import opened Members
  import opened Ledgers

  // ----- the fee

  /** A fee within bounds is taken, any other is refused; nothing else changes. */
  lemma FeeIsTakenExactlyIfWithinBounds(l: Ledger, adminFee: int)
    requires Valid(l)
    ensures SetAdminFee(l, adminFee).Success? <==> 0 <= adminFee <= ONE
    ensures 0 <= adminFee <= ONE ==> SetAdminFee(l, adminFee) == Success(l.(adminFee := adminFee))
    ensures Apply(l, FeeChange(adminFee)) == if 0 <= adminFee <= ONE then l.(adminFee := adminFee) else l
  {
  }

  /** The last fee within bounds that a run sets. */
  function FeeSet(ops: seq<Op>, n: nat, initially: nat): nat
    requires n <= |ops|
  {
    if n == 0 then initially
    else if ops[n - 1].FeeChange? && 0 <= ops[n - 1].adminFee <= ONE then ops[n - 1].adminFee
    else FeeSet(ops, n - 1, initially)
  }

  lemma StepDecidesFee(l: Ledger, op: Op)
    requires Valid(l)
    ensures Apply(l, op).adminFee ==
            if op.FeeChange? && 0 <= op.adminFee <= ONE then op.adminFee else l.adminFee
  {
    hide Valid, ActiveCount, AdminShare, MemberShare, CreditActive;
  }

  /** After any run the fee is the last one within bounds that was set. */
  lemma {:induction false} FeeIsLastSet(l: Ledger, ops: seq<Op>, n: nat)
    requires Valid(l) && n <= |ops|
    ensures After(l, ops, n).adminFee == FeeSet(ops, n, l.adminFee)
  {
    hide Apply, Valid, After;
    if n == 0 {
      AfterNone(l, ops);
    } else {
      FeeIsLastSet(l, ops, n - 1);
      AfterOneMore(l, ops, n);
      StepDecidesFee(After(l, ops, n - 1), ops[n - 1]);
    }
  }

  /** A payout in a run, while somebody is active, pays a listed admin the largest whole amount within the fee that was
      set last, and its share if it is active itself; every other active entry gets the same share. */
  lemma AdminIsPaidTheLastFee(l: Ledger, ops: seq<Op>, n: nat, i: nat) returns (fee: nat, share: nat)
    requires Valid(l) && n < |ops| && ops[n].Revenue? && i < |After(l, ops, n).members|
    requires ActiveCount(After(l, ops, n).members) > 0
    ensures i < |After(l, ops, n + 1).members|
    ensures var before := After(l, ops, n);
            && fee * ONE <= ops[n].amount * FeeSet(ops, n, l.adminFee) < (fee + 1) * ONE
            && share * ActiveCount(before.members) <= ops[n].amount - fee < (share + 1) * ActiveCount(before.members)
            && After(l, ops, n + 1).members[i].earnings ==
               before.members[i].earnings + (if before.admin == Listed(i) then fee else 0)
                 + (if before.members[i].active then share else 0)
  {
    hide Valid, After, ActiveCount, FeeSet;
    FeeIsLastSet(l, ops, n);
    AfterOneMore(l, ops, n + 1);
    var before := After(l, ops, n);
    assert Apply(before, ops[n]) == AddRevenue(before, ops[n].amount);
    hide Apply, AddRevenue;
    AddRevenueKeepsValid(before, ops[n].amount);
    fee, share := PayoutPaysDues(before, ops[n].amount, i);
  }

  // ----- the recorded total

  /** The payouts of a run that find somebody active. */
  ghost function Recorded(l: Ledger, ops: seq<Op>, n: nat): nat
    requires Valid(l) && n <= |ops|
  {
    if n == 0 then 0
    else
      Recorded(l, ops, n - 1) + if ops[n - 1].Revenue? && SomeoneIsActive(After(l, ops, n - 1).members)
      then ops[n - 1].amount else 0
  }

  ghost predicate SomeoneIsActive(members: seq<Member>) {
    exists i :: 0 <= i < |members| && members[i].active
  }

  lemma StepDecidesTotal(l: Ledger, op: Op)
    requires Valid(l)
    ensures Apply(l, op).totalEarnings ==
            l.totalEarnings + if op.Revenue? && SomeoneIsActive(l.members) then op.amount else 0
  {
    if op.Revenue? {
      TotalEarningsMissesIdlePayouts(l, op.amount);
    }
    hide Valid, AddRevenue;
  }

  /** In every run the recorded total grows by exactly the payouts that find somebody active: joins, parts and fee
      changes leave it alone. */
  lemma {:induction false} TotalIsWhatWasRecorded(l: Ledger, ops: seq<Op>, n: nat)
    requires Valid(l) && n <= |ops|
    ensures After(l, ops, n).totalEarnings == l.totalEarnings + Recorded(l, ops, n)
  {
    hide Apply, Valid, After, SomeoneIsActive;
    if n == 0 {
      AfterNone(l, ops);
    } else {
      TotalIsWhatWasRecorded(l, ops, n - 1);
      AfterOneMore(l, ops, n);
      StepDecidesTotal(After(l, ops, n - 1), ops[n - 1]);
    }
  }

  // ----- the admin

  lemma StepDecidesAdmin(l: Ledger, op: Op)
    requires Valid(l)
    ensures Apply(l, op).adminAddress == l.adminAddress
    ensures Apply(l, op).admin.Listed? <==> l.admin.Listed? && op != Part(l.adminAddress)
    ensures Apply(l, op).admin.Listed? ==> Apply(l, op).admin == l.admin
    ensures l.admin.Listed? && op == Part(l.adminAddress) ==>
              Apply(l, op).admin == Detached(l.members[l.admin.index])
  {
    hide ActiveCount, AdminShare, MemberShare, CreditActive, ActiveIndexed;
  }

  /** The admin object leaves the list exactly by a part of the admin's address, and no join brings it back. */
  lemma {:induction false} AdminLeavesExactlyByPart(l: Ledger, ops: seq<Op>, n: nat)
    requires Valid(l) && n <= |ops|
    ensures After(l, ops, n).admin.Listed? <==>
            l.admin.Listed? && forall i :: 0 <= i < n ==> ops[i] != Part(l.adminAddress)
    ensures After(l, ops, n).admin.Listed? ==> After(l, ops, n).admin == l.admin
  {
    hide Apply, Valid, After;
    if n == 0 {
      AfterNone(l, ops);
    } else {
      AdminLeavesExactlyByPart(l, ops, n - 1);
      AfterOneMore(l, ops, n);
      StepDecidesAdmin(After(l, ops, n - 1), ops[n - 1]);
    }
  }

  /** What the entries have earned together with what the admin object has since it left the list. */
  function AllEarned(l: Ledger): nat {
    SumEarnings(l.members) + if l.admin.Detached? then l.admin.member.earnings else 0
  }

  /** What was credited to a detached admin is in no entry. */
  lemma StepEarns(l: Ledger, op: Op)
    requires Valid(l) && l.admin.Detached?
    ensures Valid(Apply(l, op)) && Apply(l, op).admin.Detached?
    ensures AllEarned(Apply(l, op)) ==
            AllEarned(l) + Received(op) - if op.Revenue? then Dust(l, op.amount) else 0
  {
    ApplyKeepsValid(l, op);
    if op.Revenue? {
      PayoutOfDetached(l, op.amount);
    } else {
      hide ActiveCount, AdminShare, MemberShare, CreditActive, ActiveIndexed, SumEarnings;
      OthersEarnNothing(l, op);
    }
  }

  lemma OthersEarnNothing(l: Ledger, op: Op)
    requires Valid(l) && !op.Revenue?
    ensures SumEarnings(Apply(l, op).members) == SumEarnings(l.members)
  {
    hide ActiveIndexed;
    match op
    case Join(address, name) =>
      if address in l.indexOf {
        SumEarningsUpdated(l.members, l.indexOf[address], l.members[l.indexOf[address]].(active := true));
      } else {
        SumEarningsAppended(l.members, Member(name, address, 0, true));
      }
    case Part(address) =>
      if address in l.indexOf {
        SumEarningsUpdated(l.members, l.indexOf[address], l.members[l.indexOf[address]].(active := false));
      }
    case FeeChange(_) =>
  }

  lemma PayoutOfDetached(l: Ledger, amount: nat)
    requires Valid(l) && l.admin.Detached?
    ensures AddRevenue(l, amount).admin.Detached?
    ensures AllEarned(AddRevenue(l, amount)) == AllEarned(l) + amount - Dust(l, amount)
  {
    hide ActiveCount, AdminShare, SumEarnings, CreditActive, Indexed, ActiveIndexed;
    var count := ActiveCount(l.members);
    if count > 0 {
      var fee, share := AdminShare(l, amount), MemberShare(l, amount);
      CreditActiveSum(l.members, share);
      ShareTimesCount(amount - fee, count);
    }
  }

  /** Once the admin has been parted, in every run the entries and the detached admin object together have earned
      exactly all that came in, less the dust of each payout. */
  lemma {:induction false} RevenueIsConservedAfterThePart(l: Ledger, ops: seq<Op>, n: nat)
    requires Valid(l) && n <= |ops| && l.admin.Detached?
    ensures After(l, ops, n).admin.Detached?
    ensures AllEarned(After(l, ops, n)) == AllEarned(l) + TotalReceived(ops, n) - TotalDust(l, ops, n)
  {
    hide Apply, Valid, After, AllEarned, Dust;
    if n == 0 {
      AfterNone(l, ops);
    } else {
      RevenueIsConservedAfterThePart(l, ops, n - 1);
      AfterOneMore(l, ops, n);
      StepEarns(After(l, ops, n - 1), ops[n - 1]);
    }
  }

  // ----- entries

  function EntryCount(members: seq<Member>, a: Address): nat {
    if members == [] then 0
    else EntryCount(members[..|members| - 1], a) + if members[|members| - 1].address == a then 1 else 0
  }

  /** How often an address joins in a run while it is not indexed, that is, anew or after a part. */
  function NewJoins(ops: seq<Op>, n: nat, a: Address, indexed: bool): nat
    requires n <= |ops|
  {
    if n == 0 then 0
    else
      NewJoins(ops, n - 1, a, indexed) +
      match ops[n - 1]
      case Join(address, _) => if address == a && !Joined(ops, n - 1, a, indexed) then 1 else 0
      case _ => 0
  }

  lemma {:induction false} SameAddressesSameCount(x: seq<Member>, y: seq<Member>, a: Address)
    requires |x| == |y| && forall i :: 0 <= i < |x| ==> x[i].address == y[i].address
    ensures EntryCount(x, a) == EntryCount(y, a)
  {
    if x != [] {
      var last := |x| - 1;
      assert forall i :: 0 <= i < last ==> x[..last][i] == x[i] && y[..last][i] == y[i];
      SameAddressesSameCount(x[..last], y[..last], a);
    }
  }

  lemma EntryCountAppended(members: seq<Member>, m: Member, a: Address)
    ensures EntryCount(members + [m], a) == EntryCount(members, a) + if m.address == a then 1 else 0
  {
    assert (members + [m])[..|members|] == members;
  }

  lemma StepDecidesEntries(l: Ledger, op: Op, a: Address)
    requires Valid(l)
    ensures a in Apply(l, op).indexOf <==>
            match op
            case Join(address, _) => address == a || a in l.indexOf
            case Part(address) => address != a && a in l.indexOf
            case _ => a in l.indexOf
    ensures EntryCount(Apply(l, op).members, a) ==
            EntryCount(l.members, a) + if op.Join? && op.address == a && a !in l.indexOf then 1 else 0
  {
    hide ActiveCount, AdminShare, MemberShare, ActiveIndexed, EntryCount;
    match op
    case Join(address, name) =>
      if address !in l.indexOf {
        EntryCountAppended(l.members, Member(name, address, 0, true), a);
      } else {
        SameAddressesSameCount(l.members, Apply(l, op).members, a);
      }
    case _ => SameAddressesSameCount(l.members, Apply(l, op).members, a);
  }

  /** After any run an address has one more entry for each time it joined anew or after a part: a join never makes a
      second entry for an address that is indexed, active or not, and no operation takes an entry away. */
  lemma {:induction false} EntriesAreNewJoins(l: Ledger, ops: seq<Op>, n: nat, a: Address)
    requires Valid(l) && n <= |ops|
    ensures a in After(l, ops, n).indexOf <==> Joined(ops, n, a, a in l.indexOf)
    ensures EntryCount(After(l, ops, n).members, a) == EntryCount(l.members, a) + NewJoins(ops, n, a, a in l.indexOf)
  {
    hide Apply, Valid, After, EntryCount;
    if n == 0 {
      AfterNone(l, ops);
    } else {
      EntriesAreNewJoins(l, ops, n - 1, a);
      AfterOneMore(l, ops, n);
      StepDecidesEntries(After(l, ops, n - 1), ops[n - 1], a);
    }
  }
}
