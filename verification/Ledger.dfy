/** The revenue ledger as a value: who has earned what, and how joins, parts and payouts change it. */
module Ledgers {
  import opened Wrappers
  import opened Members

  const ONE: nat := 1_000_000_000_000_000_000

  datatype LedgerError = BadAdminFee

  /** The object that admin revenue goes to: an entry of the member list, or an object that has left the list. */
  datatype AdminRef = Listed(index: nat) | Detached(member: Member)

  datatype Ledger = Ledger(
    members: seq<Member>,
    indexOf: map<Address, nat>,
    admin: AdminRef,
    adminAddress: Address,
    adminFee: nat,
    totalEarnings: nat)

  // ----- operations

  /** A new ledger indexes every given member, active or not, and adds an inactive admin if there is none. */
  function New(initial: seq<Member>, adminAddress: Address, adminFee: nat, totalEarnings: nat): Ledger {
    var indexOf := IndexOf(initial, 0);
    if adminAddress in indexOf then
      Ledger(initial, indexOf, Listed(indexOf[adminAddress]), adminAddress, adminFee, totalEarnings)
    else
      Ledger(initial + [Member("admin", adminAddress, 0, false)], indexOf[adminAddress := |initial|], Listed(|initial|),
             adminAddress, adminFee, totalEarnings)
  }

  function Clone(l: Ledger): Ledger {
    New(l.members, l.adminAddress, l.adminFee, l.totalEarnings)
  }

  function Paid(m: Member, amount: nat): Member {
    m.(earnings := m.earnings + amount)
  }

  function CreditAdmin(l: Ledger, amount: nat): Ledger
    requires AdminInList(l)
  {
    match l.admin
    case Listed(i) => l.(members := l.members[i := Paid(l.members[i], amount)])
    case Detached(m) => l.(admin := Detached(Paid(m, amount)))
  }

  function CreditActive(members: seq<Member>, share: nat): (r: seq<Member>)
    ensures |r| == |members|
    ensures forall i :: 0 <= i < |r| ==> r[i] == if members[i].active then Paid(members[i], share) else members[i]
  {
    if members == [] then []
    else
      var m := members[|members| - 1];
      CreditActive(members[..|members| - 1], share) + [if m.active then Paid(m, share) else m]
  }

  function ActiveCount(members: seq<Member>): nat {
    if members == [] then 0
    else ActiveCount(members[..|members| - 1]) + if members[|members| - 1].active then 1 else 0
  }

  function AdminShare(l: Ledger, amount: nat): (share: nat)
    requires l.adminFee <= ONE
    ensures share <= amount
  {
    FractionAtMostWhole(amount, l.adminFee);
    amount * l.adminFee / ONE
  }

  function MemberShare(l: Ledger, amount: nat): nat
    requires l.adminFee <= ONE && ActiveCount(l.members) > 0
  {
    (amount - AdminShare(l, amount)) / ActiveCount(l.members)
  }

  function AddRevenue(l: Ledger, amount: nat): Ledger
    requires Valid(l)
  {
    if ActiveCount(l.members) == 0 then CreditAdmin(l, amount)
    else
      var credited := CreditAdmin(l, AdminShare(l, amount));
      credited.(members := CreditActive(credited.members, MemberShare(l, amount)), totalEarnings := l.totalEarnings +
        amount)
  }

  /** Appends an address that is not indexed, even if it has an old entry; re-activates one that is. */
  function AddMember(l: Ledger, address: Address, name: string): Ledger
    requires Indexed(l)
  {
    if address !in l.indexOf then
      l.(members := l.members + [Member(name, address, 0, true)], indexOf := l.indexOf[address := |l.members|])
    else
      var i := l.indexOf[address];
      l.(members := l.members[i := l.members[i].(active := true)])
  }

  /** De-activates a copy of the entry and forgets its index. The admin object is not the copy. */
  function RemoveMember(l: Ledger, address: Address): Ledger
    requires Indexed(l)
  {
    if address !in l.indexOf then l
    else
      var i := l.indexOf[address];
      l.(members := l.members[i := l.members[i].(active := false)],
         indexOf := l.indexOf - {address},
         admin := if l.admin == Listed(i) then Detached(l.members[i]) else l.admin)
  }

  function SetAdminFee(l: Ledger, adminFee: int): Result<Ledger, LedgerError> {
    if adminFee < 0 || adminFee > ONE then Failure(BadAdminFee) else Success(l.(adminFee := adminFee))
  }

  lemma FractionAtMostWhole(amount: nat, fraction: nat)
    requires fraction <= ONE
    ensures amount * fraction / ONE <= amount
  {
    assert amount * fraction <= amount * ONE;
  }

  // ----- what every ledger keeps

  /** An index entry leads to the last entry with its address. */
  ghost predicate Indexed(l: Ledger) {
    forall a :: a in l.indexOf ==> LastWithItsAddress(l.members, l.indexOf[a]) && l.members[l.indexOf[a]].address == a
  }

  /** Every active entry can be found. */
  ghost predicate ActiveIndexed(l: Ledger) {
    forall i :: 0 <= i < |l.members| && l.members[i].active ==>
      l.members[i].address in l.indexOf && l.indexOf[l.members[i].address] == i
  }

  ghost predicate AdminInList(l: Ledger) {
    l.admin.Listed? ==> l.admin.index < |l.members| && l.members[l.admin.index].address == l.adminAddress
  }

  ghost predicate Valid(l: Ledger) {
    && Indexed(l) && ActiveIndexed(l) && AdminInList(l)
    && l.adminFee <= ONE
    && (l.admin.Listed? ==> l.adminAddress in l.indexOf && l.indexOf[l.adminAddress] == l.admin.index)
    && (exists i :: 0 <= i < |l.members| && l.members[i].address == l.adminAddress)
  }

  /** Entries are never lost, re-addressed or reduced. */
  ghost predicate Extends(before: seq<Member>, after: seq<Member>) {
    && |before| <= |after|
    && forall i :: 0 <= i < |before| ==>
       before[i].address == after[i].address && before[i].earnings <= after[i].earnings
  }

  lemma ExtendsItself(a: seq<Member>)
    ensures Extends(a, a)
  {
  }

  lemma ExtendsIsTransitive(a: seq<Member>, b: seq<Member>, c: seq<Member>)
    requires Extends(a, b) && Extends(b, c)
    ensures Extends(a, c)
  {
  }

  lemma {:induction false} ActiveCountIsZeroExactlyIfNone(members: seq<Member>)
    ensures ActiveCount(members) == 0 <==> forall i :: 0 <= i < |members| ==> !members[i].active
  {
    if members != [] {
      ActiveCountIsZeroExactlyIfNone(members[..|members| - 1]);
      assert forall i :: 0 <= i < |members| - 1 ==> members[..|members| - 1][i] == members[i];
    }
  }

  /** Every list can start a ledger that keeps the invariant exactly if its active entries are the last with their
      address. */
  lemma NewIsValidExactlyWhen(initial: seq<Member>, adminAddress: Address, adminFee: nat, totalEarnings: nat)
    ensures Valid(New(initial, adminAddress, adminFee, totalEarnings)) <==>
            adminFee <= ONE && forall i :: 0 <= i < |initial| && initial[i].active ==> LastWithItsAddress(initial, i)
  {
    NewIsIndexed(initial, adminAddress, adminFee, totalEarnings);
    NewIsActiveIndexedExactlyWhen(initial, adminAddress, adminFee, totalEarnings);
    hide Indexed, ActiveIndexed, IndexOf;
  }

  lemma IndexIsRight(initial: seq<Member>)
    ensures forall a :: a in IndexOf(initial, 0) ==>
                          LastWithItsAddress(initial, IndexOf(initial, 0)[a])
                          && initial[IndexOf(initial, 0)[a]].address == a
    ensures forall a, j :: a !in IndexOf(initial, 0) && 0 <= j < |initial| ==> initial[j].address != a
  {
    forall a ensures a in IndexOf(initial, 0) ==>
                       LastWithItsAddress(initial, IndexOf(initial, 0)[a])
                         && initial[IndexOf(initial, 0)[a]].address == a
             ensures a !in IndexOf(initial, 0) ==> forall j :: 0 <= j < |initial| ==> initial[j].address != a
    {
      IndexOfFindsLast(initial, 0, a);
    }
  }

  lemma NewIsIndexed(initial: seq<Member>, adminAddress: Address, adminFee: nat, totalEarnings: nat)
    ensures Indexed(New(initial, adminAddress, adminFee, totalEarnings))
    ensures var l := New(initial, adminAddress, adminFee, totalEarnings);
            && adminAddress in l.indexOf && l.admin == Listed(l.indexOf[adminAddress])
            && l.admin.index < |l.members| && l.members[l.admin.index].address == adminAddress
  {
    hide IndexOf;
    IndexIsRight(initial);
  }

  lemma NewIsActiveIndexedExactlyWhen(initial: seq<Member>, adminAddress: Address, adminFee: nat, totalEarnings: nat)
    ensures ActiveIndexed(New(initial, adminAddress, adminFee, totalEarnings)) <==>
            forall i :: 0 <= i < |initial| && initial[i].active ==> LastWithItsAddress(initial, i)
  {
    hide IndexOf;
    IndexIsRight(initial);
    var l := New(initial, adminAddress, adminFee, totalEarnings);
    if ActiveIndexed(l) {
      forall i | 0 <= i < |initial| && initial[i].active
        ensures LastWithItsAddress(initial, i)
      {
        assert l.members[i] == initial[i];
      }
    }
    if forall i :: 0 <= i < |initial| && initial[i].active ==> LastWithItsAddress(initial, i) {
      forall i | 0 <= i < |l.members| && l.members[i].active
        ensures l.members[i].address in l.indexOf && l.indexOf[l.members[i].address] == i
      {
        assert i < |initial| && initial[i] == l.members[i];
        assert LastWithItsAddress(initial, IndexOf(initial, 0)[initial[i].address]);
      }
    }
  }

  lemma AddMemberKeepsValid(l: Ledger, address: Address, name: string)
    requires Valid(l)
    ensures Valid(AddMember(l, address, name)) && Extends(l.members, AddMember(l, address, name).members)
  {
    var n := AddMember(l, address, name);
    var k :| 0 <= k < |l.members| && l.members[k].address == l.adminAddress;
    assert n.members[k].address == l.adminAddress;
  }

  lemma RemoveMemberKeepsValid(l: Ledger, address: Address)
    requires Valid(l)
    ensures Valid(RemoveMember(l, address)) && Extends(l.members, RemoveMember(l, address).members)
  {
    var n := RemoveMember(l, address);
    var k :| 0 <= k < |l.members| && l.members[k].address == l.adminAddress;
    assert n.members[k].address == l.adminAddress;
  }

  /** The indexed entries and who is active only depend on addresses and flags. */
  lemma SameButEarnings(l: Ledger, n: Ledger)
    requires Valid(l) && |n.members| == |l.members|
    requires forall i :: 0 <= i < |l.members| ==>
               n.members[i] == l.members[i].(earnings := n.members[i].earnings)
                 && l.members[i].earnings <= n.members[i].earnings
    requires n.indexOf == l.indexOf && n.adminAddress == l.adminAddress && n.adminFee == l.adminFee
    requires if l.admin.Listed? then n.admin == l.admin else n.admin.Detached?
    ensures Valid(n) && Extends(l.members, n.members)
  {
    var k :| 0 <= k < |l.members| && l.members[k].address == l.adminAddress;
    assert n.members[k].address == l.adminAddress;
    forall a | a in n.indexOf
      ensures LastWithItsAddress(n.members, n.indexOf[a]) && n.members[n.indexOf[a]].address == a
    {
      assert LastWithItsAddress(l.members, l.indexOf[a]);
    }
  }

  lemma AddRevenueKeepsValid(l: Ledger, amount: nat)
    requires Valid(l)
    ensures Valid(AddRevenue(l, amount)) && Extends(l.members, AddRevenue(l, amount).members)
  {
    SameButEarnings(l, AddRevenue(l, amount));
  }

  /** No two active entries have the same address. */
  lemma ActiveAddressesAreDistinct(l: Ledger, i: nat, j: nat)
    requires Valid(l) && i < |l.members| && j < |l.members| && l.members[i].active && l.members[j].active
    requires l.members[i].address == l.members[j].address
    ensures i == j
  {
  }

  // ----- clones

  /** A clone lists the same entries, so it has the same snapshots and the same active members. */
  lemma CloneListsTheSame(l: Ledger)
    requires Valid(l)
    ensures Clone(l).members == l.members && Valid(Clone(l))
    ensures Clone(l).admin.Listed? && Clone(l).adminFee == l.adminFee && Clone(l).totalEarnings == l.totalEarnings
  {
    NewIsValidExactlyWhen(l.members, l.adminAddress, l.adminFee, l.totalEarnings);
    IndexOfFindsLast(l.members, 0, l.adminAddress);
    assert Clone(l).members == l.members;
    forall i | 0 <= i < |l.members| && l.members[i].active
      ensures LastWithItsAddress(l.members, i)
    {
      assert l.indexOf[l.members[i].address] == i;
    }
  }

  /** A clone is the same ledger exactly if nobody has been parted without a trace in the index, and the admin
      least of all. */
  lemma CloneIsTheSameExactlyWhen(l: Ledger)
    requires Valid(l)
    ensures Clone(l) == l <==>
            l.admin.Listed? && forall i :: 0 <= i < |l.members| ==> l.members[i].address in l.indexOf
  {
    CloneIsIndexed(l);
    hide Valid, Clone, IndexOf;
    if l.admin.Listed? && forall i :: 0 <= i < |l.members| ==> l.members[i].address in l.indexOf {
      forall a ensures a in Clone(l).indexOf <==> a in l.indexOf {
        CloneIndexes(l, a);
      }
      assert Clone(l).indexOf == l.indexOf;
    }
    if Clone(l) == l {
      forall i | 0 <= i < |l.members| ensures l.members[i].address in l.indexOf {
        CloneIndexes(l, l.members[i].address);
      }
    }
  }

  /** A clone differs in its index and its admin only; where both index an address, they agree. */
  lemma CloneIsIndexed(l: Ledger)
    requires Valid(l)
    ensures Clone(l) == l.(indexOf := Clone(l).indexOf, admin := Clone(l).admin)
    ensures Clone(l).admin.Listed? && (l.admin.Listed? ==> Clone(l).admin == l.admin)
    ensures forall a :: a in Clone(l).indexOf && a in l.indexOf ==> Clone(l).indexOf[a] == l.indexOf[a]
  {
    CloneListsTheSame(l);
    CloneKeepsListedAdmin(l);
    hide IndexOf;
    forall a | a in Clone(l).indexOf && a in l.indexOf ensures Clone(l).indexOf[a] == l.indexOf[a] {
      IndexOfFindsLast(l.members, 0, a);
      IndexOfFindsLast(l.members, 0, l.adminAddress);
    }
  }

  /** A clone indexes every address that has an entry. */
  lemma CloneIndexes(l: Ledger, a: Address)
    requires Valid(l)
    ensures a in Clone(l).indexOf <==> exists i :: 0 <= i < |l.members| && l.members[i].address == a
    ensures a in l.indexOf ==> a in Clone(l).indexOf
  {
    hide IndexOf;
    IndexOfFindsLast(l.members, 0, a);
    IndexOfFindsLast(l.members, 0, l.adminAddress);
  }

  /** A join gives a ledger and its clone the same entries exactly if the address is indexed or new. If it was
      parted, the ledger gets a second entry, and the clone re-activates the old one. */
  lemma CloneTreatsJoinAlikeExactlyWhen(l: Ledger, address: Address, name: string)
    requires Valid(l)
    ensures Valid(Clone(l))
    ensures AddMember(Clone(l), address, name).members == AddMember(l, address, name).members <==>
            address in l.indexOf || forall i :: 0 <= i < |l.members| ==> l.members[i].address != address
    ensures address !in l.indexOf && (exists i :: 0 <= i < |l.members| && l.members[i].address == address) ==>
              && |AddMember(l, address, name).members| == |l.members| + 1
              && |AddMember(Clone(l), address, name).members| == |l.members|
  {
    CloneListsTheSame(l);
    IndexOfFindsLast(l.members, 0, address);
  }

  /** What a payout gives the admin. */
  function AdminDue(l: Ledger, amount: nat): nat
    requires l.adminFee <= ONE
  {
    if ActiveCount(l.members) == 0 then amount else AdminShare(l, amount)
  }

  /** A payout gives a ledger and its clone the same entries exactly if the admin was not parted or is due nothing: the
      clone lists a parted admin again. */
  lemma CloneTreatsPayoutAlikeExactlyWhen(l: Ledger, amount: nat)
    requires Valid(l)
    ensures Valid(Clone(l))
    ensures AddRevenue(Clone(l), amount).members == AddRevenue(l, amount).members <==>
            l.admin.Listed? || AdminDue(l, amount) == 0
    ensures SumEarnings(AddRevenue(Clone(l), amount).members) ==
            SumEarnings(AddRevenue(l, amount).members) + if l.admin.Listed? then 0 else AdminDue(l, amount)
  {
    hide Valid, Clone, AddRevenue, CreditAdmin, CreditActive, SumEarnings, ActiveCount, AdminShare, MemberShare;
    var c := Clone(l);
    CloneListsTheSame(l);
    CloneKeepsListedAdmin(l);
    PayoutSum(l, amount);
    PayoutSum(c, amount);
    SamePayout(l, c, amount);
    SameAdminSameCredit(l, c, AdminDue(l, amount));
    if AdminDue(l, amount) == 0 {
      NothingPaid(l);
      NothingPaid(c);
    }
  }

  lemma CloneKeepsListedAdmin(l: Ledger)
    requires Valid(l)
    ensures AdminInList(l) && AdminInList(Clone(l)) && l.adminFee <= ONE
    ensures l.admin.Listed? ==> Clone(l).admin == l.admin
  {
    CloneListsTheSame(l);
    IndexOfFindsLast(l.members, 0, l.adminAddress);
  }

  lemma SameAdminSameCredit(l: Ledger, n: Ledger, amount: nat)
    requires AdminInList(l) && AdminInList(n) && n.members == l.members
    ensures n.admin == l.admin ==> CreditAdmin(n, amount).members == CreditAdmin(l, amount).members
  {
  }

  /** What a payout does to the entries depends on the entries, the fee, and what the admin's part does to them. */
  lemma SamePayout(l: Ledger, n: Ledger, amount: nat)
    requires Valid(l) && Valid(n) && n.members == l.members && n.adminFee == l.adminFee
    ensures AdminDue(n, amount) == AdminDue(l, amount)
    ensures ActiveCount(l.members) > 0 ==> MemberShare(n, amount) == MemberShare(l, amount)
    ensures CreditAdmin(n, AdminDue(l, amount)).members == CreditAdmin(l, AdminDue(l, amount)).members ==>
              AddRevenue(n, amount).members == AddRevenue(l, amount).members
  {
    hide CreditAdmin, CreditActive, ActiveCount;
  }

  /** Every part makes the ledger and its clone differ, and a join of the same address then treats them differently. */
  lemma PartMakesCloneDiffer(l: Ledger, address: Address, name: string)
    requires Valid(l) && address in l.indexOf
    ensures var parted := Apply(l, Part(address));
            && Valid(parted) && Valid(Clone(parted)) && Clone(parted) != parted
            && Apply(Clone(parted), Join(address, name)).members != Apply(parted, Join(address, name)).members
  {
    var parted := RemoveMember(l, address);
    RemoveMemberKeepsValid(l, address);
    assert parted.members[l.indexOf[address]].address == address && address !in parted.indexOf;
    hide Valid, Clone;
    CloneIsTheSameExactlyWhen(parted);
    CloneTreatsJoinAlikeExactlyWhen(parted, address, name);
  }

  /** If the admin is parted, so does every payout of which it is due something. */
  lemma AdminPartMakesCloneDiffer(l: Ledger, amount: nat)
    requires Valid(l) && l.admin.Listed?
    ensures var parted := Apply(l, Part(l.adminAddress));
            && Valid(parted) && Valid(Clone(parted))
            && (AdminDue(parted, amount) > 0 ==>
                  Apply(Clone(parted), Revenue(amount)).members != Apply(parted, Revenue(amount)).members)
  {
    RemoveMemberKeepsValid(l, l.adminAddress);
    var parted := RemoveMember(l, l.adminAddress);
    assert parted.admin.Detached?;
    hide Valid, Clone;
    CloneTreatsPayoutAlikeExactlyWhen(parted, amount);
  }

  lemma NothingPaid(l: Ledger)
    requires AdminInList(l)
    ensures CreditAdmin(l, 0).members == l.members
  {
  }

  // ----- revenue

  /** What a payout leaves undistributed. */
  function Dust(l: Ledger, amount: nat): nat
    requires Valid(l)
  {
    if ActiveCount(l.members) == 0 then 0 else (amount - AdminShare(l, amount)) % ActiveCount(l.members)
  }

  lemma {:induction false} CreditActiveSum(members: seq<Member>, share: nat)
    ensures SumEarnings(CreditActive(members, share)) == SumEarnings(members) + share * ActiveCount(members)
    ensures ActiveCount(CreditActive(members, share)) == ActiveCount(members)
  {
    if members != [] {
      var rest, m := members[..|members| - 1], members[|members| - 1];
      var credited := CreditActive(rest, share);
      CreditActiveSum(rest, share);
      if m.active {
        CreditOneMore(credited, Paid(m, share), share, ActiveCount(rest));
      } else {
        CreditOneMore(credited, m, share, ActiveCount(rest));
      }
    }
  }

  lemma CreditOneMore(credited: seq<Member>, m: Member, share: nat, count: nat)
    ensures SumEarnings(credited + [m]) == SumEarnings(credited) + m.earnings
    ensures ActiveCount(credited + [m]) == ActiveCount(credited) + if m.active then 1 else 0
    ensures share * (count + 1) == share * count + share
  {
    SumEarningsAppended(credited, m);
    assert (credited + [m])[..|credited|] == credited;
  }

  lemma {:induction false} ActiveCountAfterPay(members: seq<Member>, i: nat, amount: nat)
    requires i < |members|
    ensures ActiveCount(members[i := Paid(members[i], amount)]) == ActiveCount(members)
  {
    var last := |members| - 1;
    if i == last {
      assert members[i := Paid(members[i], amount)][..last] == members[..last];
    } else {
      assert members[i := Paid(members[i], amount)][..last] == members[..last][i := Paid(members[i], amount)];
      ActiveCountAfterPay(members[..last], i, amount);
    }
  }

  lemma CreditAdminSum(l: Ledger, amount: nat)
    requires AdminInList(l)
    ensures SumEarnings(CreditAdmin(l, amount).members) ==
            SumEarnings(l.members) + if l.admin.Listed? then amount else 0
    ensures ActiveCount(CreditAdmin(l, amount).members) == ActiveCount(l.members)
  {
    if l.admin.Listed? {
      var i := l.admin.index;
      SumEarningsUpdated(l.members, i, Paid(l.members[i], amount));
      ActiveCountAfterPay(l.members, i, amount);
    }
  }

  lemma ShareTimesCount(whole: nat, count: nat)
    requires count > 0
    ensures whole / count * count == whole - whole % count
    ensures whole % count < count
  {
  }

  /** A payout hands out all but dust, and the dust is less than one unit per active member. What goes to a
      detached admin is not in the list. */
  lemma RevenueIsHandedOut(l: Ledger, amount: nat)
    requires Valid(l)
    ensures var paid := SumEarnings(AddRevenue(l, amount).members) - SumEarnings(l.members);
            && (l.admin.Listed? ==> paid == amount - Dust(l, amount))
            && paid <= amount
    ensures if ActiveCount(l.members) == 0 then Dust(l, amount) == 0 else Dust(l, amount) < ActiveCount(l.members)
  {
    hide ActiveCount, AdminShare, SumEarnings, CreditActive, CreditAdmin;
    var count := ActiveCount(l.members);
    if count == 0 {
      CreditAdminSum(l, amount);
    } else {
      var fee, share := AdminShare(l, amount), MemberShare(l, amount);
      CreditAdminSum(l, fee);
      CreditActiveSum(CreditAdmin(l, fee).members, share);
      ShareTimesCount(amount - fee, count);
    }
  }

  lemma QuotientIs(x: nat, d: nat)
    requires d > 0
    ensures x / d * d <= x < (x / d + 1) * d
  {
  }

  /** A payout pays each entry exactly its dues: with someone active, the admin gets the largest whole amount
      within the fee fraction, and every active entry the largest equal share of the rest; with nobody active, the
      admin gets all. */
  lemma PayoutPaysDues(l: Ledger, amount: nat, i: nat) returns (fee: nat, share: nat)
    requires Valid(l) && i < |l.members|
    ensures AddRevenue(l, amount).members[i] ==
            Paid(l.members[i], (if l.admin == Listed(i) then fee else 0) + if l.members[i].active then share else 0)
    ensures l.admin.Detached? ==> AddRevenue(l, amount).admin == Detached(Paid(l.admin.member, fee))
    ensures ActiveCount(l.members) == 0 ==> fee == amount && !l.members[i].active
    ensures ActiveCount(l.members) > 0 ==>
              && fee * ONE <= amount * l.adminFee < (fee + 1) * ONE
              && share * ActiveCount(l.members) <= amount - fee < (share + 1) * ActiveCount(l.members)
  {
    ActiveCountIsZeroExactlyIfNone(l.members);
    hide ActiveCount, CreditActive, AdminShare, MemberShare, Indexed, ActiveIndexed;
    if ActiveCount(l.members) == 0 {
      fee, share := amount, 0;
    } else {
      fee, share := AdminShare(l, amount), MemberShare(l, amount);
      SharesAreFloors(l, amount);
    }
  }

  lemma SharesAreFloors(l: Ledger, amount: nat)
    requires l.adminFee <= ONE && ActiveCount(l.members) > 0
    ensures var fee, share := AdminShare(l, amount), MemberShare(l, amount);
            && fee * ONE <= amount * l.adminFee < (fee + 1) * ONE
            && share * ActiveCount(l.members) <= amount - fee < (share + 1) * ActiveCount(l.members)
  {
    hide ActiveCount;
    QuotientIs(amount * l.adminFee, ONE);
    QuotientIs(amount - AdminShare(l, amount), ActiveCount(l.members));
  }

  lemma PayoutSum(l: Ledger, amount: nat)
    requires Valid(l)
    ensures SumEarnings(AddRevenue(l, amount).members) ==
            SumEarnings(l.members) + (if l.admin.Listed? then AdminDue(l, amount) else 0)
            + if ActiveCount(l.members) == 0 then 0 else MemberShare(l, amount) * ActiveCount(l.members)
  {
    hide ActiveCount, AdminShare, SumEarnings, CreditActive, CreditAdmin;
    CreditAdminSum(l, AdminDue(l, amount));
    if ActiveCount(l.members) > 0 {
      CreditActiveSum(CreditAdmin(l, AdminShare(l, amount)).members, MemberShare(l, amount));
    }
  }

  /** The recorded total grows by every payout, except by those that find nobody active. */
  lemma TotalEarningsMissesIdlePayouts(l: Ledger, amount: nat)
    requires Valid(l)
    ensures AddRevenue(l, amount).totalEarnings ==
            l.totalEarnings + if exists i :: 0 <= i < |l.members| && l.members[i].active then amount else 0
  {
    ActiveCountIsZeroExactlyIfNone(l.members);
  }

  /** The first payout of a new union, which has no members yet, is such a one: it is earned, but not recorded. */
  lemma FirstPayoutIsNotRecorded(adminAddress: Address, adminFee: nat, amount: nat)
    requires adminFee <= ONE
    ensures var l := New([], adminAddress, adminFee, 0);
            && Valid(l)
            && AddRevenue(l, amount).totalEarnings == 0 && SumEarnings(AddRevenue(l, amount).members) == amount
  {
    hide Valid, New, AddRevenue;
    NewIsValidExactlyWhen([], adminAddress, adminFee, 0);
    NewListsTheAdmin(adminAddress, adminFee);
    AdminGetsAll(New([], adminAddress, adminFee, 0), Member("admin", adminAddress, 0, false), amount);
    OnlyEntry(Paid(Member("admin", adminAddress, 0, false), amount));
  }

  lemma NewListsTheAdmin(adminAddress: Address, adminFee: nat)
    ensures var l := New([], adminAddress, adminFee, 0);
            l.members == [Member("admin", adminAddress, 0, false)] && l.admin == Listed(0) && l.totalEarnings == 0
  {
  }

  lemma AdminGetsAll(l: Ledger, admin: Member, amount: nat)
    requires Valid(l) && l.members == [admin] && l.admin == Listed(0) && !admin.active
    ensures AddRevenue(l, amount).members == [Paid(admin, amount)]
    ensures AddRevenue(l, amount).totalEarnings == l.totalEarnings
  {
    OnlyEntry(admin);
    hide ActiveCount, CreditActive, AdminShare, MemberShare, Indexed, ActiveIndexed;
  }

  lemma OnlyEntry(m: Member)
    ensures ActiveCount([m]) == (if m.active then 1 else 0) && SumEarnings([m]) == m.earnings
  {
    assert [m][..0] == [];
  }

  // ----- rejoins

  /** After a part and a rejoin of a member with earnings, its old entry keeps them, and the last entry with its address
      has none. */
  lemma RejoinStartsFromZero(l: Ledger, i: nat, name: string)
    requires Valid(l) && i < |l.members| && l.members[i].active
    ensures Valid(RemoveMember(l, l.members[i].address))
    ensures var last := |l.members|;
            var rejoined := AddMember(RemoveMember(l, l.members[i].address), l.members[i].address, name);
            && |rejoined.members| == last + 1
            && rejoined.members[i] == l.members[i].(active := false)
            && rejoined.members[last] == Member(name, l.members[i].address, 0, true)
            && LastWithItsAddress(rejoined.members, last)
  {
    RemoveMemberKeepsValid(l, l.members[i].address);
    assert l.indexOf[l.members[i].address] == i;
  }

  /** The greatest earnings of the entries with an address, and their sum. */
  function Greatest(members: seq<Member>, a: Address): nat {
    if members == [] then 0
    else
      var rest, m := Greatest(members[..|members| - 1], a), members[|members| - 1];
      if m.address == a && m.earnings > rest then m.earnings else rest
  }

  function SumOfAddress(members: seq<Member>, a: Address): nat {
    if members == [] then 0
    else
      var m := members[|members| - 1];
      SumOfAddress(members[..|members| - 1], a) + if m.address == a then m.earnings else 0
  }

  lemma {:induction false} GreatestIsGreatest(members: seq<Member>, a: Address)
    ensures forall i :: 0 <= i < |members| && members[i].address == a ==> members[i].earnings <= Greatest(members, a)
    ensures (exists i :: 0 <= i < |members| && members[i].address == a) ==>
              exists i :: 0 <= i < |members| && members[i].address == a && members[i].earnings == Greatest(members, a)
    ensures (forall i :: 0 <= i < |members| ==> members[i].address != a) ==> Greatest(members, a) == 0
  {
    if members != [] {
      var last := |members| - 1;
      var rest := members[..last];
      GreatestIsGreatest(rest, a);
      assert forall i :: 0 <= i < last ==> rest[i] == members[i];
      if j :| 0 <= j < last && rest[j].address == a && rest[j].earnings == Greatest(rest, a) {
        assert members[j].address == a && members[j].earnings == Greatest(rest, a);
      }
    }
  }

  /** No two entries with the address have both earned something. */
  ghost predicate AtMostOneEarned(members: seq<Member>, a: Address) {
    forall i, j :: 0 <= i < j < |members| && members[i].address == members[j].address == a ==>
      members[i].earnings == 0 || members[j].earnings == 0
  }

  /** The greatest entry of an address is at most the sum of its entries, and is all of it exactly if at most one
      of them has earned anything. */
  lemma {:induction false} GreatestIsAllExactlyWhen(members: seq<Member>, a: Address)
    ensures Greatest(members, a) <= SumOfAddress(members, a)
    ensures Greatest(members, a) == SumOfAddress(members, a) <==> AtMostOneEarned(members, a)
  {
    if members != [] {
      var last := |members| - 1;
      var rest := members[..last];
      GreatestIsAllExactlyWhen(rest, a);
      GreatestIsGreatest(rest, a);
      assert forall i :: 0 <= i < last ==> rest[i] == members[i];
      if AtMostOneEarned(members, a) {
        assert AtMostOneEarned(rest, a);
      } else if AtMostOneEarned(rest, a) {
        var i, j :| 0 <= i < j < |members| && members[i].address == members[j].address == a
          && members[i].earnings > 0 && members[j].earnings > 0;
        assert j == last && rest[i].earnings <= Greatest(rest, a);
      }
    }
  }

  /** It is less than all after a part, a rejoin and a payout: whoever had earned something is then owed more than can
      be proven, unless the admin takes everything. */
  lemma RejoinerIsOwedMore(l: Ledger, i: nat, name: string)
    requires Valid(l) && l.adminFee < ONE
    requires i < |l.members| && l.members[i].active && l.members[i].earnings > 0
    ensures var a := l.members[i].address;
            && Valid(RemoveMember(l, a))
            && var rejoined := AddMember(RemoveMember(l, a), a, name);
               && Valid(rejoined)
               && var members := AddRevenue(rejoined, ONE * ActiveCount(rejoined.members)).members;
                  Greatest(members, a) < SumOfAddress(members, a)
  {
    var a, last := l.members[i].address, |l.members|;
    RejoinStartsFromZero(l, i, name);
    var parted := RemoveMember(l, a);
    AddMemberKeepsValid(parted, a, name);
    var rejoined := AddMember(parted, a, name);
    hide Valid, ActiveCount, AddRevenue, RemoveMember, AddMember, LastWithItsAddress, Greatest, SumOfAddress;
    var amount := ONE * ActiveCount(rejoined.members);
    PayoutReaches(rejoined, last);
    var fee, share := PayoutPaysDues(rejoined, amount, i);
    var members := AddRevenue(rejoined, amount).members;
    assert members[i].earnings > 0 && members[last].earnings > 0;
    GreatestIsAllExactlyWhen(members, a);
  }

  /** A payout of this size gives something to everyone active, unless the admin takes everything. */
  lemma PayoutReaches(l: Ledger, i: nat)
    requires Valid(l) && l.adminFee < ONE && i < |l.members| && l.members[i].active
    ensures var members := AddRevenue(l, ONE * ActiveCount(l.members)).members;
            i < |members| && members[i].address == l.members[i].address && members[i].earnings > 0
  {
    ActiveCountIsZeroExactlyIfNone(l.members);
    hide ActiveCount, CreditActive, AdminShare, MemberShare, Indexed, ActiveIndexed;
    MemberShareIsPositive(l);
  }

  lemma MemberShareIsPositive(l: Ledger)
    requires l.adminFee < ONE && ActiveCount(l.members) > 0
    ensures MemberShare(l, ONE * ActiveCount(l.members)) > 0
  {
    hide ActiveCount, AdminShare, MemberShare;
    var count := ActiveCount(l.members);
    SharesAreFloors(l, ONE * count);
    ShareIsPositive(l.adminFee, count, AdminShare(l, ONE * count), MemberShare(l, ONE * count));
  }

  lemma ShareIsPositive(adminFee: nat, count: nat, fee: nat, share: nat)
    requires adminFee < ONE && fee * ONE <= ONE * count * adminFee && ONE * count - fee < (share + 1) * count
    ensures share > 0
  {
    var most := count * adminFee;
    assert ONE * count * adminFee == ONE * most;
    assert fee <= most;
    Scaled(count, adminFee, ONE - 1);
  }

  lemma Scaled(n: nat, a: nat, b: nat)
    requires a <= b
    ensures n * a <= n * b
  {
  }

  // ----- runs

  datatype Op =
    | Revenue(amount: nat)
    | Join(address: Address, name: string)
    | Part(address: Address)
    | FeeChange(adminFee: int)

  function Apply(l: Ledger, op: Op): Ledger
    requires Valid(l)
  {
    match op
    case Revenue(amount) => AddRevenue(l, amount)
    case Join(address, name) => AddMember(l, address, name)
    case Part(address) => RemoveMember(l, address)
    case FeeChange(adminFee) =>
      match SetAdminFee(l, adminFee)
      case Success(changed) => changed
      case Failure(_) => l
  }

  lemma ApplyKeepsValid(l: Ledger, op: Op)
    requires Valid(l)
    ensures Valid(Apply(l, op)) && Extends(l.members, Apply(l, op).members)
    ensures Apply(l, op).adminAddress == l.adminAddress
  {
    match op
    case Revenue(amount) => AddRevenueKeepsValid(l, amount);
    case Join(address, name) => AddMemberKeepsValid(l, address, name);
    case Part(address) => RemoveMemberKeepsValid(l, address);
    case FeeChange(adminFee) => SameButEarnings(l, Apply(l, op).(adminFee := l.adminFee));
  }

  /** The ledger after the first n operations of a run. */
  function After(l: Ledger, ops: seq<Op>, n: nat): (r: Ledger)
    requires Valid(l) && n <= |ops|
    ensures Valid(r) && Extends(l.members, r.members) && r.adminAddress == l.adminAddress
  {
    if n == 0 then l
    else
      var before := After(l, ops, n - 1);
      ApplyKeepsValid(before, ops[n - 1]);
      Apply(before, ops[n - 1])
  }

  lemma AfterNone(l: Ledger, ops: seq<Op>)
    requires Valid(l)
    ensures After(l, ops, 0) == l
  {
    hide Valid;
  }

  lemma AfterOneMore(l: Ledger, ops: seq<Op>, n: nat)
    requires Valid(l) && 0 < n <= |ops|
    ensures Valid(After(l, ops, n - 1))
    ensures After(l, ops, n) == Apply(After(l, ops, n - 1), ops[n - 1])
  {
    hide Apply, Valid;
  }

  lemma AfterIgnoresLater(l: Ledger, ops: seq<Op>, more: seq<Op>, n: nat)
    requires Valid(l) && n <= |ops|
    ensures After(l, ops + more, n) == After(l, ops, n)
  {
    hide Apply, Valid;
  }

  /** Running two lists of operations one after the other is running their concatenation. */
  lemma {:induction false} RunsCompose(l: Ledger, first: seq<Op>, second: seq<Op>, n: nat)
    requires Valid(l) && n <= |second|
    ensures Valid(After(l, first, |first|))
    ensures After(l, first + second, |first| + n) == After(After(l, first, |first|), second, n)
  {
    hide Apply, Valid, After;
    var mid := After(l, first, |first|);
    if n == 0 {
      AfterIgnoresLater(l, first, second, |first|);
      AfterNone(mid, second);
    } else {
      RunsCompose(l, first, second, n - 1);
      AfterOneMore(l, first + second, |first| + n);
      AfterOneMore(mid, second, n);
    }
  }

  // ----- who is a member

  ghost predicate IsMember(l: Ledger, a: Address) {
    exists i :: 0 <= i < |l.members| && l.members[i].active && l.members[i].address == a
  }

  /** What the joins and parts of a run say about an address: the last one that names it decides. */
  function Joined(ops: seq<Op>, n: nat, a: Address, initially: bool): bool
    requires n <= |ops|
  {
    if n == 0 then initially
    else
      match ops[n - 1]
      case Join(address, _) => address == a || Joined(ops, n - 1, a, initially)
      case Part(address) => address != a && Joined(ops, n - 1, a, initially)
      case _ => Joined(ops, n - 1, a, initially)
  }

  lemma SameFlagsSameMembers(l: Ledger, n: Ledger, a: Address)
    requires |n.members| == |l.members|
    requires forall i :: 0 <= i < |l.members| ==>
               n.members[i].active == l.members[i].active && n.members[i].address == l.members[i].address
    ensures IsMember(n, a) == IsMember(l, a)
  {
    if i :| 0 <= i < |l.members| && l.members[i].active && l.members[i].address == a {
      assert n.members[i].active;
    }
  }

  /** A join admits the address and nobody else, also one that was there before; what it had earned under an
      indexed entry stays. */
  lemma JoinAdmits(l: Ledger, address: Address, name: string, a: Address)
    requires Valid(l)
    ensures IsMember(AddMember(l, address, name), a) <==> a == address || IsMember(l, a)
  {
    var n := AddMember(l, address, name);
    var k := if address in l.indexOf then l.indexOf[address] else |l.members|;
    assert n.members[k].active && n.members[k].address == address;
    assert forall i :: 0 <= i < |l.members| && i != k ==> n.members[i] == l.members[i];
    if i :| 0 <= i < |l.members| && l.members[i].active && l.members[i].address == a {
      assert n.members[i].active && n.members[i].address == a;
    }
  }

  /** A part removes the address, whether or not it was a member, and nobody else. */
  lemma PartRemoves(l: Ledger, address: Address, a: Address)
    requires Valid(l)
    ensures IsMember(RemoveMember(l, address), a) <==> a != address && IsMember(l, a)
  {
    var n := RemoveMember(l, address);
    assert forall i :: 0 <= i < |l.members| && l.members[i].address != address ==> n.members[i] == l.members[i];
    if i :| 0 <= i < |l.members| && l.members[i].active && l.members[i].address == a && a != address {
      assert n.members[i].active && n.members[i].address == a;
    }
  }

  lemma MemberIsIndexed(l: Ledger, a: Address)
    requires Valid(l)
    ensures IsMember(l, a) <==> a in l.indexOf && l.members[l.indexOf[a]].active
  {
  }

  lemma StepDecidesMembers(l: Ledger, op: Op, a: Address)
    requires Valid(l)
    ensures IsMember(Apply(l, op), a) <==>
            match op
            case Join(address, _) => address == a || IsMember(l, a)
            case Part(address) => address != a && IsMember(l, a)
            case _ => IsMember(l, a)
  {
    hide IsMember, ActiveCount, AdminShare, MemberShare;
    match op
    case Join(address, name) => JoinAdmits(l, address, name, a);
    case Part(address) => PartRemoves(l, address, a);
    case Revenue(amount) => SameFlagsSameMembers(l, AddRevenue(l, amount), a);
    case FeeChange(_) => SameFlagsSameMembers(l, Apply(l, op), a);
  }

  /** After any run, whoever joined last without parting since is a member, and nobody else: entries, their index and
      duplicates after a rejoin do not show. */
  lemma {:induction false} MembersAreThoseJoined(l: Ledger, ops: seq<Op>, n: nat, a: Address)
    requires Valid(l) && n <= |ops|
    ensures IsMember(After(l, ops, n), a) == Joined(ops, n, a, IsMember(l, a))
  {
    hide Apply, Valid, IsMember;
    if n > 0 {
      MembersAreThoseJoined(l, ops, n - 1, a);
      AfterOneMore(l, ops, n);
      StepDecidesMembers(After(l, ops, n - 1), ops[n - 1], a);
    }
  }

  // ----- conservation

  function Received(op: Op): nat {
    if op.Revenue? then op.amount else 0
  }

  function TotalReceived(ops: seq<Op>, n: nat): nat
    requires n <= |ops|
  {
    if n == 0 then 0 else TotalReceived(ops, n - 1) + Received(ops[n - 1])
  }

  function TotalDust(l: Ledger, ops: seq<Op>, n: nat): nat
    requires Valid(l) && n <= |ops|
  {
    if n == 0 then 0
    else TotalDust(l, ops, n - 1) + if ops[n - 1].Revenue? then Dust(After(l, ops, n - 1), ops[n - 1].amount) else 0
  }

  lemma OneStepSum(l: Ledger, op: Op)
    requires Valid(l)
    ensures SumEarnings(Apply(l, op).members) <= SumEarnings(l.members) + Received(op)
    ensures l.admin.Listed? && op != Part(l.adminAddress) ==>
              && Apply(l, op).admin == l.admin
              && SumEarnings(Apply(l, op).members) ==
                 SumEarnings(l.members) + Received(op) - if op.Revenue? then Dust(l, op.amount) else 0
  {
    match op
    case Revenue(amount) => RevenueIsHandedOut(l, amount);
    case Join(address, name) =>
      if address in l.indexOf {
        var i := l.indexOf[address];
        SumEarningsUpdated(l.members, i, l.members[i].(active := true));
      } else {
        SumEarningsAppended(l.members, Member(name, address, 0, true));
      }
    case Part(address) =>
      if address in l.indexOf {
        var i := l.indexOf[address];
        SumEarningsUpdated(l.members, i, l.members[i].(active := false));
      }
    case FeeChange(adminFee) =>
  }

  /** In every run the earnings never sum to more than what was there and what was received. */
  lemma {:induction false} EarningsAreBacked(l: Ledger, ops: seq<Op>, n: nat)
    requires Valid(l) && n <= |ops|
    ensures SumEarnings(After(l, ops, n).members) <= SumEarnings(l.members) + TotalReceived(ops, n)
  {
    hide Apply, Valid;
    if n > 0 {
      EarningsAreBacked(l, ops, n - 1);
      var before := After(l, ops, n - 1);
      OneStepSum(before, ops[n - 1]);
      assert After(l, ops, n) == Apply(before, ops[n - 1]);
    }
  }

  /** While the admin is never parted, they sum to exactly that, less the dust of each payout. */
  lemma {:induction false} RevenueIsConserved(l: Ledger, ops: seq<Op>, n: nat)
    requires Valid(l) && n <= |ops| && l.admin.Listed?
    requires forall i :: 0 <= i < n ==> ops[i] != Part(l.adminAddress)
    ensures After(l, ops, n).admin == l.admin
    ensures SumEarnings(After(l, ops, n).members) ==
            SumEarnings(l.members) + TotalReceived(ops, n) - TotalDust(l, ops, n)
  {
    hide Apply, Valid;
    if n > 0 {
      RevenueIsConserved(l, ops, n - 1);
      var before := After(l, ops, n - 1);
      OneStepSum(before, ops[n - 1]);
      assert After(l, ops, n) == Apply(before, ops[n - 1]);
    }
  }

  /** Members that are active for the same payouts gain the same. */
  lemma {:induction false} EqualActivityEqualGain(l: Ledger, ops: seq<Op>, n: nat, i: nat, j: nat)
    requires Valid(l) && n <= |ops| && i < |l.members| && j < |l.members|
    requires l.members[i].address != l.adminAddress && l.members[j].address != l.adminAddress
    requires forall k :: 0 <= k < n && ops[k].Revenue? ==>
               After(l, ops, k).members[i].active == After(l, ops, k).members[j].active
    ensures After(l, ops, n).members[i].earnings - l.members[i].earnings ==
            After(l, ops, n).members[j].earnings - l.members[j].earnings
  {
    hide Apply, Valid, After, ActiveCount, MemberShare;
    if n == 0 {
      AfterNone(l, ops);
    } else {
      AfterOneMore(l, ops, n);
      EqualActivityEqualGain(l, ops, n - 1, i, j);
      var before := After(l, ops, n - 1);
      GainOfOneStep(before, ops[n - 1], i);
      GainOfOneStep(before, ops[n - 1], j);
    }
  }

  /** Outside the admin, a step pays an entry one share if it is a payout and the entry is active, and nothing
      otherwise. */
  lemma GainOfOneStep(l: Ledger, op: Op, i: nat)
    requires Valid(l) && i < |l.members| && l.members[i].address != l.adminAddress
    ensures i < |Apply(l, op).members|
    ensures op.Revenue? && l.members[i].active ==> ActiveCount(l.members) > 0
    ensures Apply(l, op).members[i].earnings ==
            l.members[i].earnings + if op.Revenue? && l.members[i].active then MemberShare(l, op.amount) else 0
  {
    ActiveCountIsZeroExactlyIfNone(l.members);
  }
}
