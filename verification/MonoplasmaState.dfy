/** The off-chain state object: member objects updated in place, the list of latest blocks, and the tree cache. */
module MonoplasmaStates {
  import opened Wrappers
  import opened Members
  import opened Hashing
  import opened MerkleSpec
  import opened MerkleTrees
  import Spec = Ledgers
  import opened Blocks
  import opened FileStores
  import Playback

  class MonoplasmaMember {
    const name: string
    const address: Address
    var earnings: nat
    var active: bool

    constructor (name: string, address: Address, earnings: nat, active: bool)
      ensures ToObject() == Member(name, address, earnings, active)
    {
      this.name, this.address, this.earnings, this.active := name, address, earnings, active;
    }

    function ToObject(): Member
      reads this
    {
      Member(name, address, earnings, active)
    }

    method AddRevenue(amount: nat)
      modifies this`earnings
      ensures ToObject() == Spec.Paid(old(ToObject()), amount)
    {
      earnings := earnings + amount;
    }

    method SetActive(activeState: bool)
      modifies this`active
      ensures ToObject() == old(ToObject()).(active := activeState)
    {
      active := activeState;
    }

    method Clone() returns (copy: MonoplasmaMember)
      ensures fresh(copy) && copy.ToObject() == ToObject()
    {
      copy := new MonoplasmaMember(name, address, earnings, active);
    }
  }

  ghost predicate Distinct(ms: seq<MonoplasmaMember>) {
    forall i, j :: 0 <= i < j < |ms| ==> ms[i] != ms[j]
  }

  /** The members as values. */
  function Listing(ms: seq<MonoplasmaMember>): (s: seq<Member>)
    reads ms
    ensures |s| == |ms|
    ensures forall i :: 0 <= i < |ms| ==> s[i] == ms[i].ToObject()
  {
    if ms == [] then [] else Listing(ms[..|ms| - 1]) + [ms[|ms| - 1].ToObject()]
  }

  /** The member objects that are active. */
  function ActiveOf(ms: seq<MonoplasmaMember>): (active: seq<MonoplasmaMember>)
    reads ms
  {
    if ms == [] then []
    else ActiveOf(ms[..|ms| - 1]) + if ms[|ms| - 1].active then [ms[|ms| - 1]] else []
  }

  lemma {:induction false} ActiveOfIsTheActiveOnes(ms: seq<MonoplasmaMember>)
    requires Distinct(ms)
    ensures |ActiveOf(ms)| == Spec.ActiveCount(Listing(ms))
    ensures Distinct(ActiveOf(ms))
    ensures forall k :: 0 <= k < |ActiveOf(ms)| ==> ActiveOf(ms)[k] in ms && ActiveOf(ms)[k].active
    ensures forall m :: m in ms && m.active ==> m in ActiveOf(ms)
  {
    if ms != [] {
      var last := |ms| - 1;
      ActiveOfIsTheActiveOnes(ms[..last]);
      ListingAppended(ms[..last], ms[last]);
      assert ms == ms[..last] + [ms[last]];
      assert Listing(ms)[..last] == Listing(ms[..last]);
      hide Listing;
    }
  }

  /** Pays every one of a list of member objects. */
  method PayAll(payees: seq<MonoplasmaMember>, share: nat)
    requires Distinct(payees)
    modifies payees
    ensures forall m :: m in payees ==> m.ToObject() == Spec.Paid(old(m.ToObject()), share)
  {
    var i := 0;
    while i < |payees|
      invariant 0 <= i <= |payees|
      invariant forall j :: 0 <= j < i ==> payees[j].ToObject() == Spec.Paid(old(payees[j].ToObject()), share)
      invariant forall j :: i <= j < |payees| ==> payees[j].ToObject() == old(payees[j].ToObject())
    {
      payees[i].AddRevenue(share);
      i := i + 1;
    }
  }

  lemma NothingListed()
    ensures Listing([]) == []
  {
  }

  lemma ListingAppended(ms: seq<MonoplasmaMember>, m: MonoplasmaMember)
    ensures Listing(ms + [m]) == Listing(ms) + [m.ToObject()]
  {
    assert (ms + [m])[..|ms|] == ms;
  }

  lemma ListingReplaced(ms: seq<MonoplasmaMember>, i: nat, m: MonoplasmaMember)
    requires i < |ms|
    ensures Listing(ms[i := m]) == Listing(ms)[i := m.ToObject()]
  {
  }

  lemma IndexOfAppended(members: seq<Member>, m: Member)
    ensures IndexOf(members + [m], 0) == IndexOf(members, 0)[m.address := |members|]
  {
    assert (members + [m])[..|members|] == members;
  }

  /** New member objects for a list of member values. */
  method MakeMembers(initial: seq<Member>) returns (ms: seq<MonoplasmaMember>)
    ensures forall m :: m in ms ==> fresh(m)
    ensures Distinct(ms) && Listing(ms) == initial
  {
    hide Listing;
    ms := [];
    NothingListed();
    var i := 0;
    while i < |initial|
      invariant 0 <= i <= |initial|
      invariant forall m :: m in ms ==> fresh(m)
      invariant Distinct(ms) && Listing(ms) == initial[..i]
    {
      ghost var before := initial[..i];
      var m := new MonoplasmaMember(initial[i].name, initial[i].address, initial[i].earnings, initial[i].active);
      assert Listing(ms) == before;
      ListingAppended(ms, m);
      assert initial[..i + 1] == before + [initial[i]];
      ms := ms + [m];
      i := i + 1;
    }
    assert initial[..|initial|] == initial;
  }

  /** Where each address is found. */
  method MakeIndex(members: seq<Member>) returns (indexOf: map<Address, nat>)
    ensures indexOf == IndexOf(members, 0)
  {
    indexOf := map[];
    var i := 0;
    while i < |members|
      invariant 0 <= i <= |members|
      invariant indexOf == IndexOf(members[..i], 0)
    {
      IndexOfAppended(members[..i], members[i]);
      assert members[..i + 1] == members[..i] + [members[i]];
      indexOf := indexOf[members[i].address := i];
      i := i + 1;
    }
    assert members[..|members|] == members;
  }

  /** Finds the admin among the members, or adds it as an inactive one. */
  method AdmitAdmin(ms: seq<MonoplasmaMember>, indexOf: map<Address, nat>, adminAddress: Address, ghost fee: nat,
                    ghost total: nat)
    returns (admitted: seq<MonoplasmaMember>, index: map<Address, nat>, admin: MonoplasmaMember)
    requires Distinct(ms) && indexOf == IndexOf(Listing(ms), 0)
    ensures Distinct(admitted) && (forall m :: m in admitted ==> m in ms || fresh(m))
    ensures adminAddress in index && index[adminAddress] < |admitted| && admitted[index[adminAddress]] == admin
    ensures Spec.New(old(Listing(ms)), adminAddress, fee, total) ==
            Spec.Ledger(Listing(admitted), index, Spec.Listed(index[adminAddress]), adminAddress, fee, total)
  {
    hide Listing, IndexOf, LastWithItsAddress;
    IndexOfFindsLast(Listing(ms), 0, adminAddress);
    if adminAddress in indexOf {
      return ms, indexOf, ms[indexOf[adminAddress]];
    }
    ghost var initial := Listing(ms);
    admin := new MonoplasmaMember("admin", adminAddress, 0, true);
    admin.SetActive(false);
    admitted, index := ms + [admin], indexOf[adminAddress := |ms|];
    assert Listing(admitted) == initial + [Member("admin", adminAddress, 0, false)];
  }

  lemma CloneParts(l: Spec.Ledger)
    requires Spec.Valid(l)
    ensures l.adminFee <= Spec.ONE && Spec.Valid(Spec.Clone(l)) && Spec.Clone(l).members == l.members
    ensures Spec.Clone(l).admin.Listed? && Spec.Clone(l).admin.index < |l.members|
    ensures Spec.Clone(l) == Spec.New(l.members, l.adminAddress, l.adminFee, l.totalEarnings)
  {
    Spec.CloneListsTheSame(l);
  }

  const TREE_CACHE_SIZE: nat := 5

  datatype CacheEntry = CacheEntry(blockNumber: nat, tree: MerkleTree, hitCount: nat)

  /** The first entry with the least hit count, unless every count has reached the largest safe integer. */
  method LeastUsed(cache: seq<CacheEntry>) returns (minIndex: int)
    ensures -1 <= minIndex < |cache|
    ensures minIndex >= 0 ==>
              && (forall i :: 0 <= i < |cache| ==> cache[minIndex].hitCount <= cache[i].hitCount)
              && (forall i :: 0 <= i < minIndex ==> cache[minIndex].hitCount < cache[i].hitCount)
    ensures minIndex == -1 <==> forall i :: 0 <= i < |cache| ==> cache[i].hitCount >= MAX_SAFE_INTEGER
  {
    minIndex := -1;
    var minHits := MAX_SAFE_INTEGER;
    var i := 0;
    while i < |cache|
      invariant 0 <= i <= |cache| && -1 <= minIndex < i && minHits <= MAX_SAFE_INTEGER
      invariant minIndex == -1 ==> minHits == MAX_SAFE_INTEGER
      invariant minIndex >= 0 ==> minHits == cache[minIndex].hitCount < MAX_SAFE_INTEGER
      invariant forall j :: 0 <= j < i ==> minHits <= cache[j].hitCount
      invariant forall j :: 0 <= j < minIndex ==> minHits < cache[j].hitCount
    {
      if cache[i].hitCount < minHits {
        minHits, minIndex := cache[i].hitCount, i;
      }
      i := i + 1;
    }
  }

  /** One entry has been dropped, and it was a least used one while counts are below the largest safe integer. */
  ghost predicate DropsLeastUsed(before: seq<CacheEntry>, after: seq<CacheEntry>) {
    exists k :: 0 <= k < |before| && after == before[..k] + before[k + 1..] &&
      ((exists i :: 0 <= i < |before| && before[i].hitCount < MAX_SAFE_INTEGER) ==>
        forall i :: 0 <= i < |before| ==> before[k].hitCount <= before[i].hitCount)
  }

  lemma WithoutOne(cache: seq<CacheEntry>, k: nat)
    requires k < |cache|
    requires forall i, j :: 0 <= i < j < |cache| ==> cache[i].blockNumber != cache[j].blockNumber
    ensures var rest := cache[..k] + cache[k + 1..];
            && (forall e :: e in rest ==> e in cache)
            && (forall i, j :: 0 <= i < j < |rest| ==> rest[i].blockNumber != rest[j].blockNumber)
  {
    var rest := cache[..k] + cache[k + 1..];
    assert forall i :: 0 <= i < |rest| ==> rest[i] == cache[if i < k then i else i + 1];
  }

  /** Room has been made for one more entry, if there was none. */
  ghost predicate RoomMade(before: seq<CacheEntry>, after: seq<CacheEntry>) {
    if |before| >= TREE_CACHE_SIZE then DropsLeastUsed(before, after) && |after| == |before| - 1 else after == before
  }

  /** What a lookup does to the cache: it counts a hit, or makes room and, if there is such a block, appends an entry
      with one hit. Room is made before it is known that there is a block. */
  ghost predicate LookedUp(before: seq<CacheEntry>, after: seq<CacheEntry>, blockNumber: nat, found: bool) {
    if InCache(before, blockNumber) then
      exists i :: 0 <= i < |before| && before[i].blockNumber == blockNumber
        && after == before[i := before[i].(hitCount := before[i].hitCount + 1)]
    else if found then
      && after != [] && RoomMade(before, after[..|after| - 1])
      && after[|after| - 1].blockNumber == blockNumber && after[|after| - 1].hitCount == 1
    else RoomMade(before, after)
  }

  ghost predicate InCache(cache: seq<CacheEntry>, blockNumber: nat) {
    exists i :: 0 <= i < |cache| && cache[i].blockNumber == blockNumber
  }

  class MonoplasmaState {
    const store: FileStore
    const blockFreezeSeconds: nat
    const adminAddress: Address
    var members: seq<MonoplasmaMember>
    var indexOf: map<Address, nat>
    var adminMember: MonoplasmaMember
    ghost var adminIndex: Option<nat>   // where adminMember stands in members, if it does
    var adminFeeFraction: nat
    var totalEarnings: nat
    var currentBlock: nat
    var currentTimestamp: nat
    var latestBlocks: seq<Block>
    var treeCache: seq<CacheEntry>

    ghost function AdminRef(): Spec.AdminRef
      reads this`adminIndex, this`adminMember, adminMember
    {
      match adminIndex
      case Some(i) => Spec.Listed(i)
      case None => Spec.Detached(adminMember.ToObject())
    }

    /** The ledger that the member objects represent. */
    ghost function View(): Spec.Ledger
      reads this`members, this`indexOf, this`adminIndex, this`adminMember, this`adminFeeFraction, this`totalEarnings
      reads members, adminMember
    {
      Spec.Ledger(Listing(members), indexOf, AdminRef(), adminAddress, adminFeeFraction, totalEarnings)
    }

    /** No two entries share an object, and the admin object is the one the ghost index says, or in no entry. */
    ghost predicate Linked()
      reads this`members, this`adminIndex, this`adminMember
    {
      && Distinct(members)
      && (match adminIndex
          case Some(i) => i < |members| && members[i] == adminMember
          case None => adminMember !in members)
    }

    ghost predicate Valid()
      reads this`members, this`indexOf, this`adminIndex, this`adminMember, this`adminFeeFraction, this`totalEarnings
      reads members, adminMember
    {
      Linked() && Spec.Valid(View())
    }

    /** All that replaying changes. */
    ghost function PlasmaView(): Playback.Plasma
      reads this, members, adminMember, store
    {
      Playback.Plasma(View(), latestBlocks, store.View(), currentBlock, currentTimestamp)
    }

    /** What a valid state represents. */
    lemma ViewIsValid()
      requires Valid()
      ensures Spec.Valid(PlasmaView().ledger)
      ensures PlasmaView().currentBlock == currentBlock && PlasmaView().currentTimestamp == currentTimestamp
    {
    }

    constructor (blockFreezeSeconds: nat, initialMembers: seq<Member>, store: FileStore, adminAddress: Address,
                 adminFeeFraction: nat, initialBlockNumber: nat, initialTimestamp: nat, initialTotalEarnings: nat)
      requires adminFeeFraction <= Spec.ONE
      ensures Linked() && View() == Spec.New(initialMembers, adminAddress, adminFeeFraction, initialTotalEarnings)
      ensures forall m :: m in members ==> fresh(m)
      ensures (forall i :: 0 <= i < |initialMembers| && initialMembers[i].active ==>
              LastWithItsAddress(initialMembers, i)) ==> Valid()
      ensures this.store == store && this.blockFreezeSeconds == blockFreezeSeconds && latestBlocks == []
              && treeCache == []
      ensures currentBlock == initialBlockNumber && currentTimestamp == initialTimestamp
    {
      hide Spec.Valid, Spec.New, Listing, Distinct, LastWithItsAddress, IndexOf;
      var ms := MakeMembers(initialMembers);
      var index := MakeIndex(initialMembers);
      var admitted, indexWithAdmin, admin :=
        AdmitAdmin(ms, index, adminAddress, adminFeeFraction, initialTotalEarnings);
      this.store, this.blockFreezeSeconds, this.adminAddress := store, blockFreezeSeconds, adminAddress;
      this.members, this.indexOf, this.adminMember, this.adminIndex := admitted, indexWithAdmin, admin,
          Some(indexWithAdmin[adminAddress]);
      this.adminFeeFraction, this.totalEarnings := adminFeeFraction, initialTotalEarnings;
      this.currentBlock, this.currentTimestamp := initialBlockNumber, initialTimestamp;
      this.latestBlocks, this.treeCache := [], [];
      Spec.NewIsValidExactlyWhen(initialMembers, adminAddress, adminFeeFraction, initialTotalEarnings);
    }

    /** A copy with its own member objects. It has no latest blocks, and its timestamp starts from zero. */
    method Clone() returns (copy: MonoplasmaState)
      requires Valid()
      ensures fresh(copy) && fresh(copy.adminMember) && (forall m :: m in copy.members ==> fresh(m))
      ensures copy.Valid() && copy.View() == Spec.Clone(View())
      ensures Listing(copy.members) == Listing(members)
      ensures copy.store == store && copy.blockFreezeSeconds == blockFreezeSeconds && copy.latestBlocks == []
      ensures copy.currentBlock == currentBlock && copy.currentTimestamp == 0
    {
      hide Listing, Distinct, LastWithItsAddress, Spec.Valid, Spec.New, Spec.Clone;
      CloneParts(View());
      copy := new MonoplasmaState(blockFreezeSeconds, Listing(members), store, adminAddress, adminFeeFraction,
          currentBlock, 0, totalEarnings);
      assert copy.View().admin.Listed?;
      assert copy.members[copy.adminIndex.value] in copy.members;
    }

    method CreditAdmin(amount: nat)
      requires Linked() && Spec.AdminInList(View())
      modifies adminMember
      ensures Linked() && View() == Spec.CreditAdmin(old(View()), amount)
      ensures forall m :: m in members ==> m.active == old(m.active)
    {
      ghost var was := View();
      adminMember.AddRevenue(amount);
      assert View().members == Spec.CreditAdmin(was, amount).members;
    }

    method CreditActive(activeMembers: seq<MonoplasmaMember>, share: nat)
      requires Linked() && Distinct(activeMembers)
      requires forall k :: 0 <= k < |activeMembers| ==> activeMembers[k] in members && activeMembers[k].active
      requires forall m :: m in members && m.active ==> m in activeMembers
      modifies members
      ensures Linked() && View() == old(View()).(members := Spec.CreditActive(old(Listing(members)), share))
    {
      hide Listing, Spec.CreditActive;
      ghost var was := Listing(members);
      PayAll(activeMembers, share);
      assert Listing(members) == Spec.CreditActive(was, share);
    }

    method AddRevenue(amount: nat)
      requires Valid()
      modifies this`totalEarnings, members, adminMember
      ensures Valid() && View() == Spec.AddRevenue(old(View()), amount)
    {
      hide Spec.Valid, Spec.AddRevenue, Spec.CreditAdmin, Spec.CreditActive, Spec.ActiveCount, Spec.AdminInList,
           ActiveOf, Listing, Distinct;
      ghost var was := View();
      RevenueSteps(was, amount);
      var activeMembers := ActiveOf(members);
      var activeCount := |activeMembers|;
      ActiveOfIsTheActiveOnes(members);
      if activeCount == 0 {
        CreditAdmin(amount);
      } else {
        Spec.FractionAtMostWhole(amount, adminFeeFraction);
        var adminFee := amount * adminFeeFraction / Spec.ONE;
        var share := (amount - adminFee) / activeCount;
        HandOut(amount, adminFee, activeMembers, share);
      }
    }

    /** Pays the admin first: it may be one of the active members. */
    method HandOut(amount: nat, adminFee: nat, activeMembers: seq<MonoplasmaMember>, share: nat)
      requires Linked() && Spec.AdminInList(View()) && Distinct(activeMembers)
      requires forall k :: 0 <= k < |activeMembers| ==> activeMembers[k] in members && activeMembers[k].active
      requires forall m :: m in members && m.active ==> m in activeMembers
      modifies this`totalEarnings, members, adminMember
      ensures Linked()
      ensures var credited := Spec.CreditAdmin(old(View()), adminFee);
              View() == credited.(members := Spec.CreditActive(credited.members, share),
                                  totalEarnings := old(View()).totalEarnings + amount)
    {
      hide Spec.CreditAdmin, Spec.CreditActive, Spec.AdminInList, Listing, Distinct;
      CreditAdmin(adminFee);
      CreditActive(activeMembers, share);
      AddToTotal(amount);
    }

    method AddToTotal(amount: nat)
      requires Linked()
      modifies this`totalEarnings
      ensures Linked() && View() == old(View()).(totalEarnings := old(View()).totalEarnings + amount)
    {
      totalEarnings := totalEarnings + amount;
    }

    method AddMember(address: Address, name: string) returns (isNewAddress: bool)
      requires Valid()
      modifies this`members, this`indexOf, members
      ensures Valid() && View() == Spec.AddMember(old(View()), address, name)
      ensures isNewAddress == (address !in old(indexOf))
      ensures forall m :: m in members ==> m in old(members) || fresh(m)
      ensures adminMember == old(adminMember)
    {
      hide Listing, Spec.Valid, Spec.AddMember;
      ghost var was := View();
      AddMemberParts(was, address, name);
      isNewAddress := address !in indexOf;
      if isNewAddress {
        var m := new MonoplasmaMember(name, address, 0, true);
        members := members + [m];
        indexOf := indexOf[address := |members| - 1];
        assert Listing(members) == was.members + [Member(name, address, 0, true)];
      } else {
        var i := indexOf[address];
        members[i].SetActive(true);
        assert Listing(members) == was.members[i := was.members[i].(active := true)];
      }
    }

    method RemoveMember(address: Address) returns (wasActive: bool)
      requires Valid()
      modifies this`members, this`indexOf, this`adminIndex
      ensures Valid() && View() == Spec.RemoveMember(old(View()), address)
      ensures wasActive == (address in old(indexOf) && old(View()).members[old(indexOf)[address]].active)
      ensures forall m :: m in members ==> m in old(members) || fresh(m)
    {
      hide Listing, Spec.Valid, Spec.Indexed;
      ghost var was := View();
      RemoveMemberParts(was, address);
      wasActive := false;
      if address in indexOf {
        var i := indexOf[address];
        var m := members[i].Clone();
        wasActive := m.active;
        m.SetActive(false);
        ReplaceMember(i, m);
        ForgetIndex(address);
      }
    }

    method ForgetIndex(address: Address)
      requires Linked()
      modifies this`indexOf
      ensures Linked() && View() == old(View()).(indexOf := old(indexOf) - {address})
    {
      indexOf := indexOf - {address};
    }

    /** Puts another object in an entry; the object that was there is no longer in the list. */
    method ReplaceMember(i: nat, m: MonoplasmaMember)
      requires Linked() && i < |members| && m !in members && m != adminMember
      modifies this`members, this`adminIndex
      ensures Linked() && members == old(members)[i := m]
      ensures View() == old(View()).(members := old(View()).members[i := m.ToObject()],
                                     admin := if adminIndex == old(adminIndex) then old(AdminRef())
                                              else Spec.Detached(old(members[i].ToObject())))
      ensures adminIndex == if old(adminIndex) == Some(i) then None else old(adminIndex)
    {
      ListingReplaced(members, i, m);
      hide Listing;
      members := members[i := m];
      if adminIndex == Some(i) {
        adminIndex := None;
      }
    }

    method AddMembers(addresses: seq<Address>) returns (added: seq<Address>)
      requires Valid()
      modifies this`members, this`indexOf, members
      ensures Valid() && View() == Playback.JoinAll(old(View()), addresses)
      ensures added == Playback.NewlyAdded(old(View()), addresses)
      ensures forall m :: m in members ==> m in old(members) || fresh(m)
    {
      hide Listing, Spec.Valid, Spec.AddMember, Playback.JoinAll, Playback.NewlyAdded;
      added := [];
      var i := 0;
      assert addresses[0..] == addresses;
      while i < |addresses|
        invariant 0 <= i <= |addresses|
        invariant Valid() && Playback.JoinAll(View(), addresses[i..]) == Playback.JoinAll(old(View()), addresses)
        invariant added + Playback.NewlyAdded(View(), addresses[i..]) == Playback.NewlyAdded(old(View()), addresses)
        invariant forall m :: m in members ==> m in old(members) || fresh(m)
      {
        JoinOne(View(), addresses, i);
        assert forall k :: 0 <= k < |members| ==> members[k] in old(members) || fresh(members[k]);
        ghost var soFar := added;
        var wasNew := AddMember(addresses[i], "");
        if wasNew {
          added := added + [addresses[i]];
        }
        Regroup(soFar, if wasNew then [addresses[i]] else [], Playback.NewlyAdded(View(), addresses[i + 1..]));
        i := i + 1;
      }
      assert addresses[i..] == [];
      JoinNone(View());
    }

    method RemoveMembers(addresses: seq<Address>) returns (removed: seq<Address>)
      requires Valid()
      modifies this`members, this`indexOf, this`adminIndex
      ensures Valid() && View() == Playback.PartAll(old(View()), addresses)
      ensures removed == Playback.NewlyRemoved(old(View()), addresses)
      ensures forall m :: m in members ==> m in old(members) || fresh(m)
    {
      hide Listing, Spec.Valid, Spec.RemoveMember, Playback.PartAll, Playback.NewlyRemoved;
      removed := [];
      var i := 0;
      assert addresses[0..] == addresses;
      while i < |addresses|
        invariant 0 <= i <= |addresses|
        invariant Valid() && Playback.PartAll(View(), addresses[i..]) == Playback.PartAll(old(View()), addresses)
        invariant removed + Playback.NewlyRemoved(View(), addresses[i..]) ==
                  Playback.NewlyRemoved(old(View()), addresses)
        invariant forall m :: m in members ==> m in old(members) || fresh(m)
      {
        PartOne(View(), addresses, i);
        ghost var soFar := removed;
        var wasActive := RemoveMember(addresses[i]);
        if wasActive {
          removed := removed + [addresses[i]];
        }
        Regroup(soFar, if wasActive then [addresses[i]] else [], Playback.NewlyRemoved(View(), addresses[i + 1..]));
        i := i + 1;
      }
      assert addresses[i..] == [];
      PartNone(View());
    }

    method SetAdminFeeFraction(adminFee: int) returns (error: Option<Spec.LedgerError>)
      requires Valid()
      modifies this`adminFeeFraction
      ensures Valid()
      ensures match Spec.SetAdminFee(old(View()), adminFee)
              case Success(changed) => error == None && View() == changed
              case Failure(e) => error == Some(e) && View() == old(View())
    {
      hide Listing, Spec.Valid;
      if adminFee < 0 || adminFee > Spec.ONE {
        return Some(Spec.BadAdminFee);
      }
      Spec.ApplyKeepsValid(View(), Spec.FeeChange(adminFee));
      adminFeeFraction := adminFee;
      return None;
    }

    /** Moves on to a later block. */
    method SetPosition(block: nat, timestamp: nat)
      requires Valid()
      modifies this`currentBlock, this`currentTimestamp
      ensures Valid() && PlasmaView() == Playback.AtPosition(old(PlasmaView()), block, timestamp)
    {
      hide Spec.Valid, Listing, Distinct;
      currentBlock := block;
      currentTimestamp := timestamp;
    }

    // ----- blocks

    method StoreBlock(blockNumber: nat, timestamp: nat) returns (r: Result<Block, BlockError>)
      requires Valid()
      modifies this`latestBlocks, store
      ensures match Playback.StoreBlock(old(PlasmaView()), blockNumber, timestamp)
              case Success(stored) => r == Success(Playback.BlockOf(View(), blockNumber, timestamp))
                && PlasmaView() == stored
              case Failure(e) => r == Failure(e) && PlasmaView() == old(PlasmaView())
      ensures old(CacheValid()) && Published(old(latestBlocks), old(store.blocks), blockNumber).None? ==> CacheValid()
    {
      hide Listing, Spec.Valid, Save, SortDescending, HasNewer, FileStores.Published;
      if !(1 <= timestamp <= MAX_SAFE_INTEGER) {
        return Failure(BadTimestamp);
      }
      if !(1 <= blockNumber <= MAX_SAFE_INTEGER) {
        return Failure(BadBlockNumber);
      }
      if HasNewer(latestBlocks, blockNumber) {
        return Failure(AlreadyStored);
      }
      var latestBlock := Block(blockNumber, Listing(members), timestamp, totalEarnings, adminAddress, adminFeeFraction);
      forall n | n != blockNumber
        ensures Published(SortDescending([latestBlock] + latestBlocks), Save(store.View(), latestBlock).blocks, n) ==
                Published(latestBlocks, store.blocks, n)
      {
        StoringKeepsPublished(latestBlocks, store.View(), latestBlock, n);
      }
      latestBlocks := [latestBlock] + latestBlocks;
      latestBlocks := SortDescending(latestBlocks);
      var error := store.SaveBlock(latestBlock);
      return Success(latestBlock);
    }

    /** Puts a block that a clone has stored at its place in this state's list. */
    method ListBlock(block: Block)
      modifies this`latestBlocks
      ensures latestBlocks == SortDescending([block] + old(latestBlocks))
      ensures old(CacheValid()) && Published(old(latestBlocks), store.blocks, block.blockNumber) == Some(block) ==>
              CacheValid()
    {
      forall n | Published(latestBlocks, store.blocks, block.blockNumber) == Some(block)
        ensures Published(SortDescending([block] + latestBlocks), store.blocks, n) ==
                Published(latestBlocks, store.blocks, n)
      {
        ListingKeepsPublished(latestBlocks, store.blocks, block, n);
      }
      hide FileStores.Published, SortDescending;
      latestBlocks := [block] + latestBlocks;
      latestBlocks := SortDescending(latestBlocks);
    }

    method GetLatestBlock() returns (block: Option<Block>)
      ensures block == Latest(latestBlocks)
    {
      if |latestBlocks| < 1 {
        return None;
      }
      return Some(latestBlocks[0]);
    }

    method GetLatestWithdrawableBlock(now: nat) returns (block: Option<Block>)
      modifies this`latestBlocks
      ensures block == LatestWithdrawable(old(latestBlocks), now, blockFreezeSeconds)
      ensures latestBlocks == Truncate(old(latestBlocks), now, blockFreezeSeconds)
      ensures old(CacheValid()) && AllFiled(old(latestBlocks), store.blocks) ==>
              CacheValid() && AllFiled(latestBlocks, store.blocks)
    {
      if AllFiled(latestBlocks, store.blocks) {
        forall n ensures Published(Truncate(latestBlocks, now, blockFreezeSeconds), store.blocks, n) ==
            Published(latestBlocks, store.blocks, n) {
          TruncatingKeepsPublished(latestBlocks, store.blocks, now, blockFreezeSeconds, n);
        }
      }
      hide FileStores.Published;
      var i := FirstWithdrawable(latestBlocks, now, blockFreezeSeconds);
      if i == |latestBlocks| {
        return None;
      }
      latestBlocks := latestBlocks[..i + 1];
      return Some(latestBlocks[i]);
    }

    method GetBlock(blockNumber: nat) returns (r: Result<Block, BlockError>)
      ensures r == match Published(latestBlocks, store.blocks, blockNumber)
                   case Some(block) => Success(block)
                   case None => Failure(NotPublished)
    {
      var cachedBlock := Find(latestBlocks, blockNumber);
      if cachedBlock.Some? {
        return Success(cachedBlock.value);
      }
      var isStored := store.BlockExists(blockNumber);
      if !isStored {
        return Failure(NotPublished);
      }
      r := store.LoadBlock(blockNumber);
    }

    // ----- trees

    ghost function Trees(): set<MerkleTree>
      reads this`treeCache
    {
      set i | 0 <= i < |treeCache| :: treeCache[i].tree
    }

    /** The cache is small, and holds under each number the tree of the block published under it. */
    ghost predicate CacheValid()
      reads this`treeCache, this`latestBlocks, store, Trees(), set t | t in Trees() :: t.hashes
    {
      && |treeCache| <= TREE_CACHE_SIZE
      && (forall i, j :: 0 <= i < j < |treeCache| ==> treeCache[i].blockNumber != treeCache[j].blockNumber)
      && forall i :: 0 <= i < |treeCache| ==> IsTreeOf(treeCache[i].tree, treeCache[i].blockNumber)
    }

    ghost predicate IsTreeOf(tree: MerkleTree, blockNumber: nat)
      reads this`latestBlocks, store, tree, tree.hashes
    {
      && tree.Valid() && tree.salt == blockNumber
      && Published(latestBlocks, store.blocks, blockNumber).Some?
      && tree.contents == Published(latestBlocks, store.blocks, blockNumber).value.members
    }

    /** A published block has a tree in the cache afterwards; if the block had none in a full cache, a least used entry
        had to go, even if then no block is published under the number. */
    method GetTreeAt(blockNumber: nat) returns (r: Result<MerkleTree, BlockError>)
      requires CacheValid()
      modifies this`treeCache
      ensures CacheValid()
      ensures if Published(latestBlocks, store.blocks, blockNumber).None? then r == Failure(NotPublished)
              else r.Success? && IsTreeOf(r.value, blockNumber) && r.value in Trees()
      ensures r.Success? ==> r.value in old(Trees()) || (fresh(r.value) && fresh(r.value.hashes))
      ensures LookedUp(old(treeCache), treeCache, blockNumber, r.Success?)
    {
      hide DropsLeastUsed, RoomMade, FileStores.Published;
      var i := 0;
      while i < |treeCache| && treeCache[i].blockNumber != blockNumber
        invariant 0 <= i <= |treeCache|
        invariant forall j :: 0 <= j < i ==> treeCache[j].blockNumber != blockNumber
      {
        i := i + 1;
      }
      if i == |treeCache| {
        var error := AddTree(blockNumber);
        if error.Some? {
          return Failure(error.value);
        }
        i := |treeCache| - 1;
        ghost var grown := treeCache;
        r := Success(treeCache[i].tree);
        CountHit(i);
        assert treeCache[..i] == grown[..i];
      } else {
        r := Success(treeCache[i].tree);
        CountHit(i);
      }
    }

    method CountHit(i: nat)
      requires CacheValid() && i < |treeCache|
      modifies this`treeCache
      ensures CacheValid() && Trees() == old(Trees())
      ensures treeCache == old(treeCache)[i := old(treeCache)[i].(hitCount := old(treeCache)[i].hitCount + 1)]
    {
      ghost var was := treeCache;
      treeCache := treeCache[i := treeCache[i].(hitCount := treeCache[i].hitCount + 1)];
      assert forall j :: 0 <= j < |was| ==>
             treeCache[j].tree == was[j].tree && treeCache[j].blockNumber == was[j].blockNumber;
    }

    /** Makes room, then appends the tree of a block. */
    method AddTree(blockNumber: nat) returns (error: Option<BlockError>)
      requires CacheValid() && !InCache(treeCache, blockNumber)
      modifies this`treeCache
      ensures CacheValid()
      ensures error == if Published(latestBlocks, store.blocks, blockNumber).None? then Some(NotPublished) else None
      ensures error.None? ==>
                && treeCache != [] && treeCache[|treeCache| - 1].blockNumber == blockNumber
                && treeCache[|treeCache| - 1].hitCount == 0
                && fresh(treeCache[|treeCache| - 1].tree) && fresh(treeCache[|treeCache| - 1].tree.hashes)
      ensures RoomMade(old(treeCache), if error.Some? then treeCache else treeCache[..|treeCache| - 1])
    {
      if |treeCache| >= TREE_CACHE_SIZE {
        Evict();
      }
      var block := GetBlock(blockNumber);
      if block.Failure? {
        return Some(block.error);
      }
      hide CacheValid, IsTreeOf, Published;
      ghost var kept := treeCache;
      PushTree(blockNumber, block.value);
      assert treeCache[..|treeCache| - 1] == kept;
      return None;
    }

    method PushTree(blockNumber: nat, block: Block)
      requires CacheValid() && !InCache(treeCache, blockNumber) && |treeCache| < TREE_CACHE_SIZE
      requires Published(latestBlocks, store.blocks, blockNumber) == Some(block)
      modifies this`treeCache
      ensures CacheValid()
      ensures |treeCache| == |old(treeCache)| + 1 && treeCache[..|old(treeCache)|] == old(treeCache)
      ensures var entry := treeCache[|old(treeCache)|];
              entry.blockNumber == blockNumber && entry.hitCount == 0 && fresh(entry.tree) && fresh(entry.tree.hashes)
    {
      ghost var was := treeCache;
      var tree := new MerkleTree(block.members, blockNumber);
      treeCache := treeCache + [CacheEntry(blockNumber, tree, 0)];
      assert forall i :: 0 <= i < |was| ==> treeCache[i] == was[i] && IsTreeOf(was[i].tree, was[i].blockNumber);
    }

    method Evict()
      requires CacheValid() && treeCache != []
      modifies this`treeCache
      ensures CacheValid() && DropsLeastUsed(old(treeCache), treeCache) && |treeCache| == |old(treeCache)| - 1
      ensures forall e :: e in treeCache ==> e in old(treeCache)
    {
      hide IsTreeOf;
      var minIndex := LeastUsed(treeCache);
      var k := if minIndex == -1 then |treeCache| - 1 else minIndex;
      ghost var was := treeCache;
      assert DropsLeastUsed(was, was[..k] + was[k + 1..]);
      hide DropsLeastUsed;
      treeCache := treeCache[..k] + treeCache[k + 1..];
      WithoutOne(was, k);
      forall i | 0 <= i < |treeCache| ensures IsTreeOf(treeCache[i].tree, treeCache[i].blockNumber) {
        assert treeCache[i] in was;
      }
    }

    /** The proof is the path of the block's tree, as the tree serves it. */
    method GetProofAt(address: Address, blockNumber: nat) returns (r: Result<seq<Digest>, BlockError>)
      requires CacheValid()
      requires Published(latestBlocks, store.blocks, blockNumber).Some? ==>
               |Published(latestBlocks, store.blocks, blockNumber).value.members| <= MAX_ROUNDED
      modifies this`treeCache, Trees()
      ensures CacheValid()
      ensures match Published(latestBlocks, store.blocks, blockNumber)
              case None => r == Failure(NotPublished)
              case Some(block) =>
                match ServedPath(block.members, blockNumber, address)
                case None => r == Failure(MemberNotFound)
                case Some(path) => r == Success(path)
    {
      hide LookedUp, RoomMade, ServedPath;
      var block := GetBlock(blockNumber);
      if block.Failure? {
        return Failure(block.error);
      }
      ServedExactlyIfListed(block.value.members, blockNumber, address);
      if forall i :: 0 <= i < |block.value.members| ==> block.value.members[i].address != address {
        return Failure(MemberNotFound);
      }
      var tree := GetTreeAt(blockNumber);
      var path := tree.value.GetPath(address);
      return Success(path.value);
    }

    method PrepareRootHash(blockNumber: nat) returns (r: Result<Digest, TreeError>)
      requires Valid() && |members| <= MAX_ROUNDED
      ensures members != [] && r == Success(Root(Listing(members), blockNumber))
    {
      assert View().members != [];
      hide Listing, Spec.Valid, Root;
      var tree := new MerkleTree(Listing(members), blockNumber);
      r := tree.GetRootHash();
    }
  }

  /** What the operator does once a commit is confirmed: the clone stores its snapshot, and the live state lists the
      block. A new number leaves every cached tree of the live state right. */
  method StorePublished(state: MonoplasmaState, plasma: MonoplasmaState, blockNumber: nat, timestamp: nat)
    returns (r: Result<Block, BlockError>)
    requires state.Valid() && plasma.CacheValid() && state != plasma && state.store == plasma.store
    modifies state`latestBlocks, plasma`latestBlocks, state.store
    ensures match Playback.StoreBlock(old(state.PlasmaView()), blockNumber, timestamp)
            case Failure(e) =>
              && r == Failure(e) && plasma.CacheValid()
              && plasma.latestBlocks == old(plasma.latestBlocks) && state.store.View() == old(state.store.View())
            case Success(stored) =>
              var block := Playback.BlockOf(old(state.View()), blockNumber, timestamp);
              && r == Success(block) && state.store.View() == stored.files
              && plasma.latestBlocks == SortDescending([block] + old(plasma.latestBlocks))
              && Published(plasma.latestBlocks, plasma.store.blocks, blockNumber) == Some(block)
              && (Descending(old(plasma.latestBlocks)) && Find(old(plasma.latestBlocks), blockNumber).None? ==>
                    Descending(plasma.latestBlocks))
              && (Published(old(plasma.latestBlocks), old(plasma.store.blocks), blockNumber).None? ==>
                 plasma.CacheValid())
  {
    hide state.Valid, state.View, SortDescending, HasNewer;
    r := state.StoreBlock(blockNumber, timestamp);
    if r.Success? {
      if Published(plasma.latestBlocks, old(plasma.store.blocks), blockNumber).None? {
        assert forall i :: 0 <= i < |plasma.treeCache| ==>
               old(plasma.IsTreeOf(plasma.treeCache[i].tree, plasma.treeCache[i].blockNumber));
        assert plasma.CacheValid();
      }
      SortFindsTheSame([r.value] + plasma.latestBlocks, blockNumber);
      if Descending(plasma.latestBlocks) && Find(plasma.latestBlocks, blockNumber).None? {
        ListedInOrder(r.value, plasma.latestBlocks);
      }
      plasma.ListBlock(r.value);
    }
  }

  lemma JoinNone(l: Spec.Ledger)
    requires Spec.Valid(l)
    ensures Playback.JoinAll(l, []) == l && Playback.NewlyAdded(l, []) == []
  {
  }

  lemma PartNone(l: Spec.Ledger)
    requires Spec.Valid(l)
    ensures Playback.PartAll(l, []) == l && Playback.NewlyRemoved(l, []) == []
  {
  }

  lemma Regroup(soFar: seq<Address>, one: seq<Address>, rest: seq<Address>)
    ensures soFar + (one + rest) == (soFar + one) + rest
    ensures soFar + [] == soFar
  {
  }

  lemma JoinOne(l: Spec.Ledger, addresses: seq<Address>, i: nat)
    requires Spec.Valid(l) && i < |addresses|
    ensures Spec.Indexed(l) && Spec.Valid(Spec.AddMember(l, addresses[i], ""))
    ensures Playback.JoinAll(l, addresses[i..]) ==
            Playback.JoinAll(Spec.AddMember(l, addresses[i], ""), addresses[i + 1..])
    ensures Playback.NewlyAdded(l, addresses[i..]) ==
            (if addresses[i] in l.indexOf then [] else [addresses[i]])
            + Playback.NewlyAdded(Spec.AddMember(l, addresses[i], ""), addresses[i + 1..])
  {
    Spec.AddMemberKeepsValid(l, addresses[i], "");
    assert addresses[i..][1..] == addresses[i + 1..];
  }

  lemma PartOne(l: Spec.Ledger, addresses: seq<Address>, i: nat)
    requires Spec.Valid(l) && i < |addresses|
    ensures Spec.Indexed(l) && Spec.Valid(Spec.RemoveMember(l, addresses[i]))
    ensures Playback.PartAll(l, addresses[i..]) ==
            Playback.PartAll(Spec.RemoveMember(l, addresses[i]), addresses[i + 1..])
    ensures Playback.NewlyRemoved(l, addresses[i..]) ==
            (if addresses[i] in l.indexOf && l.members[l.indexOf[addresses[i]]].active then [addresses[i]] else [])
            + Playback.NewlyRemoved(Spec.RemoveMember(l, addresses[i]), addresses[i + 1..])
  {
    Spec.RemoveMemberKeepsValid(l, addresses[i]);
    assert addresses[i..][1..] == addresses[i + 1..];
  }

  lemma AddMemberParts(l: Spec.Ledger, address: Address, name: string)
    requires Spec.Valid(l)
    ensures Spec.Valid(Spec.AddMember(l, address, name))
    ensures address !in l.indexOf ==>
              Spec.AddMember(l, address, name) == l.(members := l.members + [Member(name, address, 0, true)],
                                                     indexOf := l.indexOf[address := |l.members|])
    ensures address in l.indexOf ==>
              var i := l.indexOf[address];
              && i < |l.members|
              && Spec.AddMember(l, address, name) == l.(members := l.members[i := l.members[i].(active := true)])
  {
    Spec.AddMemberKeepsValid(l, address, name);
  }

  lemma RemoveMemberParts(l: Spec.Ledger, address: Address)
    requires Spec.Valid(l)
    ensures Spec.Indexed(l) && Spec.Valid(Spec.RemoveMember(l, address))
    ensures address in l.indexOf ==> l.indexOf[address] < |l.members|
  {
    Spec.RemoveMemberKeepsValid(l, address);
  }

  /** A payout is a payment to the admin, then to the active members. */
  lemma RevenueSteps(l: Spec.Ledger, amount: nat)
    requires Spec.Valid(l)
    ensures Spec.AdminInList(l) && l.adminFee <= Spec.ONE
    ensures Spec.Valid(Spec.AddRevenue(l, amount))
    ensures amount * l.adminFee / Spec.ONE <= amount
    ensures Spec.AddRevenue(l, amount) ==
            if Spec.ActiveCount(l.members) == 0 then Spec.CreditAdmin(l, amount)
            else
              var adminFee := amount * l.adminFee / Spec.ONE;
              var credited := Spec.CreditAdmin(l, adminFee);
              credited.(members := Spec.CreditActive(credited.members,
                  (amount - adminFee) / Spec.ActiveCount(l.members)),
                        totalEarnings := l.totalEarnings + amount)
  {
    hide Spec.ActiveCount, Spec.CreditActive, Spec.CreditAdmin, Spec.ActiveIndexed, Spec.Indexed;
    Spec.AddRevenueKeepsValid(l, amount);
    Spec.FractionAtMostWhole(amount, l.adminFee);
  }
}
