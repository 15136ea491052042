/** Member lists as values: what `toObject` returns for each member, in order. */
module Members {

  type Address = nat

  datatype Member = Member(name: string, address: Address, earnings: nat, active: bool)

  /** The index of each address, counted from `first`: an address that occurs twice is found at its last place. */
  function IndexOf(contents: seq<Member>, first: nat): map<Address, nat> {
    if contents == [] then map[]
    else
      var last := |contents| - 1;
      IndexOf(contents[..last], first)[contents[last].address := first + last]
  }

  ghost predicate LastWithItsAddress(contents: seq<Member>, j: nat) {
    && j < |contents|
    && forall i :: j < i < |contents| ==> contents[i].address != contents[j].address
  }

  lemma {:induction false} IndexOfFindsLast(contents: seq<Member>, first: nat, address: Address)
    ensures address in IndexOf(contents, first) ==>
              var j := IndexOf(contents, first)[address] - first;
              0 <= j && LastWithItsAddress(contents, j) && contents[j].address == address
    ensures address !in IndexOf(contents, first) ==>
              forall j :: 0 <= j < |contents| ==> contents[j].address != address
  {
    if contents != [] {
      var last := |contents| - 1;
      IndexOfFindsLast(contents[..last], first, address);
      assert forall j :: 0 <= j < last ==> contents[..last][j] == contents[j];
    }
  }

  function SumEarnings(members: seq<Member>): nat {
    if members == [] then 0
    else SumEarnings(members[..|members| - 1]) + members[|members| - 1].earnings
  }

  lemma {:induction false} SumEarningsAppended(members: seq<Member>, m: Member)
    ensures SumEarnings(members + [m]) == SumEarnings(members) + m.earnings
  {
    assert (members + [m])[..|members|] == members;
  }

  lemma {:induction false} SumEarningsUpdated(members: seq<Member>, i: nat, m: Member)
    requires i < |members|
    ensures SumEarnings(members[i := m]) == SumEarnings(members) - members[i].earnings + m.earnings
  {
    var last := |members| - 1;
    if i == last {
      assert members[i := m][..last] == members[..last];
    } else {
      assert members[i := m][..last] == members[..last][i := m];
      SumEarningsUpdated(members[..last], i, m);
    }
  }
}
