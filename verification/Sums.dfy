/** Sums over per-address amounts. */
module Sums {
  import opened Members

  /** A mapping reads as zero where nothing was written. */
  function Get(m: map<Address, nat>, a: Address): nat {
    if a in m then m[a] else 0
  }

  ghost function Total(m: map<Address, nat>): nat {
    if m == map[] then 0
    else
      var a :| a in m;
      m[a] + Total(m - {a})
  }

  lemma {:induction false} TotalWithout(m: map<Address, nat>, a: Address)
    ensures Total(m) == Get(m, a) + Total(m - {a})
    decreases |m|
  {
    if a !in m {
      assert m - {a} == m;
    } else {
      var b :| b in m && Total(m) == m[b] + Total(m - {b});
      if b != a {
        TotalWithout(m - {b}, a);
        TotalWithout(m - {a}, b);
        assert m - {b} - {a} == m - {a} - {b};
      }
    }
  }

  lemma TotalUpdated(m: map<Address, nat>, a: Address, v: nat)
    ensures Total(m[a := v]) == Total(m) - Get(m, a) + v
  {
    TotalWithout(m, a);
    TotalWithout(m[a := v], a);
    assert m[a := v] - {a} == m - {a};
  }

  lemma {:induction false} TotalMonotone(low: map<Address, nat>, high: map<Address, nat>)
    requires forall b :: Get(low, b) <= Get(high, b)
    ensures Total(low) <= Total(high)
    decreases |low|
  {
    if low != map[] {
      var c :| c in low && Total(low) == low[c] + Total(low - {c});
      TotalWithout(high, c);
      assert Get(low, c) <= Get(high, c);
      forall b ensures Get(low - {c}, b) <= Get(high - {c}, b) {
        assert Get(low, b) <= Get(high, b);
      }
      TotalMonotone(low - {c}, high - {c});
    }
  }

  /** One address's gap between two mappings is at most the gap between their totals. */
  lemma GapAtMostTotalGap(low: map<Address, nat>, high: map<Address, nat>, a: Address)
    requires forall b :: Get(low, b) <= Get(high, b)
    ensures Get(high, a) - Get(low, a) <= Total(high) - Total(low)
  {
    TotalWithout(low, a);
    TotalWithout(high, a);
    forall b ensures Get(low - {a}, b) <= Get(high - {a}, b) {
      assert Get(low, b) <= Get(high, b);
    }
    TotalMonotone(low - {a}, high - {a});
  }

  /** Amounts that each fit under some entry of the same address sum to at most the sum of the entries. */
  lemma {:induction false} TotalAtMostEntries(amounts: map<Address, nat>, members: seq<Member>)
    requires forall a :: a in amounts && amounts[a] > 0 ==>
               exists j :: 0 <= j < |members| && members[j].address == a && amounts[a] <= members[j].earnings
    ensures Total(amounts) <= SumEarnings(members)
    decreases |members|, |amounts|
  {
    if members == [] {
      if a :| a in amounts {
        TotalWithout(amounts, a);
        TotalAtMostEntries(amounts - {a}, members);
      }
    } else {
      var last := |members| - 1;
      var b := members[last].address;
      var rest := if Get(amounts, b) <= members[last].earnings then amounts - {b} else amounts;
      TotalWithout(amounts, b);
      forall a | a in rest && rest[a] > 0
        ensures exists j ::
                  0 <= j < |members[..last]| && members[..last][j].address == a
                    && rest[a] <= members[..last][j].earnings
      {
        var j :| 0 <= j < |members| && members[j].address == a && amounts[a] <= members[j].earnings;
        assert j < last;
        assert members[..last][j] == members[j];
      }
      TotalAtMostEntries(rest, members[..last]);
    }
  }
}
