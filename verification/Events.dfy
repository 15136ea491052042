/** Ethereum events and stream messages, and the two merges that put them in order. */
module Events {
  import opened Members

  datatype Action =
    | Transfer(value: nat)
    | NewCommit(committedBlock: nat)
    | AdminFeeChanged(adminFee: nat)
    | Join(addresses: seq<Address>)
    | Part(addresses: seq<Address>)
    | Unexpected

  /** An Ethereum event has a place in the chain, a stream message only a time. */
  datatype Event = Event(blockNumber: nat, transactionIndex: nat, logIndex: nat, timestamp: nat, action: Action)

  /** Chain order: by block, transaction, and log index. */
  predicate InChainOrder(a: Event, b: Event) {
    || a.blockNumber < b.blockNumber
    || (a.blockNumber == b.blockNumber &&
        (|| a.transactionIndex < b.transactionIndex
        || (a.transactionIndex == b.transactionIndex && a.logIndex <= b.logIndex)))
  }

  predicate InTimeOrder(a: Event, b: Event) {
    a.timestamp <= b.timestamp
  }

  // ----- what merging is

  /** Takes from the first list as long as that is in order. */
  function Merge(xs: seq<Event>, ys: seq<Event>, inOrder: (Event, Event) -> bool): seq<Event> {
    if xs == [] then ys
    else if ys == [] then xs
    else if inOrder(xs[0], ys[0]) then [xs[0]] + Merge(xs[1..], ys, inOrder)
    else [ys[0]] + Merge(xs, ys[1..], inOrder)
  }

  ghost predicate TotalPreorder(inOrder: (Event, Event) -> bool) {
    && (forall a, b :: inOrder(a, b) || inOrder(b, a))
    && (forall a, b, c :: inOrder(a, b) && inOrder(b, c) ==> inOrder(a, c))
  }

  ghost predicate Sorted(xs: seq<Event>, inOrder: (Event, Event) -> bool) {
    forall i, j :: 0 <= i < j < |xs| ==> inOrder(xs[i], xs[j])
  }

  /** The events that tie with a given one, in their order. */
  function Ties(xs: seq<Event>, inOrder: (Event, Event) -> bool, z: Event): seq<Event> {
    if xs == [] then []
    else (if inOrder(xs[0], z) && inOrder(z, xs[0]) then [xs[0]] else []) + Ties(xs[1..], inOrder, z)
  }

  lemma {:induction false} MergeIsPermutation(xs: seq<Event>, ys: seq<Event>, inOrder: (Event, Event) -> bool)
    ensures multiset(Merge(xs, ys, inOrder)) == multiset(xs) + multiset(ys)
  {
    if xs != [] && ys != [] {
      assert xs == [xs[0]] + xs[1..] && ys == [ys[0]] + ys[1..];
      if inOrder(xs[0], ys[0]) {
        MergeIsPermutation(xs[1..], ys, inOrder);
      } else {
        MergeIsPermutation(xs, ys[1..], inOrder);
      }
    }
  }

  lemma MergedFrom(xs: seq<Event>, ys: seq<Event>, inOrder: (Event, Event) -> bool, e: Event)
    ensures e in Merge(xs, ys, inOrder) <==> e in xs || e in ys
  {
    MergeIsPermutation(xs, ys, inOrder);
    assert e in Merge(xs, ys, inOrder) <==> e in multiset(Merge(xs, ys, inOrder));
  }

  /** What goes before everything in both lists goes before everything in the merge. */
  lemma FirstOfBoth(xs: seq<Event>, ys: seq<Event>, inOrder: (Event, Event) -> bool, e: Event)
    requires forall x :: x in xs || x in ys ==> inOrder(e, x)
    requires Sorted(Merge(xs, ys, inOrder), inOrder)
    ensures Sorted([e] + Merge(xs, ys, inOrder), inOrder)
  {
    forall x | x in Merge(xs, ys, inOrder) ensures inOrder(e, x) {
      MergedFrom(xs, ys, inOrder, x);
    }
  }

  lemma {:induction false} MergeIsSorted(xs: seq<Event>, ys: seq<Event>, inOrder: (Event, Event) -> bool)
    requires TotalPreorder(inOrder) && Sorted(xs, inOrder) && Sorted(ys, inOrder)
    ensures Sorted(Merge(xs, ys, inOrder), inOrder)
  {
    if xs != [] && ys != [] {
      var x, y := xs[0], ys[0];
      if inOrder(x, y) {
        MergeIsSorted(xs[1..], ys, inOrder);
        forall e | e in xs[1..] || e in ys ensures inOrder(x, e) {
          assert e in ys ==> inOrder(y, e);
        }
        FirstOfBoth(xs[1..], ys, inOrder, x);
      } else {
        MergeIsSorted(xs, ys[1..], inOrder);
        forall e | e in xs || e in ys[1..] ensures inOrder(y, e) {
          assert e in xs ==> e == x || inOrder(x, e);
        }
        FirstOfBoth(xs, ys[1..], inOrder, y);
      }
    }
  }

  lemma {:induction false} NoTies(xs: seq<Event>, inOrder: (Event, Event) -> bool, z: Event)
    requires forall x :: x in xs ==> !inOrder(x, z)
    ensures Ties(xs, inOrder, z) == []
  {
    if xs != [] {
      NoTies(xs[1..], inOrder, z);
    }
  }

  lemma TiesOf(xs: seq<Event>, inOrder: (Event, Event) -> bool, z: Event)
    requires xs != []
    ensures Ties(xs, inOrder, z) ==
            (if inOrder(xs[0], z) && inOrder(z, xs[0]) then [xs[0]] else []) + Ties(xs[1..], inOrder, z)
  {
  }

  lemma TiesAfter(e: Event, rest: seq<Event>, inOrder: (Event, Event) -> bool, z: Event)
    ensures Ties([e] + rest, inOrder, z) ==
            (if inOrder(e, z) && inOrder(z, e) then [e] else []) + Ties(rest, inOrder, z)
  {
    assert ([e] + rest)[1..] == rest;
  }

  /** Among events that tie, those of the first list come first, and each list keeps its order. */
  lemma {:induction false} MergeIsStable(xs: seq<Event>, ys: seq<Event>, inOrder: (Event, Event) -> bool, z: Event)
    requires TotalPreorder(inOrder) && Sorted(xs, inOrder) && Sorted(ys, inOrder)
    ensures Ties(Merge(xs, ys, inOrder), inOrder, z) == Ties(xs, inOrder, z) + Ties(ys, inOrder, z)
  {
    if xs != [] && ys != [] {
      var x, y := xs[0], ys[0];
      TiesOf(xs, inOrder, z);
      TiesOf(ys, inOrder, z);
      if inOrder(x, y) {
        MergeIsStable(xs[1..], ys, inOrder, z);
        TiesAfter(x, Merge(xs[1..], ys, inOrder), inOrder, z);
      } else {
        MergeIsStable(xs, ys[1..], inOrder, z);
        TiesAfter(y, Merge(xs, ys[1..], inOrder), inOrder, z);
        if inOrder(y, z) && inOrder(z, y) {
          OvertakenHaveNoTies(xs, y, inOrder, z);
        }
      }
    }
  }

  /** An event that overtakes a list ties with none of it. */
  lemma OvertakenHaveNoTies(xs: seq<Event>, y: Event, inOrder: (Event, Event) -> bool, z: Event)
    requires TotalPreorder(inOrder) && Sorted(xs, inOrder) && xs != [] && !inOrder(xs[0], y) && inOrder(z, y)
    ensures Ties(xs, inOrder, z) == []
  {
    forall e | e in xs ensures !inOrder(e, z) {
      assert e == xs[0] || inOrder(xs[0], e);
      assert inOrder(e, z) ==> inOrder(e, y);
    }
    NoTies(xs, inOrder, z);
  }

  /** Merging two lists that are cut at the same point is merging the parts. */
  lemma {:induction false} MergeSplits(xs1: seq<Event>, xs2: seq<Event>, ys1: seq<Event>, ys2: seq<Event>,
                                       inOrder: (Event, Event) -> bool)
    requires forall x, y :: x in xs1 && y in ys2 ==> inOrder(x, y)
    requires forall x, y :: x in xs2 && y in ys1 ==> !inOrder(x, y)
    ensures Merge(xs1 + xs2, ys1 + ys2, inOrder) == Merge(xs1, ys1, inOrder) + Merge(xs2, ys2, inOrder)
    decreases |xs1| + |ys1|
  {
    if xs1 == [] && ys1 == [] {
      assert xs1 + xs2 == xs2 && ys1 + ys2 == ys2 && Merge(xs1, ys1, inOrder) == [];
      return;
    }
    hide Merge;
    if ys1 == [] || (xs1 != [] && inOrder(xs1[0], ys1[0])) {
      MergeSplits(xs1[1..], xs2, ys1, ys2, inOrder);
      SplitTakesFirst(xs1, xs2, ys1, ys2, inOrder);
      Prepended(xs1[0], Merge(xs1[1..], ys1, inOrder), Merge(xs2, ys2, inOrder));
    } else {
      MergeSplits(xs1, xs2, ys1[1..], ys2, inOrder);
      SplitTakesSecond(xs1, xs2, ys1, ys2, inOrder);
      Prepended(ys1[0], Merge(xs1, ys1[1..], inOrder), Merge(xs2, ys2, inOrder));
    }
  }

  lemma Prepended(e: Event, es: seq<Event>, more: seq<Event>)
    ensures [e] + (es + more) == ([e] + es) + more
  {
  }

  lemma SplitTakesFirst(xs1: seq<Event>, xs2: seq<Event>, ys1: seq<Event>, ys2: seq<Event>,
                        inOrder: (Event, Event) -> bool)
    requires forall x, y :: x in xs1 && y in ys2 ==> inOrder(x, y)
    requires xs1 != [] && (ys1 == [] || inOrder(xs1[0], ys1[0]))
    ensures Merge(xs1 + xs2, ys1 + ys2, inOrder) == [xs1[0]] + Merge(xs1[1..] + xs2, ys1 + ys2, inOrder)
    ensures Merge(xs1, ys1, inOrder) == [xs1[0]] + Merge(xs1[1..], ys1, inOrder)
  {
    assert (xs1 + xs2)[1..] == xs1[1..] + xs2;
    TakesFirst(xs1 + xs2, ys1 + ys2, inOrder);
    TakesFirst(xs1, ys1, inOrder);
  }

  lemma SplitTakesSecond(xs1: seq<Event>, xs2: seq<Event>, ys1: seq<Event>, ys2: seq<Event>,
                         inOrder: (Event, Event) -> bool)
    requires forall x, y :: x in xs2 && y in ys1 ==> !inOrder(x, y)
    requires ys1 != [] && (xs1 == [] || !inOrder(xs1[0], ys1[0]))
    ensures Merge(xs1 + xs2, ys1 + ys2, inOrder) == [ys1[0]] + Merge(xs1 + xs2, ys1[1..] + ys2, inOrder)
    ensures Merge(xs1, ys1, inOrder) == [ys1[0]] + Merge(xs1, ys1[1..], inOrder)
  {
    assert (ys1 + ys2)[1..] == ys1[1..] + ys2;
    TakesSecond(xs1 + xs2, ys1 + ys2, inOrder);
    TakesSecond(xs1, ys1, inOrder);
  }

  lemma TakesFirst(xs: seq<Event>, ys: seq<Event>, inOrder: (Event, Event) -> bool)
    requires xs != [] && (ys == [] || inOrder(xs[0], ys[0]))
    ensures Merge(xs, ys, inOrder) == [xs[0]] + Merge(xs[1..], ys, inOrder)
  {
  }

  lemma TakesSecond(xs: seq<Event>, ys: seq<Event>, inOrder: (Event, Event) -> bool)
    requires ys != [] && (xs == [] || !inOrder(xs[0], ys[0]))
    ensures Merge(xs, ys, inOrder) == [ys[0]] + Merge(xs, ys[1..], inOrder)
  {
  }

  lemma BothOrdersAreTotalPreorders()
    ensures TotalPreorder(InChainOrder) && TotalPreorder(InTimeOrder)
  {
  }

  // ----- the two merge loops

  /** By place in the chain; events of the first list come first if tied. */
  method MergeEventLists(events1: seq<Event>, events2: seq<Event>) returns (ret: seq<Event>)
    ensures ret == Merge(events1, events2, InChainOrder)
  {
    if |events1| < 1 { return events2; }
    if |events2| < 1 { return events1; }
    ret := [];
    var i1, i2 := 0, 0;
    var block1, block2 := events1[0].blockNumber, events2[0].blockNumber;
    var txi1, txi2 := events1[0].transactionIndex, events2[0].transactionIndex;
    var li1, li2 := events1[0].logIndex, events2[0].logIndex;
    while true
      invariant 0 <= i1 < |events1| && 0 <= i2 < |events2|
      invariant block1 == events1[i1].blockNumber && txi1 == events1[i1].transactionIndex && li1 == events1[i1].logIndex
      invariant block2 == events2[i2].blockNumber && txi2 == events2[i2].transactionIndex && li2 == events2[i2].logIndex
      invariant ret + Merge(events1[i1..], events2[i2..], InChainOrder) == Merge(events1, events2, InChainOrder)
      decreases |events1| - i1 + |events2| - i2
    {
      OneMore(ret, events1, i1, events2, i2, InChainOrder);
      if block1 < block2 || (block1 == block2 && (txi1 < txi2 || (txi1 == txi2 && li1 <= li2))) {
        ret := ret + [events1[i1]];
        i1 := i1 + 1;
        if i1 >= |events1| {
          return ret + events2[i2..];
        }
        block1, txi1, li1 := events1[i1].blockNumber, events1[i1].transactionIndex, events1[i1].logIndex;
      } else {
        ret := ret + [events2[i2]];
        i2 := i2 + 1;
        if i2 >= |events2| {
          return ret + events1[i1..];
        }
        block2, txi2, li2 := events2[i2].blockNumber, events2[i2].transactionIndex, events2[i2].logIndex;
      }
    }
  }

  /** By time; Ethereum events come first if tied. */
  method MergeEventsWithMessages(events: seq<Event>, messages: seq<Event>) returns (ret: seq<Event>)
    ensures ret == Merge(events, messages, InTimeOrder)
  {
    if |events| < 1 { return messages; }
    if |messages| < 1 { return events; }
    ret := [];
    var eventI, msgI := 0, 0;
    var eventT, msgT := events[0].timestamp, messages[0].timestamp;
    while true
      invariant 0 <= eventI < |events| && 0 <= msgI < |messages|
      invariant eventT == events[eventI].timestamp && msgT == messages[msgI].timestamp
      invariant ret + Merge(events[eventI..], messages[msgI..], InTimeOrder) == Merge(events, messages, InTimeOrder)
      decreases |events| - eventI + |messages| - msgI
    {
      OneMore(ret, events, eventI, messages, msgI, InTimeOrder);
      if msgT < eventT {
        ret := ret + [messages[msgI]];
        msgI := msgI + 1;
        if msgI >= |messages| {
          return ret + events[eventI..];
        }
        msgT := messages[msgI].timestamp;
      } else {
        ret := ret + [events[eventI]];
        eventI := eventI + 1;
        if eventI >= |events| {
          return ret + messages[msgI..];
        }
        eventT := events[eventI].timestamp;
      }
    }
  }

  lemma OneMore(ret: seq<Event>, xs: seq<Event>, i: nat, ys: seq<Event>, j: nat, inOrder: (Event, Event) -> bool)
    requires i < |xs| && j < |ys|
    ensures ret + Merge(xs[i..], ys[j..], inOrder) ==
            if inOrder(xs[i], ys[j]) then ret + [xs[i]] + Merge(xs[i + 1..], ys[j..], inOrder)
            else ret + [ys[j]] + Merge(xs[i..], ys[j + 1..], inOrder)
  {
    assert xs[i..][1..] == xs[i + 1..] && ys[j..][1..] == ys[j + 1..];
  }
}
