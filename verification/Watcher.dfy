/** The watcher: it plays a state up to a block from chain logs and cached messages, and prunes the cache. */
module Watchers {
  import opened Wrappers
  import opened Events
  import opened Blocks
  import opened MonoplasmaStates
  import Spec = Playback
  import Ledgers

  const TWO_31: int := 0x8000_0000
  const MAX_SEARCHED: nat := 0x4000_0000

  /** `x >> 1` on the 32-bit integers that JavaScript shifts. */
  function ShiftRight32(x: int): int {
    var w := x % (2 * TWO_31);
    (if w >= TWO_31 then w - 2 * TWO_31 else w) / 2
  }

  lemma ShiftHalves(x: nat)
    ensures x < TWO_31 ==> ShiftRight32(x) == x / 2
    ensures TWO_31 <= x < 2 * TWO_31 ==> ShiftRight32(x) < 0
  {
  }

  function Midpoint(left: nat, right: nat): int {
    ShiftRight32(left + right)
  }

  /** The midpoints of a search over n items lie halfway exactly for n up to 2^30. */
  lemma MidpointsAreRightExactlyUpTo(n: nat)
    ensures (forall left: nat, right: nat :: left < right <= n ==> Midpoint(left, right) == (left + right) / 2)
       <==> n <= MAX_SEARCHED
  {
    hide ShiftRight32;
    forall left: nat, right: nat | left < right <= n && n <= MAX_SEARCHED
      ensures Midpoint(left, right) == (left + right) / 2
    {
      ShiftHalves(left + right);
    }
    ShiftHalves(2 * MAX_SEARCHED + 1);
    assert Midpoint(MAX_SEARCHED, MAX_SEARCHED + 1) < 0;
  }

  /** The index of the first item fulfilling the condition, if all items after one that fulfils it do so too. On more
      than 2^30 items midpoints can be wrong: then the condition may be asked of something that is not there, which
      fails, or the search may not end in any given number of turns. */
  method BisectFindFirstIndex<T>(items: seq<T>, condition: T -> bool, turns: nat) returns (r: Option<nat>)
    ensures |items| <= MAX_SEARCHED && |items| <= turns ==> r.Some? && r.value <= |items|
    ensures |items| <= MAX_SEARCHED && r.Some? && IsMonotone(items, condition) ==>
              TurnsTrueAt(items, condition, r.value)
  {
    var left, right, turn := 0, |items|, 0;
    while left < right
      invariant turn <= turns
      invariant |items| <= MAX_SEARCHED ==> left <= right <= |items| && right - left <= |items| - turn
      invariant |items| <= MAX_SEARCHED ==> (left > 0 ==> !condition(items[left - 1]))
      invariant |items| <= MAX_SEARCHED ==> (right < |items| ==> condition(items[right]))
      decreases turns - turn
    {
      ShiftHalves(left + right);
      var mid := Midpoint(left, right);
      if turn == turns || mid < 0 || mid >= |items| {
        return None;
      }
      if condition(items[mid]) {
        right := mid;
      } else {
        left := mid + 1;
      }
      turn := turn + 1;
    }
    r := Some(left);
  }

  /** All items after one that fulfils the condition do so too. */
  ghost predicate IsMonotone<T>(items: seq<T>, condition: T -> bool) {
    forall i, j :: 0 <= i < j < |items| && condition(items[i]) ==> condition(items[j])
  }

  ghost predicate TurnsTrueAt<T>(items: seq<T>, condition: T -> bool, k: nat) {
    k <= |items| && forall i :: 0 <= i < |items| ==> (condition(items[i]) <==> i >= k)
  }

  method ReplayEvent(plasma: MonoplasmaState, event: Event) returns (error: Option<Spec.PlaybackError>)
    requires plasma.Valid()
    modifies plasma, plasma.members, plasma.adminMember, plasma.store
    ensures plasma.Valid()
    ensures Spec.Outcome(plasma.PlasmaView(), error) == Spec.ReplayEvent(old(plasma.PlasmaView()), event)
    ensures plasma.adminMember == old(plasma.adminMember)
    ensures forall m :: m in plasma.members ==> m in old(plasma.members) || fresh(m)
  {
    hide Ledgers.Valid, Ledgers.AddRevenue, Ledgers.SetAdminFee, Spec.StoreBlock, Spec.JoinAll, Spec.PartAll, Listing;
    match event.action {
      case Transfer(value) =>
        plasma.AddRevenue(value);
        return None;
      case NewCommit(committedBlock) =>
        if event.timestamp % 1000 != 0 {
          return Some(Spec.BlockFailed(BadTimestamp));
        }
        var r := plasma.StoreBlock(committedBlock, event.timestamp / 1000);
        return if r.Success? then None else Some(Spec.BlockFailed(r.error));
      case AdminFeeChanged(adminFee) =>
        var failed := plasma.SetAdminFeeFraction(adminFee);
        return if failed.None? then None else Some(Spec.FeeFailed);
      case Join(addresses) =>
        var added := plasma.AddMembers(addresses);
        return None;
      case Part(addresses) =>
        var removed := plasma.RemoveMembers(addresses);
        return None;
      case Unexpected =>
        return None;
    }
  }

  method ReplayOn(plasma: MonoplasmaState, events: seq<Event>, messages: seq<Event>)
    returns (error: Option<Spec.PlaybackError>)
    requires plasma.Valid()
    modifies plasma, plasma.members, plasma.adminMember, plasma.store
    ensures plasma.Valid()
    ensures Spec.Outcome(plasma.PlasmaView(), error) ==
            Spec.Replay(old(plasma.PlasmaView()), Merge(events, messages, InTimeOrder))
  {
    hide Ledgers.Valid, Spec.Replay, Spec.ReplayEvent, Listing, plasma.Valid, plasma.View, plasma.PlasmaView;
    plasma.ViewIsValid();
    ghost var p := plasma.PlasmaView();
    var merged := MergeEventsWithMessages(events, messages);
    var i := 0;
    assert merged[0..] == merged;
    while i < |merged|
      invariant 0 <= i <= |merged|
      invariant plasma.Valid() && plasma.adminMember == old(plasma.adminMember)
      invariant forall m :: m in plasma.members ==> m in old(plasma.members) || fresh(m)
      invariant Ledgers.Valid(plasma.PlasmaView().ledger)
      invariant Spec.Replay(plasma.PlasmaView(), merged[i..]) == Spec.Replay(p, merged)
    {
      ReplayNext(plasma.PlasmaView(), merged, i);
      assert forall k :: 0 <= k < |plasma.members| ==>
             plasma.members[k] in old(plasma.members) || fresh(plasma.members[k]);
      error := ReplayEvent(plasma, merged[i]);
      if error.Some? {
        return;
      }
      i := i + 1;
    }
    assert merged[i..] == [];
    plasma.ViewIsValid();
    ReplayNone(plasma.PlasmaView());
    return None;
  }

  lemma ReplayNext(p: Spec.Plasma, events: seq<Event>, i: nat)
    requires Ledgers.Valid(p.ledger) && i < |events|
    ensures Spec.Replay(p, events[i..]) ==
            var first := Spec.ReplayEvent(p, events[i]);
            if first.error.Some? then first else Spec.Replay(first.plasma, events[i + 1..])
  {
    hide Spec.ReplayEvent, Ledgers.Valid;
    assert events[i..][1..] == events[i + 1..];
  }

  lemma ReplayNone(p: Spec.Plasma)
    requires Ledgers.Valid(p.ledger)
    ensures Spec.Replay(p, []) == Spec.Outcome(p, None)
  {
  }

  /** Sets each event's time to that of its block. */
  method SetTimestamps(events: seq<Event>, blockTime: nat -> nat) returns (timed: seq<Event>)
    ensures timed == Spec.Timed(events, blockTime)
  {
    timed := events;
    var i := 0;
    while i < |events|
      invariant 0 <= i <= |events| == |timed|
      invariant forall j :: 0 <= j < i ==> timed[j] == events[j].(timestamp := blockTime(events[j].blockNumber))
      invariant forall j :: i <= j < |events| ==> timed[j] == events[j]
    {
      timed := timed[i := timed[i].(timestamp := blockTime(timed[i].blockNumber))];
      i := i + 1;
    }
  }

  class MonoplasmaWatcher {
    var messageCache: seq<Event>
    var cachePrunedUpTo: nat
    var plasma: MonoplasmaState
    ghost var history: seq<Event>   // every message ever received

    /** The cache is what is left of the history, and the mark is right: nothing newer has been dropped. */
    ghost predicate CacheValid()
      reads this
    {
      Spec.PrunedFrom(messageCache, history, cachePrunedUpTo)
    }

    /** Messages came in time order. */
    ghost predicate InOrder()
      reads this
    {
      Spec.TimeSorted(history)
    }

    constructor (plasma: MonoplasmaState)
      ensures CacheValid() && InOrder() && this.plasma == plasma && messageCache == [] && cachePrunedUpTo == 0
    {
      messageCache, cachePrunedUpTo, history := [], 0, [];
      this.plasma := plasma;
    }

    /** A message is cached whenever it comes. The order is lost exactly if it is older than one that came before. */
    method OnMessage(message: Event)
      requires CacheValid()
      modifies this`messageCache, this`history
      ensures CacheValid() && history == old(history) + [message] && messageCache == old(messageCache) + [message]
      ensures InOrder() <==> old(InOrder()) && forall m :: m in old(history) ==> m.timestamp <= message.timestamp
    {
      messageCache := messageCache + [message];
      history := history + [message];
      assert history[..|history| - 1] == old(history);
      assert forall i :: 0 <= i < |old(history)| ==> history[i] == old(history)[i];
      assert history[|history| - 1] == message;
    }

    /** Plays a state up to a block and returns the block that was committed last in the range, zero if there was
        none, or nothing if playback was skipped. If messages came in time order, that is playback from the full
        history, or refused because too much was pruned. */
    method PlaybackUntilBlock(chain: Spec.Chain, toBlock: nat, plasma: MonoplasmaState)
      returns (error: Option<Spec.PlaybackError>, lastPublished: Option<nat>)
      requires CacheValid() && plasma.Valid() && |messageCache| <= MAX_SEARCHED
      modifies plasma, plasma.members, plasma.adminMember, plasma.store
      ensures plasma.Valid()
      ensures InOrder() ==> Spec.Outcome(plasma.PlasmaView(), error) ==
                            Spec.PlayUnlessPruned(old(plasma.PlasmaView()), chain, history, cachePrunedUpTo, toBlock)
      ensures lastPublished == Spec.PublishedBy(old(plasma.PlasmaView()), chain, toBlock, error)
    {
      plasma.ViewIsValid();
      ghost var p := plasma.PlasmaView();
      PlaysAsHistory(p, chain, toBlock);
      Spec.NothingPublishedIf(p, chain, toBlock);
      hide Spec.PlayUnlessPruned, Spec.PlayedOn, Spec.PublishedBy, Ledgers.Valid, CacheValid, InOrder;
      hide plasma.Valid, plasma.View, plasma.PlasmaView;
      var fromBlock := plasma.currentBlock + 1;
      if toBlock <= fromBlock {
        return None, None;
      }
      var fromTimestamp := plasma.currentTimestamp;
      if fromTimestamp < cachePrunedUpTo {
        return Some(Spec.CachePruned), None;
      }
      error, lastPublished := PlayWindow(chain, toBlock, plasma);
    }

    /** The three cases of playback, in terms of the full history. */
    lemma PlaysAsHistory(p: Spec.Plasma, chain: Spec.Chain, toBlock: nat)
      requires CacheValid() && Ledgers.Valid(p.ledger)
      ensures Spec.PlayUnlessPruned(p, chain, history, cachePrunedUpTo, toBlock) ==
              if toBlock <= p.currentBlock + 1 then Spec.Outcome(p, None)
              else if p.currentTimestamp < cachePrunedUpTo then Spec.Outcome(p, Some(Spec.CachePruned))
              else Spec.PlayedOn(p, chain, messageCache, toBlock)
    {
      hide Ledgers.Valid, Spec.PlayedOn;
      Spec.PruningIsTransparent(p, chain, messageCache, history, cachePrunedUpTo, toBlock);
      Spec.PlayToIs(p, chain, messageCache, cachePrunedUpTo, toBlock);
    }

    /** Replays what has happened since the state's block and time, and moves the state on unless that fails. */
    method PlayWindow(chain: Spec.Chain, toBlock: nat, plasma: MonoplasmaState)
      returns (error: Option<Spec.PlaybackError>, lastPublished: Option<nat>)
      requires CacheValid() && plasma.Valid() && |messageCache| <= MAX_SEARCHED
      modifies plasma, plasma.members, plasma.adminMember, plasma.store
      ensures plasma.Valid()
      ensures InOrder() ==> Spec.Outcome(plasma.PlasmaView(), error) ==
                            Spec.PlayedOn(old(plasma.PlasmaView()), chain, messageCache, toBlock)
      ensures toBlock > old(plasma.currentBlock) + 1 ==>
                lastPublished == Spec.PublishedBy(old(plasma.PlasmaView()), chain, toBlock, error)
    {
      hide Ledgers.Valid, Spec.Replay, Spec.Happenings, Listing, CacheValid, InOrder, plasma.Valid, plasma.View;
      var events, messages, blockCreateEvents :=
        Pending(chain, plasma.currentBlock + 1, toBlock, plasma.currentTimestamp);
      error := ReplayOn(plasma, events, messages);
      if error.Some? {
        return error, None;
      }
      plasma.SetPosition(toBlock, chain.blockTime(toBlock));
      lastPublished := Some(Spec.LastCommitted(blockCreateEvents));
    }

    /** The logs of a range of blocks in chain order, with their times, and the messages of the same time. */
    method Pending(chain: Spec.Chain, fromBlock: nat, toBlock: nat, fromTimestamp: nat)
      returns (events: seq<Event>, messages: seq<Event>, blockCreateEvents: seq<Event>)
      requires CacheValid() && |messageCache| <= MAX_SEARCHED
      ensures blockCreateEvents == Spec.LogsBetween(chain.commitLogs, fromBlock, toBlock)
      ensures InOrder() ==> Merge(events, messages, InTimeOrder) ==
                            Spec.Happenings(chain, messageCache, fromBlock, toBlock, fromTimestamp)
    {
      var toTimestamp := chain.blockTime(toBlock);
      var adminFeeEvents := Spec.LogsBetween(chain.adminFeeLogs, fromBlock, toBlock);
      blockCreateEvents := Spec.LogsBetween(chain.commitLogs, fromBlock, toBlock);
      var transferEvents := Spec.LogsBetween(chain.transferLogs, fromBlock, toBlock);
      var ownEvents := MergeEventLists(adminFeeEvents, blockCreateEvents);
      events := MergeEventLists(ownEvents, transferEvents);
      events := SetTimestamps(events, chain.blockTime);
      messages := CachedBetween(fromTimestamp, toTimestamp);
    }

    /** A slice of the cache, found by two binary searches: the messages of a time window, if messages came in order. */
    method CachedBetween(fromTimestamp: nat, toTimestamp: nat) returns (messages: seq<Event>)
      requires CacheValid() && |messageCache| <= MAX_SEARCHED
      ensures exists a: nat, b: nat ::
                a <= |messageCache| && b <= |messageCache| && messages == Slice(messageCache, a, b)
      ensures InOrder() ==> messages == Spec.MessagesBetween(messageCache, fromTimestamp, toTimestamp)
    {
      var fromIndex := IndexAfter(fromTimestamp);
      var toIndex := IndexAfter(toTimestamp);
      messages := if fromIndex <= toIndex then messageCache[fromIndex..toIndex] else [];
      assert messages == Slice(messageCache, fromIndex, toIndex);
      if InOrder() {
        WindowIsSlice(messageCache, fromTimestamp, toTimestamp, fromIndex, toIndex);
      }
    }

    /** The index of the first cached message after a time, if messages came in order. */
    method IndexAfter(time: nat) returns (index: nat)
      requires CacheValid() && |messageCache| <= MAX_SEARCHED
      ensures index <= |messageCache| && (InOrder() ==> Spec.SplitsAt(messageCache, time, index))
    {
      var found := BisectFindFirstIndex(messageCache, (msg: Event) => msg.timestamp > time, |messageCache|);
      index := found.value;
      if InOrder() {
        CacheIsSorted();
        assert IsMonotone(messageCache, (msg: Event) => msg.timestamp > time);
      }
    }

    lemma CacheIsSorted()
      requires CacheValid() && InOrder()
      ensures Spec.TimeSorted(messageCache)
    {
      var dropped := |history| - |messageCache|;
      assert forall i :: 0 <= i < |messageCache| ==> messageCache[i] == history[dropped + i];
    }

    /** Drops a head of the cache, and sets the mark to the watcher's time. If messages came in order, what is dropped
        is what is not newer than that, and the mark is right exactly if nothing newer had been dropped before. */
    method ChannelPruneCache()
      requires CacheValid() && |messageCache| <= MAX_SEARCHED
      modifies this`messageCache, this`cachePrunedUpTo
      ensures cachePrunedUpTo == plasma.currentTimestamp
      ensures |messageCache| <= |old(messageCache)|
      ensures messageCache == old(messageCache)[|old(messageCache)| - |messageCache|..]
      ensures InOrder() ==>
                && messageCache == Spec.Kept(old(messageCache), cachePrunedUpTo)
                && (CacheValid() <==>
                      forall i :: 0 <= i < |history| - |old(messageCache)| ==> history[i].timestamp <= cachePrunedUpTo)
                && (old(cachePrunedUpTo) <= cachePrunedUpTo ==> CacheValid())
    {
      var lastRemovedTimestamp := plasma.currentTimestamp;
      var keepIndex := IndexAfter(lastRemovedTimestamp);
      if InOrder() {
        KeptAfterPruning(messageCache, history, cachePrunedUpTo, lastRemovedTimestamp, keepIndex);
      }
      hide Spec.PrunedFrom, Spec.Kept;
      messageCache := messageCache[keepIndex..];
      cachePrunedUpTo := lastRemovedTimestamp;
    }
  }

  /** The mark after pruning is right exactly if nothing newer had been dropped before. */
  lemma KeptAfterPruning(cache: seq<Event>, history: seq<Event>, mark: nat, newMark: nat, keepIndex: nat)
    requires Spec.PrunedFrom(cache, history, mark) && Spec.SplitsAt(cache, newMark, keepIndex)
    ensures cache[keepIndex..] == Spec.Kept(cache, newMark)
    ensures Spec.PrunedFrom(cache[keepIndex..], history, newMark) <==>
            forall i :: 0 <= i < |history| - |cache| ==> history[i].timestamp <= newMark
    ensures mark <= newMark ==> Spec.PrunedFrom(cache[keepIndex..], history, newMark)
  {
    var dropped := |history| - |cache|;
    assert forall i :: dropped <= i < |history| ==> history[i] == cache[i - dropped];
    assert cache[keepIndex..] == history[dropped + keepIndex..];
    Spec.KeptIsRest(cache, newMark, keepIndex);
  }

  function Slice(messages: seq<Event>, a: nat, b: nat): seq<Event>
    requires a <= |messages| && b <= |messages|
  {
    if a <= b then messages[a..b] else []
  }

  lemma SliceOf(messages: seq<Event>, a: nat, b: nat)
    requires a <= |messages| && b <= |messages| && messages != []
    ensures Slice(messages, a, b) ==
            (if a == 0 && b > 0 then [messages[0]] else []) +
            Slice(messages[1..], if a == 0 then 0 else a - 1, if b == 0 then 0 else b - 1)
  {
    if a == 0 {
      assert b > 0 ==> messages[0..b] == [messages[0]] + messages[1..][0..b - 1];
    } else if a <= b {
      assert messages[a..b] == [] + messages[1..][a - 1..b - 1];
    }
  }

  /** In a sorted list the messages of a time window are a slice. */
  lemma {:induction false} WindowIsSlice(messages: seq<Event>, fromTime: nat, toTime: nat, a: nat, b: nat)
    requires Spec.SplitsAt(messages, fromTime, a) && Spec.SplitsAt(messages, toTime, b)
    ensures Spec.MessagesBetween(messages, fromTime, toTime) == Slice(messages, a, b)
    decreases |messages|
  {
    if messages != [] {
      Spec.RestSplitsAt(messages, fromTime, a);
      Spec.RestSplitsAt(messages, toTime, b);
      WindowIsSlice(messages[1..], fromTime, toTime, if a == 0 then 0 else a - 1, if b == 0 then 0 else b - 1);
      SliceOf(messages, a, b);
      Spec.MessagesOf(messages, fromTime, toTime);
    }
  }
}
