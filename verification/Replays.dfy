/** What a playback replays, and what the replay of events does to fee, members and blocks, event by event. */
module Replays {
  import opened Wrappers
  import opened Members
  import opened Ledgers
  import opened Blocks
  import opened FileStores
  import opened Events
  import opened Playback

  // ----- which events are replayed

  /** A log of the range, with the time of its block. */
  ghost predicate IsLogIn(logs: seq<Event>, fromBlock: nat, toBlock: nat, blockTime: nat -> nat, e: Event) {
    exists i :: 0 <= i < |logs| && fromBlock <= logs[i].blockNumber <= toBlock
      && e == logs[i].(timestamp := blockTime(logs[i].blockNumber))
  }

  /** The logs of the range with the times of their blocks, as often as they occur. */
  function LogsIn(logs: seq<Event>, fromBlock: nat, toBlock: nat, blockTime: nat -> nat): multiset<Event> {
    if logs == [] then multiset{}
    else
      LogsIn(logs[1..], fromBlock, toBlock, blockTime) +
      if fromBlock <= logs[0].blockNumber <= toBlock
      then multiset{logs[0].(timestamp := blockTime(logs[0].blockNumber))} else multiset{}
  }

  /** The messages of a time window, as often as they occur. */
  function MessagesIn(messages: seq<Event>, fromTime: nat, toTime: nat): multiset<Event> {
    if messages == [] then multiset{}
    else
      MessagesIn(messages[1..], fromTime, toTime) +
      if fromTime < messages[0].timestamp <= toTime then multiset{messages[0]} else multiset{}
  }

  lemma {:induction false} LogsInAre(logs: seq<Event>, fromBlock: nat, toBlock: nat, blockTime: nat -> nat, e: Event)
    ensures e in LogsIn(logs, fromBlock, toBlock, blockTime) <==> IsLogIn(logs, fromBlock, toBlock, blockTime, e)
  {
    if logs != [] {
      LogsInAre(logs[1..], fromBlock, toBlock, blockTime, e);
      if i :| 0 <= i < |logs| && fromBlock <= logs[i].blockNumber <= toBlock
              && e == logs[i].(timestamp := blockTime(logs[i].blockNumber)) {
        assert i > 0 ==> logs[i] == logs[1..][i - 1];
      }
      if i :| 0 <= i < |logs[1..]| && fromBlock <= logs[1..][i].blockNumber <= toBlock
              && e == logs[1..][i].(timestamp := blockTime(logs[1..][i].blockNumber)) {
        assert logs[1..][i] == logs[i + 1];
      }
    }
  }

  lemma {:induction false} MessagesInAre(messages: seq<Event>, fromTime: nat, toTime: nat, e: Event)
    ensures e in MessagesIn(messages, fromTime, toTime) <==> e in messages && fromTime < e.timestamp <= toTime
  {
    if messages != [] {
      MessagesInAre(messages[1..], fromTime, toTime, e);
      assert e in messages <==> e == messages[0] || e in messages[1..];
    }
  }

  lemma TimedAfter(e: Event, rest: seq<Event>, blockTime: nat -> nat)
    ensures Timed([e] + rest, blockTime) == [e.(timestamp := blockTime(e.blockNumber))] + Timed(rest, blockTime)
  {
    assert ([e] + rest)[1..] == rest;
  }

  lemma {:induction false} LogsBetweenAreLogsIn(logs: seq<Event>, fromBlock: nat, toBlock: nat, blockTime: nat -> nat)
    ensures multiset(Timed(LogsBetween(logs, fromBlock, toBlock), blockTime)) ==
            LogsIn(logs, fromBlock, toBlock, blockTime)
  {
    if logs != [] {
      var rest := LogsBetween(logs[1..], fromBlock, toBlock);
      LogsBetweenAreLogsIn(logs[1..], fromBlock, toBlock, blockTime);
      TimedAfter(logs[0], rest, blockTime);
      assert [] + rest == rest;
      hide Timed;
    }
  }

  lemma {:induction false} MessagesBetweenAreMessagesIn(messages: seq<Event>, fromTime: nat, toTime: nat)
    ensures multiset(MessagesBetween(messages, fromTime, toTime)) == MessagesIn(messages, fromTime, toTime)
  {
    if messages != [] {
      MessagesBetweenAreMessagesIn(messages[1..], fromTime, toTime);
    }
  }

  lemma {:induction false} TimedMerge(xs: seq<Event>, ys: seq<Event>, inOrder: (Event, Event) -> bool,
                                      blockTime: nat -> nat)
    ensures multiset(Timed(Merge(xs, ys, inOrder), blockTime)) ==
            multiset(Timed(xs, blockTime)) + multiset(Timed(ys, blockTime))
  {
    hide Merge, Timed;
    if xs == [] || ys == [] {
      NothingToMerge(xs, ys, inOrder, blockTime);
    } else if inOrder(xs[0], ys[0]) {
      assert xs == [xs[0]] + xs[1..];
      TimedMerge(xs[1..], ys, inOrder, blockTime);
      TakesFirst(xs, ys, inOrder);
      TimedAfter(xs[0], xs[1..], blockTime);
      TimedAfter(xs[0], Merge(xs[1..], ys, inOrder), blockTime);
    } else {
      assert ys == [ys[0]] + ys[1..];
      TimedMerge(xs, ys[1..], inOrder, blockTime);
      TakesSecond(xs, ys, inOrder);
      TimedAfter(ys[0], ys[1..], blockTime);
      TimedAfter(ys[0], Merge(xs, ys[1..], inOrder), blockTime);
    }
  }

  lemma NothingToMerge(xs: seq<Event>, ys: seq<Event>, inOrder: (Event, Event) -> bool, blockTime: nat -> nat)
    requires xs == [] || ys == []
    ensures Merge(xs, ys, inOrder) == if xs == [] then ys else xs
    ensures Timed([], blockTime) == []
  {
  }

  /** Everything that happened in a range of blocks is the chain's fee, commit and transfer logs of the range, with the
      times of their blocks, and the messages after one time and up to that of the last block: each of them as often
      as it occurs, and nothing else. */
  lemma HappeningsAreExactly(chain: Chain, messages: seq<Event>, fromBlock: nat, toBlock: nat, fromTime: nat)
    ensures multiset(Happenings(chain, messages, fromBlock, toBlock, fromTime)) ==
            LogsIn(chain.adminFeeLogs, fromBlock, toBlock, chain.blockTime)
            + LogsIn(chain.commitLogs, fromBlock, toBlock, chain.blockTime)
            + LogsIn(chain.transferLogs, fromBlock, toBlock, chain.blockTime)
            + MessagesIn(messages, fromTime, chain.blockTime(toBlock))
    ensures forall e :: e in Happenings(chain, messages, fromBlock, toBlock, fromTime) <==>
              || IsLogIn(chain.adminFeeLogs, fromBlock, toBlock, chain.blockTime, e)
              || IsLogIn(chain.commitLogs, fromBlock, toBlock, chain.blockTime, e)
              || IsLogIn(chain.transferLogs, fromBlock, toBlock, chain.blockTime, e)
              || (e in messages && fromTime < e.timestamp <= chain.blockTime(toBlock))
  {
    hide LogsIn, MessagesIn, LogsBetween, MessagesBetween, Timed, Merge, IsLogIn;
    var fees := LogsBetween(chain.adminFeeLogs, fromBlock, toBlock);
    var commits := LogsBetween(chain.commitLogs, fromBlock, toBlock);
    var transfers := LogsBetween(chain.transferLogs, fromBlock, toBlock);
    LogsBetweenAreLogsIn(chain.adminFeeLogs, fromBlock, toBlock, chain.blockTime);
    LogsBetweenAreLogsIn(chain.commitLogs, fromBlock, toBlock, chain.blockTime);
    LogsBetweenAreLogsIn(chain.transferLogs, fromBlock, toBlock, chain.blockTime);
    MessagesBetweenAreMessagesIn(messages, fromTime, chain.blockTime(toBlock));
    TimedMerge(fees, commits, InChainOrder, chain.blockTime);
    TimedMerge(Merge(fees, commits, InChainOrder), transfers, InChainOrder, chain.blockTime);
    MergeIsPermutation(Timed(MergedLogs(chain, fromBlock, toBlock), chain.blockTime),
                       MessagesBetween(messages, fromTime, chain.blockTime(toBlock)), InTimeOrder);
    var all := Happenings(chain, messages, fromBlock, toBlock, fromTime);
    assert multiset(all) ==
           LogsIn(chain.adminFeeLogs, fromBlock, toBlock, chain.blockTime)
           + LogsIn(chain.commitLogs, fromBlock, toBlock, chain.blockTime)
           + LogsIn(chain.transferLogs, fromBlock, toBlock, chain.blockTime)
           + MessagesIn(messages, fromTime, chain.blockTime(toBlock));
    hide Happenings, MergedLogs;
    forall e ensures e in all <==>
                       || IsLogIn(chain.adminFeeLogs, fromBlock, toBlock, chain.blockTime, e)
                       || IsLogIn(chain.commitLogs, fromBlock, toBlock, chain.blockTime, e)
                       || IsLogIn(chain.transferLogs, fromBlock, toBlock, chain.blockTime, e)
                       || (e in messages && fromTime < e.timestamp <= chain.blockTime(toBlock))
    {
      assert e in all <==> e in multiset(all);
      LogsInAre(chain.adminFeeLogs, fromBlock, toBlock, chain.blockTime, e);
      LogsInAre(chain.commitLogs, fromBlock, toBlock, chain.blockTime, e);
      LogsInAre(chain.transferLogs, fromBlock, toBlock, chain.blockTime, e);
      MessagesInAre(messages, fromTime, chain.blockTime(toBlock), e);
    }
  }

  // ----- in which order

  /** The logs of each kind come in chain order, the messages in time order, and later blocks have later times. */
  ghost predicate ComesInOrder(chain: Chain, messages: seq<Event>) {
    && Sorted(chain.adminFeeLogs, InChainOrder) && Sorted(chain.commitLogs, InChainOrder)
    && Sorted(chain.transferLogs, InChainOrder) && TimeSorted(messages)
    && (forall i, j :: i < j ==> chain.blockTime(i) < chain.blockTime(j))
  }

  lemma {:induction false} LogsBetweenStaySorted(logs: seq<Event>, fromBlock: nat, toBlock: nat)
    requires Sorted(logs, InChainOrder)
    ensures Sorted(LogsBetween(logs, fromBlock, toBlock), InChainOrder)
    ensures forall e :: e in LogsBetween(logs, fromBlock, toBlock) ==> e in logs
  {
    if logs != [] {
      LogsBetweenStaySorted(logs[1..], fromBlock, toBlock);
      var rest := LogsBetween(logs[1..], fromBlock, toBlock);
      forall k | 0 <= k < |rest| ensures InChainOrder(logs[0], rest[k]) {
        assert rest[k] in logs[1..];
      }
    }
  }

  lemma TimedStaySorted(logs: seq<Event>, blockTime: nat -> nat)
    requires Sorted(logs, InChainOrder) && forall i, j :: i < j ==> blockTime(i) < blockTime(j)
    ensures Sorted(Timed(logs, blockTime), InTimeOrder)
  {
    hide Timed;
    forall i, j | 0 <= i < j < |logs| ensures blockTime(logs[i].blockNumber) <= blockTime(logs[j].blockNumber) {
      assert InChainOrder(logs[i], logs[j]);
    }
  }

  lemma {:induction false} NoneBetween(messages: seq<Event>, fromTime: nat, toTime: nat)
    requires forall m :: m in messages ==> !(fromTime < m.timestamp <= toTime)
    ensures MessagesBetween(messages, fromTime, toTime) == []
  {
    if messages != [] {
      NoneBetween(messages[1..], fromTime, toTime);
    }
  }

  lemma {:induction false} AllBetween(messages: seq<Event>, fromTime: nat, toTime: nat)
    requires forall m :: m in messages ==> fromTime < m.timestamp <= toTime
    ensures MessagesBetween(messages, fromTime, toTime) == messages
  {
    if messages != [] {
      AllBetween(messages[1..], fromTime, toTime);
    }
  }

  lemma PartsOfWindow(messages: seq<Event>, fromTime: nat, toTime: nat, a: nat, b: nat)
    requires SplitsAt(messages, fromTime, a) && SplitsAt(messages, toTime, b) && fromTime <= toTime
    ensures a <= b <= |messages|
    ensures forall m :: m in messages[..a] ==> !(fromTime < m.timestamp <= toTime)
    ensures forall m :: m in messages[a..b] ==> fromTime < m.timestamp <= toTime
    ensures forall m :: m in messages[b..] ==> !(fromTime < m.timestamp <= toTime)
  {
    assert b < |messages| ==> messages[b].timestamp > toTime;
  }

  /** The messages of a window stand in a row. */
  lemma WindowStandsInARow(messages: seq<Event>, fromTime: nat, toTime: nat) returns (a: nat, b: nat)
    requires TimeSorted(messages)
    ensures a <= b <= |messages| && MessagesBetween(messages, fromTime, toTime) == messages[a..b]
  {
    hide MessagesBetween, TimeSorted, SplitsAt;
    if fromTime > toTime {
      a, b := 0, 0;
      NoneBetween(messages, fromTime, toTime);
    } else {
      a := SplitPoint(messages, fromTime);
      b := SplitPoint(messages, toTime);
      PartsOfWindow(messages, fromTime, toTime, a, b);
      NoneBetween(messages[..a], fromTime, toTime);
      AllBetween(messages[a..b], fromTime, toTime);
      NoneBetween(messages[b..], fromTime, toTime);
      BetweenParts(messages, fromTime, toTime, a, b);
    }
  }

  lemma BetweenParts(messages: seq<Event>, fromTime: nat, toTime: nat, a: nat, b: nat)
    requires a <= b <= |messages|
    ensures MessagesBetween(messages, fromTime, toTime) ==
            MessagesBetween(messages[..a], fromTime, toTime) + (MessagesBetween(messages[a..b], fromTime, toTime)
              + MessagesBetween(messages[b..], fromTime, toTime))
  {
    hide MessagesBetween;
    assert messages == messages[..a] + (messages[a..b] + messages[b..]);
    BetweenConcat(messages[..a], messages[a..b] + messages[b..], fromTime, toTime);
    BetweenConcat(messages[a..b], messages[b..], fromTime, toTime);
  }

  /** What happened is replayed in order of time: the logs, of all kinds together in chain order, and the messages, in
      the order in which they came; where they tie, the logs come first. */
  lemma HappeningsAreInOrder(chain: Chain, messages: seq<Event>, fromBlock: nat, toBlock: nat, fromTime: nat)
    returns (logs: seq<Event>, a: nat, b: nat)
    requires ComesInOrder(chain, messages)
    ensures Sorted(logs, InChainOrder) && a <= b <= |messages|
    ensures multiset(Timed(logs, chain.blockTime)) ==
            LogsIn(chain.adminFeeLogs, fromBlock, toBlock, chain.blockTime)
            + LogsIn(chain.commitLogs, fromBlock, toBlock, chain.blockTime)
            + LogsIn(chain.transferLogs, fromBlock, toBlock, chain.blockTime)
    ensures multiset(messages[a..b]) == MessagesIn(messages, fromTime, chain.blockTime(toBlock))
    ensures var all := Happenings(chain, messages, fromBlock, toBlock, fromTime);
            && Sorted(all, InTimeOrder)
            && multiset(all) == multiset(Timed(logs, chain.blockTime)) + multiset(messages[a..b])
            && forall z :: Ties(all, InTimeOrder, z) ==
                           Ties(Timed(logs, chain.blockTime), InTimeOrder, z) + Ties(messages[a..b], InTimeOrder, z)
  {
    hide LogsIn, MessagesIn, LogsBetween, MessagesBetween, Timed, Merge, Sorted, TotalPreorder, Ties;
    var fees := LogsBetween(chain.adminFeeLogs, fromBlock, toBlock);
    var commits := LogsBetween(chain.commitLogs, fromBlock, toBlock);
    var transfers := LogsBetween(chain.transferLogs, fromBlock, toBlock);
    LogsBetweenStaySorted(chain.adminFeeLogs, fromBlock, toBlock);
    LogsBetweenStaySorted(chain.commitLogs, fromBlock, toBlock);
    LogsBetweenStaySorted(chain.transferLogs, fromBlock, toBlock);
    BothOrdersAreTotalPreorders();
    MergeIsSorted(fees, commits, InChainOrder);
    MergeIsSorted(Merge(fees, commits, InChainOrder), transfers, InChainOrder);
    logs := MergedLogs(chain, fromBlock, toBlock);
    LogsBetweenAreLogsIn(chain.adminFeeLogs, fromBlock, toBlock, chain.blockTime);
    LogsBetweenAreLogsIn(chain.commitLogs, fromBlock, toBlock, chain.blockTime);
    LogsBetweenAreLogsIn(chain.transferLogs, fromBlock, toBlock, chain.blockTime);
    TimedMerge(fees, commits, InChainOrder, chain.blockTime);
    TimedMerge(Merge(fees, commits, InChainOrder), transfers, InChainOrder, chain.blockTime);
    MessagesBetweenAreMessagesIn(messages, fromTime, chain.blockTime(toBlock));
    a, b := WindowStandsInARow(messages, fromTime, chain.blockTime(toBlock));
    TimedStaySorted(logs, chain.blockTime);
    SliceStaysSorted(messages, a, b);
    MergeIsSorted(Timed(logs, chain.blockTime), messages[a..b], InTimeOrder);
    MergeIsPermutation(Timed(logs, chain.blockTime), messages[a..b], InTimeOrder);
    forall z {
      MergeIsStable(Timed(logs, chain.blockTime), messages[a..b], InTimeOrder, z);
    }
  }

  lemma SliceStaysSorted(messages: seq<Event>, a: nat, b: nat)
    requires TimeSorted(messages) && a <= b <= |messages|
    ensures Sorted(messages[a..b], InTimeOrder)
  {
  }

  // ----- what a playback does with them

  /** A playback that is neither skipped nor refused replays exactly what happened after the state's block and time, up
      to the block played to and its time; if nothing fails the state is then at that block and time. */
  lemma PlaybackReplaysTheWindow(p: Plasma, chain: Chain, messages: seq<Event>, prunedUpTo: nat, toBlock: nat)
    returns (events: seq<Event>)
    requires Ledgers.Valid(p.ledger) && toBlock > p.currentBlock + 1 && p.currentTimestamp >= prunedUpTo
    ensures multiset(events) ==
            LogsIn(chain.adminFeeLogs, p.currentBlock + 1, toBlock, chain.blockTime)
            + LogsIn(chain.commitLogs, p.currentBlock + 1, toBlock, chain.blockTime)
            + LogsIn(chain.transferLogs, p.currentBlock + 1, toBlock, chain.blockTime)
            + MessagesIn(messages, p.currentTimestamp, chain.blockTime(toBlock))
    ensures ComesInOrder(chain, messages) ==> Sorted(events, InTimeOrder)
    ensures var played, replayed := PlayTo(p, chain, messages, prunedUpTo, toBlock), Replay(p, events);
            && played.error == replayed.error
            && played.plasma == if replayed.error.Some? then replayed.plasma
                                else replayed.plasma.(currentBlock := toBlock,
                                                      currentTimestamp := chain.blockTime(toBlock))
  {
    hide LogsIn, MessagesIn, Happenings, Replay, Ledgers.Valid, ComesInOrder, Sorted, IsLogIn;
    events := Happenings(chain, messages, p.currentBlock + 1, toBlock, p.currentTimestamp);
    HappeningsAreExactly(chain, messages, p.currentBlock + 1, toBlock, p.currentTimestamp);
    if ComesInOrder(chain, messages) {
      HappeningsAreSorted(chain, messages, p.currentBlock + 1, toBlock, p.currentTimestamp);
    }
  }

  lemma HappeningsAreSorted(chain: Chain, messages: seq<Event>, fromBlock: nat, toBlock: nat, fromTime: nat)
    requires ComesInOrder(chain, messages)
    ensures Sorted(Happenings(chain, messages, fromBlock, toBlock, fromTime), InTimeOrder)
  {
    hide ComesInOrder, Sorted, LogsIn, MessagesIn, Happenings, Ties, Timed;
    var logs, a, b := HappeningsAreInOrder(chain, messages, fromBlock, toBlock, fromTime);
  }

  /** The log at i is the last of the range. */
  ghost predicate IsLastIn(logs: seq<Event>, i: int, fromBlock: nat, toBlock: nat) {
    && 0 <= i < |logs| && fromBlock <= logs[i].blockNumber <= toBlock
    && forall j :: i < j < |logs| ==> !(fromBlock <= logs[j].blockNumber <= toBlock)
  }

  lemma {:induction false} LastBetween(logs: seq<Event>, i: int, fromBlock: nat, toBlock: nat)
    requires IsLastIn(logs, i, fromBlock, toBlock)
    ensures var between := LogsBetween(logs, fromBlock, toBlock);
            between != [] && between[|between| - 1] == logs[i]
  {
    if i > 0 {
      assert logs[1..][i - 1] == logs[i];
      LastBetween(logs[1..], i - 1, fromBlock, toBlock);
    } else {
      NoLogsBetween(logs[1..], fromBlock, toBlock);
    }
  }

  lemma {:induction false} NoLogsBetween(logs: seq<Event>, fromBlock: nat, toBlock: nat)
    requires forall i :: 0 <= i < |logs| ==> !(fromBlock <= logs[i].blockNumber <= toBlock)
    ensures LogsBetween(logs, fromBlock, toBlock) == []
  {
    if logs != [] {
      NoLogsBetween(logs[1..], fromBlock, toBlock);
    }
  }

  /** Playback returns the block that the last commit log of the range names, zero if the range has none, and nothing if
      it was skipped or failed. */
  lemma PublishedIsTheLastCommit(p: Plasma, chain: Chain, toBlock: nat, error: Option<PlaybackError>, i: int, n: nat)
    ensures error.Some? || toBlock <= p.currentBlock + 1 ==> PublishedBy(p, chain, toBlock, error) == None
    ensures error.None? && toBlock > p.currentBlock + 1 && IsLastIn(chain.commitLogs, i, p.currentBlock + 1, toBlock)
            && chain.commitLogs[i].action == NewCommit(n) ==>
              PublishedBy(p, chain, toBlock, error) == Some(n)
    ensures error.None? && toBlock > p.currentBlock + 1
            && (forall j :: 0 <= j < |chain.commitLogs| ==>
                  !(p.currentBlock + 1 <= chain.commitLogs[j].blockNumber <= toBlock)) ==>
              PublishedBy(p, chain, toBlock, error) == Some(0)
  {
    hide LogsBetween;
    if IsLastIn(chain.commitLogs, i, p.currentBlock + 1, toBlock) {
      LastBetween(chain.commitLogs, i, p.currentBlock + 1, toBlock);
    }
    if forall j :: 0 <= j < |chain.commitLogs| ==> !(p.currentBlock + 1 <= chain.commitLogs[j].blockNumber <= toBlock) {
      NoLogsBetween(chain.commitLogs, p.currentBlock + 1, toBlock);
    }
  }

  // ----- commits

  /** A commit can be stored: its time is a whole second, time and number are safe integers above zero, and the number
      is above every listed one. */
  ghost predicate CanStore(p: Plasma, timestamp: nat, blockNumber: nat) {
    && timestamp % 1000 == 0 && 1 <= timestamp / 1000 <= MAX_SAFE_INTEGER && 1 <= blockNumber <= MAX_SAFE_INTEGER
    && forall i :: 0 <= i < |p.latestBlocks| ==> p.latestBlocks[i].blockNumber < blockNumber
  }

  function StoreError(timestamp: nat, blockNumber: nat): BlockError {
    if timestamp % 1000 != 0 || !(1 <= timestamp / 1000 <= MAX_SAFE_INTEGER) then BadTimestamp
    else if !(1 <= blockNumber <= MAX_SAFE_INTEGER) then BadBlockNumber
    else AlreadyStored
  }

  /** The block is the snapshot of a ledger. */
  ghost predicate IsSnapshotOf(b: Block, l: Ledger, blockNumber: nat, timestamp: nat) {
    && b.blockNumber == blockNumber && b.timestamp == timestamp && b.members == l.members
    && b.totalEarnings == l.totalEarnings && b.owner == l.adminAddress && b.adminFee == l.adminFee
  }

  /** A replayed commit stores the present members as a block under its number and its time in seconds, at the head of
      the list and in the store; the ledger and all other blocks stay. Exactly if the commit cannot be stored it fails,
      and then nothing changes. */
  lemma CommitStoresExactlyWhen(p: Plasma, e: Event, blockNumber: nat)
    requires Ledgers.Valid(p.ledger) && e.action == NewCommit(blockNumber)
    ensures var r := ReplayEvent(p, e);
            && (r.error.None? <==> CanStore(p, e.timestamp, blockNumber))
            && (r.error.Some? ==> r == Outcome(p, Some(BlockFailed(StoreError(e.timestamp, blockNumber)))))
            && (r.error.None? ==>
                  && r.plasma == p.(latestBlocks := r.plasma.latestBlocks, files := r.plasma.files)
                  && blockNumber in r.plasma.files.blocks
                  && IsSnapshotOf(r.plasma.files.blocks[blockNumber], p.ledger, blockNumber, e.timestamp / 1000)
                  && r.plasma.files.blocks == p.files.blocks[blockNumber := r.plasma.files.blocks[blockNumber]]
                  && (Descending(p.latestBlocks) ==>
                        r.plasma.latestBlocks == [r.plasma.files.blocks[blockNumber]] + p.latestBlocks))
  {
    hide Ledgers.Valid, SortDescending, Descending;
    if CanStore(p, e.timestamp, blockNumber) && Descending(p.latestBlocks) {
      StoredGoesFirst(p.latestBlocks, ReplayEvent(p, e).plasma.files.blocks[blockNumber]);
    }
  }

  /** What start-up reads back from a block is the clone of the ledger that was stored in it. */
  lemma RestartIsClone(b: Block, l: Ledger, blockNumber: nat, timestamp: nat)
    requires IsSnapshotOf(b, l, blockNumber, timestamp)
    ensures New(b.members, b.owner, b.adminFee, b.totalEarnings) == Clone(l)
  {
  }

  /** The block is in the store and some block of its number is listed. */
  ghost predicate IsKept(p: Plasma, blockNumber: nat, b: Block) {
    && blockNumber in p.files.blocks && p.files.blocks[blockNumber] == b
    && exists i :: 0 <= i < |p.latestBlocks| && p.latestBlocks[i].blockNumber == blockNumber
  }

  lemma {:induction false} SortHasTheSame(blocks: seq<Block>, b: Block)
    ensures b in SortDescending(blocks) <==> b in blocks
  {
    if blocks != [] {
      SortHasTheSame(blocks[1..], b);
      InsertHasTheSame(blocks[0], SortDescending(blocks[1..]), b);
      assert b in blocks <==> b == blocks[0] || b in blocks[1..];
    }
  }

  lemma {:induction false} InsertHasTheSame(b: Block, sorted: seq<Block>, c: Block)
    ensures c in InsertDescending(b, sorted) <==> c == b || c in sorted
  {
    if sorted != [] && sorted[0].blockNumber > b.blockNumber {
      InsertHasTheSame(b, sorted[1..], c);
      assert c in sorted <==> c == sorted[0] || c in sorted[1..];
    }
  }

  /** A stored commit is kept. */
  lemma CommitIsKept(p: Plasma, e: Event, blockNumber: nat)
    requires Ledgers.Valid(p.ledger) && e.action == NewCommit(blockNumber) && ReplayEvent(p, e).error.None?
    ensures var q := ReplayEvent(p, e).plasma;
            blockNumber in q.files.blocks && IsKept(q, blockNumber, q.files.blocks[blockNumber])
  {
    hide Ledgers.Valid, SortDescending;
    CommitStoresExactlyWhen(p, e, blockNumber);
    var q := ReplayEvent(p, e).plasma;
    var b := q.files.blocks[blockNumber];
    SortHasTheSame([b] + p.latestBlocks, b);
    assert b in q.latestBlocks;
  }

  /** What is kept stays kept through any event that does not fail: another commit of its number would fail. */
  lemma StaysKept(p: Plasma, e: Event, blockNumber: nat, b: Block)
    requires Ledgers.Valid(p.ledger) && IsKept(p, blockNumber, b) && ReplayEvent(p, e).error.None?
    ensures IsKept(ReplayEvent(p, e).plasma, blockNumber, b)
  {
    hide Ledgers.Valid, SortDescending;
    if e.action.NewCommit? {
      var n := e.action.committedBlock;
      var i := IndexOfListed(p, blockNumber, b);
      CommitStoresExactlyWhen(p, e, n);
      var q := ReplayEvent(p, e).plasma;
      SortHasTheSame([q.files.blocks[n]] + p.latestBlocks, p.latestBlocks[i]);
      assert p.latestBlocks[i] in q.latestBlocks;
    }
  }

  lemma IndexOfListed(p: Plasma, blockNumber: nat, b: Block) returns (i: nat)
    requires IsKept(p, blockNumber, b)
    ensures i < |p.latestBlocks| && p.latestBlocks[i].blockNumber == blockNumber
  {
    i :| 0 <= i < |p.latestBlocks| && p.latestBlocks[i].blockNumber == blockNumber;
  }

  lemma {:induction false} StaysKeptInReplay(p: Plasma, events: seq<Event>, blockNumber: nat, b: Block)
    requires Ledgers.Valid(p.ledger) && IsKept(p, blockNumber, b) && Replay(p, events).error.None?
    ensures IsKept(Replay(p, events).plasma, blockNumber, b)
    decreases |events|
  {
    hide Ledgers.Valid, IsKept, ReplayEvent;
    if events != [] {
      StaysKept(p, events[0], blockNumber, b);
      StaysKeptInReplay(ReplayEvent(p, events[0]).plasma, events[1..], blockNumber, b);
    }
  }

  /** After a replay without an error every commit in it has its block in the store: the members, the total and the fee
      that the ledger had when that commit was replayed, whatever was replayed after it. */
  lemma ReplayStoresEveryCommit(p: Plasma, events: seq<Event>, i: nat, blockNumber: nat)
    requires Ledgers.Valid(p.ledger) && Replay(p, events).error.None?
    requires i < |events| && events[i].action == NewCommit(blockNumber)
    ensures Replay(p, events[..i]).error.None?
    ensures var blocks := Replay(p, events).plasma.files.blocks;
            && blockNumber in blocks
            && IsSnapshotOf(blocks[blockNumber], Replay(p, events[..i]).plasma.ledger, blockNumber,
                            events[i].timestamp / 1000)
  {
    hide Ledgers.Valid, ReplayEvent, Replay, IsSnapshotOf;
    var before, rest := events[..i], events[i + 1..];
    assert events == before + ([events[i]] + rest);
    ReplayInPieces(p, before, [events[i]] + rest);
    var mid := Replay(p, before).plasma;
    ReplayFirst(mid, events[i], rest);
    CommitStoresExactlyWhen(mid, events[i], blockNumber);
    CommitIsKept(mid, events[i], blockNumber);
    var q := ReplayEvent(mid, events[i]).plasma;
    StaysKeptInReplay(q, rest, blockNumber, q.files.blocks[blockNumber]);
  }

  lemma ReplayFirst(p: Plasma, e: Event, rest: seq<Event>)
    requires Ledgers.Valid(p.ledger)
    ensures Replay(p, [e] + rest) ==
            if ReplayEvent(p, e).error.Some? then ReplayEvent(p, e) else Replay(ReplayEvent(p, e).plasma, rest)
  {
    hide Ledgers.Valid, ReplayEvent;
    assert ([e] + rest)[1..] == rest;
  }

  // ----- fee and members

  /** An event fails exactly if it is a commit that cannot be stored or a fee above the whole. */
  lemma EventFailsExactlyWhen(p: Plasma, e: Event)
    requires Ledgers.Valid(p.ledger)
    ensures ReplayEvent(p, e).error.Some? <==>
            match e.action
            case NewCommit(blockNumber) => !CanStore(p, e.timestamp, blockNumber)
            case AdminFeeChanged(adminFee) => adminFee > ONE
            case _ => false
    ensures ReplayEvent(p, e).error.Some? ==> ReplayEvent(p, e).plasma == p
  {
    hide Ledgers.Valid, CanStore, StoreBlock;
    if e.action.NewCommit? {
      CommitStoresExactlyWhen(p, e, e.action.committedBlock);
    }
  }

  /** The fee that a list of events says last. */
  function FeeSaid(events: seq<Event>, initially: nat): nat {
    if events == [] then initially
    else FeeSaid(events[1..], if events[0].action.AdminFeeChanged? then events[0].action.adminFee else initially)
  }

  lemma {:induction false} ListsLeaveFee(l: Ledger, addresses: seq<Address>)
    requires Ledgers.Valid(l)
    ensures JoinAll(l, addresses).adminFee == PartAll(l, addresses).adminFee == l.adminFee
    decreases |addresses|
  {
    if addresses != [] {
      AddMemberKeepsValid(l, addresses[0], "");
      RemoveMemberKeepsValid(l, addresses[0]);
      hide Ledgers.Valid;
      ListsLeaveFee(AddMember(l, addresses[0], ""), addresses[1..]);
      ListsLeaveFee(RemoveMember(l, addresses[0]), addresses[1..]);
    }
  }

  lemma EventDecidesFee(p: Plasma, e: Event)
    requires Ledgers.Valid(p.ledger) && ReplayEvent(p, e).error.None?
    ensures ReplayEvent(p, e).plasma.ledger.adminFee ==
            if e.action.AdminFeeChanged? then e.action.adminFee else p.ledger.adminFee
  {
    hide Ledgers.Valid, StoreBlock, JoinAll, PartAll, ActiveCount, AdminShare, MemberShare, CreditActive;
    match e.action
    case Join(addresses) => ListsLeaveFee(p.ledger, addresses);
    case Part(addresses) => ListsLeaveFee(p.ledger, addresses);
    case NewCommit(n) => CommitStoresExactlyWhen(p, e, n);
    case _ =>
  }

  /** After a replay without an error the fee is the one that was said last. */
  lemma {:induction false} ReplayTakesTheLastFee(p: Plasma, events: seq<Event>)
    requires Ledgers.Valid(p.ledger) && Replay(p, events).error.None?
    ensures Replay(p, events).plasma.ledger.adminFee == FeeSaid(events, p.ledger.adminFee)
    decreases |events|
  {
    hide Ledgers.Valid, ReplayEvent;
    if events != [] {
      EventDecidesFee(p, events[0]);
      ReplayTakesTheLastFee(ReplayEvent(p, events[0]).plasma, events[1..]);
    }
  }

  /** What a list of events says last about whether an address is a member. */
  function MembershipSaid(events: seq<Event>, a: Address, initially: bool): bool {
    if events == [] then initially
    else
      MembershipSaid(events[1..], a,
                     match events[0].action
                     case Join(addresses) => a in addresses || initially
                     case Part(addresses) => a !in addresses && initially
                     case _ => initially)
  }

  lemma {:induction false} JoinAllAdmits(l: Ledger, addresses: seq<Address>, a: Address)
    requires Ledgers.Valid(l)
    ensures IsMember(JoinAll(l, addresses), a) <==> a in addresses || IsMember(l, a)
    decreases |addresses|
  {
    hide Indexed, ActiveIndexed, AddMember, IsMember;
    if addresses != [] {
      AddMemberKeepsValid(l, addresses[0], "");
      JoinAdmits(l, addresses[0], "", a);
      JoinAllAdmits(AddMember(l, addresses[0], ""), addresses[1..], a);
    }
  }

  lemma {:induction false} PartAllRemoves(l: Ledger, addresses: seq<Address>, a: Address)
    requires Ledgers.Valid(l)
    ensures IsMember(PartAll(l, addresses), a) <==> a !in addresses && IsMember(l, a)
    decreases |addresses|
  {
    hide Indexed, ActiveIndexed, RemoveMember, IsMember;
    if addresses != [] {
      RemoveMemberKeepsValid(l, addresses[0]);
      PartRemoves(l, addresses[0], a);
      PartAllRemoves(RemoveMember(l, addresses[0]), addresses[1..], a);
    }
  }

  lemma EventDecidesMembership(p: Plasma, e: Event, a: Address)
    requires Ledgers.Valid(p.ledger)
    ensures IsMember(ReplayEvent(p, e).plasma.ledger, a) <==>
            match e.action
            case Join(addresses) => a in addresses || IsMember(p.ledger, a)
            case Part(addresses) => a !in addresses && IsMember(p.ledger, a)
            case _ => IsMember(p.ledger, a)
  {
    hide Ledgers.Valid, StoreBlock, JoinAll, PartAll, IsMember, AddRevenue;
    match e.action
    case Join(addresses) => JoinAllAdmits(p.ledger, addresses, a);
    case Part(addresses) => PartAllRemoves(p.ledger, addresses, a);
    case Transfer(value) => StepDecidesMembers(p.ledger, Revenue(value), a);
    case AdminFeeChanged(adminFee) => StepDecidesMembers(p.ledger, FeeChange(adminFee), a);
    case NewCommit(n) => CommitStoresExactlyWhen(p, e, n);
    case Unexpected =>
  }

  /** After a replay without an error the members are those of whom a join was said last, and those of whom nothing
      was said and who were members before. */
  lemma {:induction false} ReplayAdmitsThoseSaid(p: Plasma, events: seq<Event>, a: Address)
    requires Ledgers.Valid(p.ledger) && Replay(p, events).error.None?
    ensures IsMember(Replay(p, events).plasma.ledger, a) == MembershipSaid(events, a, IsMember(p.ledger, a))
    decreases |events|
  {
    hide Ledgers.Valid, ReplayEvent, IsMember;
    if events != [] {
      EventDecidesMembership(p, events[0], a);
      ReplayAdmitsThoseSaid(ReplayEvent(p, events[0]).plasma, events[1..], a);
    }
  }
}
