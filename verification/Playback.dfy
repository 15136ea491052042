/** Replaying chain logs and stream messages onto the state, as values, and why it may be done in pieces. */
module Playback {
  import opened Wrappers
  import opened Members
  import opened Ledgers
  import opened Blocks
  import opened FileStores
  import opened Events

  /** All that replaying changes. */
  datatype Plasma = Plasma(
    ledger: Ledger,
    latestBlocks: seq<Block>,
    files: Files,
    currentBlock: nat,
    currentTimestamp: nat)

  /** The chain: the logs of each kind in chain order, and the time of each block in milliseconds. */
  datatype Chain = Chain(
    adminFeeLogs: seq<Event>,
    commitLogs: seq<Event>,
    transferLogs: seq<Event>,
    blockTime: nat -> nat)

  datatype PlaybackError = BlockFailed(block: BlockError) | FeeFailed | CachePruned

  /** The state as far as it got, and the error that stopped it, if any. */
  datatype Outcome = Outcome(plasma: Plasma, error: Option<PlaybackError>)

  // ----- replaying

  function JoinAll(l: Ledger, addresses: seq<Address>): (r: Ledger)
    requires Ledgers.Valid(l)
    ensures Ledgers.Valid(r)
    decreases |addresses|
  {
    if addresses == [] then l
    else
      AddMemberKeepsValid(l, addresses[0], "");
      JoinAll(AddMember(l, addresses[0], ""), addresses[1..])
  }

  function PartAll(l: Ledger, addresses: seq<Address>): (r: Ledger)
    requires Ledgers.Valid(l)
    ensures Ledgers.Valid(r)
    decreases |addresses|
  {
    if addresses == [] then l
    else
      RemoveMemberKeepsValid(l, addresses[0]);
      PartAll(RemoveMember(l, addresses[0]), addresses[1..])
  }

  /** Which of the addresses get a new entry. */
  function NewlyAdded(l: Ledger, addresses: seq<Address>): seq<Address>
    requires Ledgers.Valid(l)
    decreases |addresses|
  {
    if addresses == [] then []
    else
      AddMemberKeepsValid(l, addresses[0], "");
      (if addresses[0] in l.indexOf then [] else [addresses[0]]) +
        NewlyAdded(AddMember(l, addresses[0], ""), addresses[1..])
  }

  /** Which of the addresses lose an active entry. */
  function NewlyRemoved(l: Ledger, addresses: seq<Address>): seq<Address>
    requires Ledgers.Valid(l)
    decreases |addresses|
  {
    if addresses == [] then []
    else
      RemoveMemberKeepsValid(l, addresses[0]);
      (if addresses[0] in l.indexOf && l.members[l.indexOf[addresses[0]]].active then [addresses[0]] else [])
      + NewlyRemoved(RemoveMember(l, addresses[0]), addresses[1..])
  }

  ghost predicate NoRepeats(addresses: seq<Address>) {
    forall i, j :: 0 <= i < j < |addresses| ==> addresses[i] != addresses[j]
  }

  lemma NoRepeatsAfter(a: Address, rest: seq<Address>)
    requires NoRepeats(rest) && a !in rest
    ensures NoRepeats([a] + rest)
  {
  }

  /** Those reported as added are, once each, the given addresses that were not indexed: re-activating an indexed
      entry is not reported, the rejoin of a parted address is. */
  lemma {:induction false} AddedAreTheUnindexed(l: Ledger, addresses: seq<Address>, a: Address)
    requires Ledgers.Valid(l)
    ensures a in NewlyAdded(l, addresses) <==> a in addresses && a !in l.indexOf
    ensures NoRepeats(NewlyAdded(l, addresses))
    decreases |addresses|
  {
    if addresses != [] {
      AddMemberKeepsValid(l, addresses[0], "");
      var next := AddMember(l, addresses[0], "");
      assert addresses[0] in next.indexOf;
      assert a != addresses[0] ==> (a in next.indexOf <==> a in l.indexOf);
      hide Ledgers.Valid, AddMember, NoRepeats;
      AddedAreTheUnindexed(next, addresses[1..], a);
      AddedAreTheUnindexed(next, addresses[1..], addresses[0]);
      if addresses[0] !in l.indexOf {
        NoRepeatsAfter(addresses[0], NewlyAdded(next, addresses[1..]));
      } else {
        assert [] + NewlyAdded(next, addresses[1..]) == NewlyAdded(next, addresses[1..]);
      }
      assert a in addresses <==> a == addresses[0] || a in addresses[1..];
    }
  }

  /** Those reported as removed are, once each, the given addresses that were members. */
  lemma {:induction false} RemovedWereTheMembers(l: Ledger, addresses: seq<Address>, a: Address)
    requires Ledgers.Valid(l)
    ensures a in NewlyRemoved(l, addresses) <==> a in addresses && IsMember(l, a)
    ensures NoRepeats(NewlyRemoved(l, addresses))
    decreases |addresses|
  {
    if addresses != [] {
      var first := addresses[0];
      RemoveMemberKeepsValid(l, first);
      PartRemoves(l, first, a);
      PartRemoves(l, first, first);
      MemberIsIndexed(l, first);
      var next := RemoveMember(l, first);
      hide Ledgers.Valid, RemoveMember, NoRepeats, IsMember;
      RemovedWereTheMembers(next, addresses[1..], a);
      RemovedWereTheMembers(next, addresses[1..], first);
      if IsMember(l, first) {
        NoRepeatsAfter(first, NewlyRemoved(next, addresses[1..]));
      } else {
        assert [] + NewlyRemoved(next, addresses[1..]) == NewlyRemoved(next, addresses[1..]);
      }
      assert a in addresses <==> a == first || a in addresses[1..];
    }
  }

  /** The snapshot of a ledger. */
  function BlockOf(l: Ledger, blockNumber: nat, timestamp: nat): Block {
    Block(blockNumber, l.members, timestamp, l.totalEarnings, l.adminAddress, l.adminFee)
  }

  function StoreBlock(p: Plasma, blockNumber: nat, timestamp: nat): Result<Plasma, BlockError> {
    var block := BlockOf(p.ledger, blockNumber, timestamp);
    match Store(p.latestBlocks, block)
    case Failure(e) => Failure(e)
    case Success(blocks) => Success(p.(latestBlocks := blocks, files := Save(p.files, block)))
  }

  function ReplayEvent(p: Plasma, e: Event): (r: Outcome)
    requires Ledgers.Valid(p.ledger)
    ensures Ledgers.Valid(r.plasma.ledger)
  {
    match e.action
    case Transfer(value) =>
      AddRevenueKeepsValid(p.ledger, value);
      Outcome(p.(ledger := AddRevenue(p.ledger, value)), None)
    case NewCommit(committedBlock) =>
      if e.timestamp % 1000 != 0 then Outcome(p, Some(BlockFailed(BadTimestamp)))
      else
        (match StoreBlock(p, committedBlock, e.timestamp / 1000)
         case Failure(error) => Outcome(p, Some(BlockFailed(error)))
         case Success(stored) => Outcome(stored, None))
    case AdminFeeChanged(adminFee) =>
      ApplyKeepsValid(p.ledger, FeeChange(adminFee));
      (match SetAdminFee(p.ledger, adminFee)
       case Failure(_) => Outcome(p, Some(FeeFailed))
       case Success(changed) => Outcome(p.(ledger := changed), None))
    case Join(addresses) => Outcome(p.(ledger := JoinAll(p.ledger, addresses)), None)
    case Part(addresses) => Outcome(p.(ledger := PartAll(p.ledger, addresses)), None)
    case Unexpected => Outcome(p, None)
  }

  /** Replays in order, and stops at the first event that fails. */
  function Replay(p: Plasma, events: seq<Event>): (r: Outcome)
    requires Ledgers.Valid(p.ledger)
    ensures Ledgers.Valid(r.plasma.ledger)
    decreases |events|
  {
    if events == [] then Outcome(p, None)
    else
      var first := ReplayEvent(p, events[0]);
      if first.error.Some? then first else Replay(first.plasma, events[1..])
  }

  lemma {:induction false} ReplayInPieces(p: Plasma, a: seq<Event>, b: seq<Event>)
    requires Ledgers.Valid(p.ledger)
    ensures Replay(p, a + b) == if Replay(p, a).error.Some? then Replay(p, a) else Replay(Replay(p, a).plasma, b)
    decreases |a|
  {
    hide ReplayEvent, Ledgers.Valid;
    if a == [] {
      assert a + b == b;
    } else {
      assert (a + b)[1..] == a[1..] + b;
      if ReplayEvent(p, a[0]).error.None? {
        ReplayInPieces(ReplayEvent(p, a[0]).plasma, a[1..], b);
      }
    }
  }

  /** The same state at another block. */
  function AtPosition(p: Plasma, block: nat, timestamp: nat): Plasma {
    p.(currentBlock := block, currentTimestamp := timestamp)
  }

  lemma {:induction false} ReplayIgnoresPosition(p: Plasma, q: Plasma, events: seq<Event>)
    requires Ledgers.Valid(p.ledger)
    requires q == AtPosition(p, q.currentBlock, q.currentTimestamp)
    ensures Replay(q, events) ==
            Outcome(AtPosition(Replay(p, events).plasma, q.currentBlock, q.currentTimestamp), Replay(p, events).error)
    decreases |events|
  {
    if events != [] {
      EventIgnoresPosition(p, q, events[0]);
      var r := ReplayEvent(p, events[0]);
      if r.error.None? {
        ReplayIgnoresPosition(r.plasma, ReplayEvent(q, events[0]).plasma, events[1..]);
      }
    }
  }

  lemma EventIgnoresPosition(p: Plasma, q: Plasma, e: Event)
    requires Ledgers.Valid(p.ledger)
    requires q == AtPosition(p, q.currentBlock, q.currentTimestamp)
    ensures ReplayEvent(q, e) ==
            Outcome(AtPosition(ReplayEvent(p, e).plasma, q.currentBlock, q.currentTimestamp), ReplayEvent(p, e).error)
  {
  }

  // ----- windows

  /** What the chain returns for an inclusive range of blocks. */
  function LogsBetween(logs: seq<Event>, fromBlock: nat, toBlock: nat): seq<Event> {
    if logs == [] then []
    else (if fromBlock <= logs[0].blockNumber <= toBlock then [logs[0]] else []) +
         LogsBetween(logs[1..], fromBlock, toBlock)
  }

  /** The messages after one time, up to and including another. */
  function MessagesBetween(messages: seq<Event>, fromTime: nat, toTime: nat): seq<Event> {
    if messages == [] then []
    else (if fromTime < messages[0].timestamp <= toTime then [messages[0]] else []) +
         MessagesBetween(messages[1..], fromTime, toTime)
  }

  /** The block that the last of some NewCommit logs names, zero if there is none. */
  function LastCommitted(logs: seq<Event>): nat {
    if logs != [] && logs[|logs| - 1].action.NewCommit? then logs[|logs| - 1].action.committedBlock else 0
  }

  function Timed(events: seq<Event>, blockTime: nat -> nat): (r: seq<Event>)
    ensures |r| == |events|
    ensures forall i :: 0 <= i < |r| ==> r[i] == events[i].(timestamp := blockTime(events[i].blockNumber))
  {
    if events == [] then []
    else [events[0].(timestamp := blockTime(events[0].blockNumber))] + Timed(events[1..], blockTime)
  }

  function MergedLogs(chain: Chain, fromBlock: nat, toBlock: nat): seq<Event> {
    Merge(Merge(LogsBetween(chain.adminFeeLogs, fromBlock, toBlock), LogsBetween(chain.commitLogs, fromBlock, toBlock),
        InChainOrder),
          LogsBetween(chain.transferLogs, fromBlock, toBlock), InChainOrder)
  }

  /** Everything that happened in a range of blocks, in the order in which it is replayed. */
  function Happenings(chain: Chain, messages: seq<Event>, fromBlock: nat, toBlock: nat, fromTime: nat): seq<Event> {
    Merge(Timed(MergedLogs(chain, fromBlock, toBlock), chain.blockTime),
          MessagesBetween(messages, fromTime, chain.blockTime(toBlock)), InTimeOrder)
  }

  /** Plays the state up to a block. Nothing happens if that is the next block or an earlier one. */
  function PlayTo(p: Plasma, chain: Chain, messages: seq<Event>, prunedUpTo: nat, toBlock: nat): Outcome
    requires Ledgers.Valid(p.ledger)
  {
    if toBlock <= p.currentBlock + 1 then Outcome(p, None)
    else if p.currentTimestamp < prunedUpTo then Outcome(p, Some(CachePruned))
    else PlayedOn(p, chain, messages, toBlock)
  }

  /** All that has happened since the state's block and time is replayed, and the state moves on unless that fails. */
  function PlayedOn(p: Plasma, chain: Chain, messages: seq<Event>, toBlock: nat): Outcome
    requires Ledgers.Valid(p.ledger)
  {
    var r := Replay(p, Happenings(chain, messages, p.currentBlock + 1, toBlock, p.currentTimestamp));
    if r.error.Some? then r else Outcome(AtPosition(r.plasma, toBlock, chain.blockTime(toBlock)), None)
  }

  /** What playing to a block returns: the block committed last in the range, if playback ran and did not fail. */
  function PublishedBy(p: Plasma, chain: Chain, toBlock: nat, error: Option<PlaybackError>): Option<nat> {
    if error.None? && toBlock > p.currentBlock + 1
    then Some(LastCommitted(LogsBetween(chain.commitLogs, p.currentBlock + 1, toBlock)))
    else None
  }

  lemma NothingPublishedIf(p: Plasma, chain: Chain, toBlock: nat)
    ensures toBlock <= p.currentBlock + 1 ==> PublishedBy(p, chain, toBlock, None) == None
    ensures forall e :: PublishedBy(p, chain, toBlock, Some(e)) == None
  {
  }

  /** What PlayTo does in each of its three cases. */
  lemma PlayToIs(p: Plasma, chain: Chain, messages: seq<Event>, prunedUpTo: nat, toBlock: nat)
    requires Ledgers.Valid(p.ledger)
    ensures toBlock <= p.currentBlock + 1 ==> PlayTo(p, chain, messages, prunedUpTo, toBlock) == Outcome(p, None)
    ensures toBlock > p.currentBlock + 1 && p.currentTimestamp < prunedUpTo ==>
              PlayTo(p, chain, messages, prunedUpTo, toBlock) == Outcome(p, Some(CachePruned))
    ensures toBlock > p.currentBlock + 1 && p.currentTimestamp >= prunedUpTo ==>
              PlayTo(p, chain, messages, prunedUpTo, toBlock) == PlayedOn(p, chain, messages, toBlock)
  {
  }

  // ----- playing in pieces

  ghost predicate TimeSorted(messages: seq<Event>) {
    forall i, j :: 0 <= i < j < |messages| ==> messages[i].timestamp <= messages[j].timestamp
  }

  ghost predicate BlockSorted(logs: seq<Event>) {
    forall i, j :: 0 <= i < j < |logs| ==> logs[i].blockNumber <= logs[j].blockNumber
  }

  ghost predicate ChainInOrder(chain: Chain) {
    && BlockSorted(chain.adminFeeLogs) && BlockSorted(chain.commitLogs) && BlockSorted(chain.transferLogs)
    && (forall i, j :: i < j ==> chain.blockTime(i) < chain.blockTime(j))
  }

  lemma {:induction false} LogsAreInRange(logs: seq<Event>, fromBlock: nat, toBlock: nat)
    ensures forall e :: e in LogsBetween(logs, fromBlock, toBlock) ==> fromBlock <= e.blockNumber <= toBlock
  {
    if logs != [] {
      LogsAreInRange(logs[1..], fromBlock, toBlock);
    }
  }

  lemma {:induction false} MessagesAreInRange(messages: seq<Event>, fromTime: nat, toTime: nat)
    ensures forall m :: m in MessagesBetween(messages, fromTime, toTime) ==> fromTime < m.timestamp <= toTime
  {
    if messages != [] {
      MessagesAreInRange(messages[1..], fromTime, toTime);
    }
  }

  /** What comes first is in one of two parts; if it is in the second, the rest of the first part is empty. */
  lemma Assemble(head1: seq<Event>, head2: seq<Event>, rest1: seq<Event>, rest2: seq<Event>)
    requires head1 == [] || head2 == []
    requires head2 == [] || rest1 == []
    ensures (head1 + head2) + (rest1 + rest2) == (head1 + rest1) + (head2 + rest2)
    ensures head1 == [] ==> head1 + head2 == head2
    ensures head2 == [] ==> head1 + head2 == head1
  {
  }

  lemma LaterBlocksFollow(logs: seq<Event>)
    requires BlockSorted(logs) && logs != []
    ensures BlockSorted(logs[1..])
    ensures forall e :: e in logs[1..] ==> e.blockNumber >= logs[0].blockNumber
  {
  }

  lemma LogsOf(logs: seq<Event>, a: nat, b: nat)
    requires logs != []
    ensures LogsBetween(logs, a, b) ==
            (if a <= logs[0].blockNumber <= b then [logs[0]] else []) + LogsBetween(logs[1..], a, b)
  {
  }

  lemma {:induction false} LogsSplit(logs: seq<Event>, a: nat, b: nat, c: nat)
    requires BlockSorted(logs) && a <= b + 1 && b <= c
    ensures LogsBetween(logs, a, c) == LogsBetween(logs, a, b) + LogsBetween(logs, b + 1, c)
  {
    if logs != [] {
      var rest, n := logs[1..], logs[0].blockNumber;
      LaterBlocksFollow(logs);
      hide LogsBetween, BlockSorted;
      LogsSplit(rest, a, b, c);
      LogsOf(logs, a, b);
      LogsOf(logs, b + 1, c);
      LogsOf(logs, a, c);
      if n > b {
        LaterLogsOnly(rest, a, b);
      }
      Assemble(if a <= n <= b then [logs[0]] else [], if b + 1 <= n <= c then [logs[0]] else [],
               LogsBetween(rest, a, b), LogsBetween(rest, b + 1, c));
    }
  }

  lemma {:induction false} LaterLogsOnly(logs: seq<Event>, a: nat, b: nat)
    requires forall e :: e in logs ==> e.blockNumber > b
    ensures LogsBetween(logs, a, b) == []
  {
    if logs != [] {
      LaterLogsOnly(logs[1..], a, b);
    }
  }

  lemma LaterMessagesFollow(messages: seq<Event>)
    requires TimeSorted(messages) && messages != []
    ensures TimeSorted(messages[1..])
    ensures forall m :: m in messages[1..] ==> m.timestamp >= messages[0].timestamp
  {
  }

  lemma MessagesOf(messages: seq<Event>, a: nat, b: nat)
    requires messages != []
    ensures MessagesBetween(messages, a, b) ==
            (if a < messages[0].timestamp <= b then [messages[0]] else []) + MessagesBetween(messages[1..], a, b)
  {
  }

  lemma {:induction false} MessagesSplit(messages: seq<Event>, a: nat, b: nat, c: nat)
    requires TimeSorted(messages) && a <= b <= c
    ensures MessagesBetween(messages, a, c) == MessagesBetween(messages, a, b) + MessagesBetween(messages, b, c)
  {
    if messages != [] {
      var rest, time := messages[1..], messages[0].timestamp;
      LaterMessagesFollow(messages);
      hide MessagesBetween, TimeSorted;
      MessagesSplit(rest, a, b, c);
      MessagesOf(messages, a, b);
      MessagesOf(messages, b, c);
      MessagesOf(messages, a, c);
      if time > b {
        LaterMessagesOnly(rest, a, b);
      }
      Assemble(if a < time <= b then [messages[0]] else [], if b < time <= c then [messages[0]] else [],
               MessagesBetween(rest, a, b), MessagesBetween(rest, b, c));
    }
  }

  lemma {:induction false} LaterMessagesOnly(messages: seq<Event>, a: nat, b: nat)
    requires forall m :: m in messages ==> m.timestamp > b
    ensures MessagesBetween(messages, a, b) == []
  {
    if messages != [] {
      LaterMessagesOnly(messages[1..], a, b);
    }
  }

  lemma {:induction false} TimedSplits(a: seq<Event>, b: seq<Event>, blockTime: nat -> nat)
    ensures Timed(a + b, blockTime) == Timed(a, blockTime) + Timed(b, blockTime)
  {
  }

  /** Merging logs of earlier blocks and of later blocks apart is merging them together. */
  lemma ChainMergeSplits(xs1: seq<Event>, xs2: seq<Event>, ys1: seq<Event>, ys2: seq<Event>, b: nat)
    requires forall e :: e in xs1 || e in ys1 ==> e.blockNumber <= b
    requires forall e :: e in xs2 || e in ys2 ==> e.blockNumber > b
    ensures Merge(xs1 + xs2, ys1 + ys2, InChainOrder) == Merge(xs1, ys1, InChainOrder) + Merge(xs2, ys2, InChainOrder)
    ensures forall e :: e in Merge(xs1, ys1, InChainOrder) ==> e.blockNumber <= b
    ensures forall e :: e in Merge(xs2, ys2, InChainOrder) ==> e.blockNumber > b
  {
    MergeSplits(xs1, xs2, ys1, ys2, InChainOrder);
    forall e ensures e in Merge(xs1, ys1, InChainOrder) ==> e.blockNumber <= b
             ensures e in Merge(xs2, ys2, InChainOrder) ==> e.blockNumber > b
    {
      MergedFrom(xs1, ys1, InChainOrder, e);
      MergedFrom(xs2, ys2, InChainOrder, e);
    }
  }

  lemma MergedLogsSplit(chain: Chain, a: nat, b: nat, c: nat)
    requires ChainInOrder(chain) && a <= b + 1 && b <= c
    ensures MergedLogs(chain, a, c) == MergedLogs(chain, a, b) + MergedLogs(chain, b + 1, c)
    ensures forall e :: e in MergedLogs(chain, a, b) ==> e.blockNumber <= b
    ensures forall e :: e in MergedLogs(chain, b + 1, c) ==> e.blockNumber > b
  {
    var fees1, fees2 := LogsBetween(chain.adminFeeLogs, a, b), LogsBetween(chain.adminFeeLogs, b + 1, c);
    var commits1, commits2 := LogsBetween(chain.commitLogs, a, b), LogsBetween(chain.commitLogs, b + 1, c);
    var transfers1, transfers2 := LogsBetween(chain.transferLogs, a, b), LogsBetween(chain.transferLogs, b + 1, c);
    LogsSplit(chain.adminFeeLogs, a, b, c);
    LogsSplit(chain.commitLogs, a, b, c);
    LogsSplit(chain.transferLogs, a, b, c);
    LogsAreInRange(chain.adminFeeLogs, a, b);
    LogsAreInRange(chain.adminFeeLogs, b + 1, c);
    LogsAreInRange(chain.commitLogs, a, b);
    LogsAreInRange(chain.commitLogs, b + 1, c);
    LogsAreInRange(chain.transferLogs, a, b);
    LogsAreInRange(chain.transferLogs, b + 1, c);
    ChainMergeSplits(fees1, fees2, commits1, commits2, b);
    ChainMergeSplits(Merge(fees1, commits1, InChainOrder), Merge(fees2, commits2, InChainOrder), transfers1,
        transfers2, b);
  }

  /** Both merges and both windows split at a block. */
  lemma HappeningsSplit(chain: Chain, messages: seq<Event>, a: nat, b: nat, c: nat, fromTime: nat)
    requires ChainInOrder(chain) && TimeSorted(messages) && a <= b < c && fromTime <= chain.blockTime(b)
    ensures Happenings(chain, messages, a, c, fromTime) ==
            Happenings(chain, messages, a, b, fromTime) + Happenings(chain, messages, b + 1, c, chain.blockTime(b))
  {
    var t1, t2 := chain.blockTime(b), chain.blockTime(c);
    var logs1, logs2 := MergedLogs(chain, a, b), MergedLogs(chain, b + 1, c);
    var messages1, messages2 := MessagesBetween(messages, fromTime, t1), MessagesBetween(messages, t1, t2);
    assert t1 < t2;
    MergedLogsSplit(chain, a, b, c);
    TimedSplits(logs1, logs2, chain.blockTime);
    MessagesSplit(messages, fromTime, t1, t2);
    MessagesAreInRange(messages, fromTime, t1);
    MessagesAreInRange(messages, t1, t2);
    TimedAround(logs1, logs2, chain, b);
    MergeSplits(Timed(logs1, chain.blockTime), Timed(logs2, chain.blockTime), messages1, messages2, InTimeOrder);
  }

  lemma TimedAround(logs1: seq<Event>, logs2: seq<Event>, chain: Chain, b: nat)
    requires ChainInOrder(chain)
    requires forall e :: e in logs1 ==> e.blockNumber <= b
    requires forall e :: e in logs2 ==> e.blockNumber > b
    ensures forall e :: e in Timed(logs1, chain.blockTime) ==> e.timestamp <= chain.blockTime(b)
    ensures forall e :: e in Timed(logs2, chain.blockTime) ==> e.timestamp > chain.blockTime(b)
  {
    hide Timed, BlockSorted;
    forall e | e in Timed(logs1, chain.blockTime) ensures e.timestamp <= chain.blockTime(b) {
      var was := TimedFrom(logs1, chain.blockTime, e);
    }
    forall e | e in Timed(logs2, chain.blockTime) ensures e.timestamp > chain.blockTime(b) {
      var was := TimedFrom(logs2, chain.blockTime, e);
    }
  }

  lemma TimedFrom(logs: seq<Event>, blockTime: nat -> nat, e: Event) returns (was: Event)
    requires e in Timed(logs, blockTime)
    ensures was in logs && e.timestamp == blockTime(was.blockNumber)
  {
    hide Timed;
    var i :| 0 <= i < |logs| && Timed(logs, blockTime)[i] == e;
    was := logs[i];
  }

  /** Playing to one block and then to a later one ends as playing straight to the later one: in the same state, or in
      the same error with the same ledger, blocks and files. That includes a first step that was skipped. It does not
      include a second step to the block right after the first one, unless the first was skipped. */
  lemma PlaybackComposes(p: Plasma, chain: Chain, messages: seq<Event>, prunedUpTo: nat, b1: nat, b2: nat)
    requires Ledgers.Valid(p.ledger) && ChainInOrder(chain) && TimeSorted(messages)
    requires b1 > p.currentBlock + 1 ==> p.currentTimestamp <= chain.blockTime(b1)
    requires b1 < b2 && (b1 + 1 < b2 || b1 <= p.currentBlock + 1)
    ensures var first := PlayTo(p, chain, messages, prunedUpTo, b1);
            var inPieces := if first.error.Some? then first else PlayTo(first.plasma, chain, messages, prunedUpTo, b2);
            var direct := PlayTo(p, chain, messages, prunedUpTo, b2);
            && direct.error == inPieces.error
            && (direct.error.None? ==> direct.plasma == inPieces.plasma)
            && AtPosition(direct.plasma, 0, 0) == AtPosition(inPieces.plasma, 0, 0)
  {
    hide Replay, Ledgers.Valid, Happenings;
    if b1 > p.currentBlock + 1 && p.currentTimestamp >= prunedUpTo {
      var from, t0, t1 := p.currentBlock + 1, p.currentTimestamp, chain.blockTime(b1);
      var one, two := Happenings(chain, messages, from, b1, t0), Happenings(chain, messages, b1 + 1, b2, t1);
      HappeningsSplit(chain, messages, from, b1, b2, t0);
      ReplayInPieces(p, one, two);
      var mid := Replay(p, one);
      if mid.error.None? {
        ReplayIgnoresPosition(mid.plasma, AtPosition(mid.plasma, b1, t1), two);
      }
    }
  }

  /** Where nothing fails, playing in pieces and playing straight end in the same state exactly if the second block
      is not right after the first, or the first step was skipped. */
  lemma PlaybackComposesExactlyWhen(p: Plasma, chain: Chain, messages: seq<Event>, prunedUpTo: nat, b1: nat, b2: nat)
    requires Ledgers.Valid(p.ledger) && ChainInOrder(chain) && TimeSorted(messages)
    requires b1 > p.currentBlock + 1 ==> p.currentTimestamp <= chain.blockTime(b1)
    requires b1 < b2
    requires PlayTo(p, chain, messages, prunedUpTo, b1).error.None?
             && PlayTo(p, chain, messages, prunedUpTo, b2).error.None?
    ensures PlayTo(PlayTo(p, chain, messages, prunedUpTo, b1).plasma, chain, messages, prunedUpTo, b2) ==
            PlayTo(p, chain, messages, prunedUpTo, b2)
       <==> b1 + 1 < b2 || b1 <= p.currentBlock + 1
  {
    hide Replay, Ledgers.Valid, Happenings;
    if b1 + 1 < b2 || b1 <= p.currentBlock + 1 {
      PlaybackComposes(p, chain, messages, prunedUpTo, b1, b2);
    }
  }

  /** What is missing after a skipped step is exactly what happened in the skipped block: playing straight to it ends as
      replaying that on the state that the skipped step leaves as it is. */
  lemma SkippedHappeningsAreMissing(p: Plasma, chain: Chain, messages: seq<Event>, prunedUpTo: nat, b1: nat)
    requires Ledgers.Valid(p.ledger) && ChainInOrder(chain) && TimeSorted(messages)
    requires p.currentBlock + 1 < b1 && p.currentTimestamp <= chain.blockTime(b1)
    requires PlayTo(p, chain, messages, prunedUpTo, b1).error.None?
    ensures var first := PlayTo(p, chain, messages, prunedUpTo, b1).plasma;
            var direct := PlayTo(p, chain, messages, prunedUpTo, b1 + 1);
            var missed := Replay(first, Happenings(chain, messages, b1 + 1, b1 + 1, chain.blockTime(b1)));
            && Ledgers.Valid(first.ledger)
            && PlayTo(first, chain, messages, prunedUpTo, b1 + 1) == Outcome(first, None)
            && direct.error == missed.error
            && AtPosition(direct.plasma, 0, 0) == AtPosition(missed.plasma, 0, 0)
  {
    hide Replay, Ledgers.Valid, Happenings;
    var from, t0, t1 := p.currentBlock + 1, p.currentTimestamp, chain.blockTime(b1);
    var one, two := Happenings(chain, messages, from, b1, t0), Happenings(chain, messages, b1 + 1, b1 + 1, t1);
    HappeningsSplit(chain, messages, from, b1, b1 + 1, t0);
    ReplayInPieces(p, one, two);
    ReplayIgnoresPosition(Replay(p, one).plasma, AtPosition(Replay(p, one).plasma, b1, t1), two);
  }

  lemma RevenueIsNotNothing(l: Ledger, value: nat)
    requires Ledgers.Valid(l) && value > 0
    ensures AddRevenue(l, value) != l
  {
    if ActiveCount(l.members) == 0 {
      assert l.admin.Listed? ==> AddRevenue(l, value).members[l.admin.index] != l.members[l.admin.index];
    }
  }

  /** A chain with one transfer, in which block times are block numbers. */
  function OneTransfer(block: nat, value: nat): Chain {
    Chain([], [], [Event(block, 0, 0, 0, Transfer(value))], n => n)
  }

  lemma OneTransferHappens(block: nat, value: nat, fromBlock: nat, toBlock: nat, fromTime: nat)
    ensures Happenings(OneTransfer(block, value), [], fromBlock, toBlock, fromTime) ==
            if fromBlock <= block <= toBlock then [Event(block, 0, 0, block, Transfer(value))] else []
  {
    var chain := OneTransfer(block, value);
    assert chain.transferLogs[1..] == [];
    assert MergedLogs(chain, fromBlock, toBlock) == LogsBetween(chain.transferLogs, fromBlock, toBlock);
    if fromBlock <= block <= toBlock {
      assert LogsBetween(chain.transferLogs, fromBlock, toBlock) == [Event(block, 0, 0, 0, Transfer(value))];
      assert Timed([Event(block, 0, 0, 0, Transfer(value))], chain.blockTime)[0] ==
             Event(block, 0, 0, block, Transfer(value));
    }
  }

  lemma ReplayOne(p: Plasma, e: Event)
    requires Ledgers.Valid(p.ledger) && e.action.Transfer?
    ensures Replay(p, [e]) == Outcome(p.(ledger := AddRevenue(p.ledger, e.action.value)), None)
    ensures Replay(p, []) == Outcome(p, None)
  {
    hide Ledgers.Valid, AddRevenue;
    assert [e][1..] == [];
  }

  /** A run that shows it: whatever the state, a transfer in the block right after the first step is in the ledger when
      playing straight, and not when playing in pieces. */
  lemma SkippedTransferIsMissing(p: Plasma, value: nat)
    requires Ledgers.Valid(p.ledger) && value > 0 && p.currentTimestamp <= p.currentBlock + 2
    ensures var b1 := p.currentBlock + 2;
            var chain := OneTransfer(b1 + 1, value);
            var first := PlayTo(p, chain, [], 0, b1);
            && first.error.None? && Ledgers.Valid(first.plasma.ledger)
            && PlayTo(first.plasma, chain, [], 0, b1 + 1).plasma.ledger == p.ledger
            && PlayTo(p, chain, [], 0, b1 + 1).plasma.ledger == AddRevenue(p.ledger, value) != p.ledger
  {
    hide Ledgers.Valid, AddRevenue, Replay, Happenings;
    var b1 := p.currentBlock + 2;
    var chain := OneTransfer(b1 + 1, value);
    OneTransferHappens(b1 + 1, value, p.currentBlock + 1, b1, p.currentTimestamp);
    OneTransferHappens(b1 + 1, value, p.currentBlock + 1, b1 + 1, p.currentTimestamp);
    ReplayOne(p, Event(b1 + 1, 0, 0, b1 + 1, Transfer(value)));
    RevenueIsNotNothing(p.ledger, value);
  }

  /** What a skipped step leaves out is made up for by the next that is not skipped: between two steps of any
      length, one to the block right after the first makes no difference. */
  lemma SkippedBlockIsMadeUpFor(p: Plasma, chain: Chain, messages: seq<Event>, prunedUpTo: nat, b1: nat, b3: nat)
    requires Ledgers.Valid(p.ledger) && ChainInOrder(chain) && TimeSorted(messages)
    requires p.currentBlock + 1 < b1 && p.currentTimestamp <= chain.blockTime(b1) && b1 + 1 < b3
    requires PlayTo(p, chain, messages, prunedUpTo, b1).error.None?
    ensures var first := PlayTo(p, chain, messages, prunedUpTo, b1).plasma;
            var second := PlayTo(first, chain, messages, prunedUpTo, b1 + 1);
            && second == Outcome(first, None)
            && PlayTo(second.plasma, chain, messages, prunedUpTo, b3).error ==
               PlayTo(p, chain, messages, prunedUpTo, b3).error
            && (PlayTo(p, chain, messages, prunedUpTo, b3).error.None? ==>
                  PlayTo(second.plasma, chain, messages, prunedUpTo, b3) == PlayTo(p, chain, messages, prunedUpTo, b3))
  {
    hide Replay, Ledgers.Valid, Happenings;
    PlaybackComposes(p, chain, messages, prunedUpTo, b1, b3);
  }

  // ----- pruning

  /** A cache from which only messages up to some time have been dropped. */
  ghost predicate PrunedFrom(cache: seq<Event>, history: seq<Event>, prunedUpTo: nat) {
    && |cache| <= |history|
    && cache == history[|history| - |cache|..]
    && forall i :: 0 <= i < |history| - |cache| ==> history[i].timestamp <= prunedUpTo
  }

  /** Playback from a full history, unless the guard refuses it. */
  function PlayUnlessPruned(p: Plasma, chain: Chain, history: seq<Event>, prunedUpTo: nat, toBlock: nat): Outcome
    requires Ledgers.Valid(p.ledger)
  {
    if toBlock > p.currentBlock + 1 && p.currentTimestamp < prunedUpTo then Outcome(p, Some(CachePruned))
    else PlayTo(p, chain, history, 0, toBlock)
  }

  /** Any playback that the guard lets through sees the same messages as if nothing had been dropped. */
  lemma PruningIsTransparent(p: Plasma, chain: Chain, cache: seq<Event>, history: seq<Event>, prunedUpTo: nat,
                             toBlock: nat)
    requires Ledgers.Valid(p.ledger) && PrunedFrom(cache, history, prunedUpTo)
    ensures PlayTo(p, chain, cache, prunedUpTo, toBlock) == PlayUnlessPruned(p, chain, history, prunedUpTo, toBlock)
  {
    hide Replay, Ledgers.Valid;
    if p.currentTimestamp >= prunedUpTo {
      SameWindow(cache, history, prunedUpTo, p.currentTimestamp, chain.blockTime(toBlock));
    }
  }

  /** What pruning leaves of a cache: the messages after a time. */
  function Kept(messages: seq<Event>, time: nat): seq<Event> {
    if messages == [] then []
    else (if messages[0].timestamp > time then [messages[0]] else []) + Kept(messages[1..], time)
  }

  /** The first a messages are the ones up to a time. */
  ghost predicate SplitsAt(messages: seq<Event>, time: nat, a: nat) {
    a <= |messages| && forall i :: 0 <= i < |messages| ==> (messages[i].timestamp > time <==> i >= a)
  }

  lemma RestSplitsAt(messages: seq<Event>, time: nat, a: nat)
    requires SplitsAt(messages, time, a) && messages != []
    ensures SplitsAt(messages[1..], time, if a == 0 then 0 else a - 1)
    ensures messages[0].timestamp > time <==> a == 0
  {
  }

  /** In time order, every time splits a list. */
  lemma {:induction false} SplitPoint(messages: seq<Event>, time: nat) returns (k: nat)
    requires TimeSorted(messages)
    ensures SplitsAt(messages, time, k)
  {
    if messages == [] || messages[0].timestamp > time {
      k := 0;
    } else {
      LaterMessagesFollow(messages);
      var rest := SplitPoint(messages[1..], time);
      k := rest + 1;
      assert forall i :: 1 <= i < |messages| ==> messages[i] == messages[1..][i - 1];
    }
  }

  /** What is kept is then the rest. */
  lemma {:induction false} KeptIsRest(messages: seq<Event>, time: nat, k: nat)
    requires SplitsAt(messages, time, k)
    ensures Kept(messages, time) == messages[k..]
  {
    if messages != [] {
      RestSplitsAt(messages, time, k);
      hide SplitsAt;
      KeptIsRest(messages[1..], time, if k == 0 then 0 else k - 1);
      assert k == 0 ==> messages == [messages[0]] + messages[1..];
      assert k > 0 ==> messages[k..] == messages[1..][k - 1..];
    }
  }

  /** A cache that is the tail of a history answers every window from the mark on as the history exactly if nothing
      newer than the mark has been dropped: only then is the guard enough. */
  lemma GuardSufficesExactlyWhen(cache: seq<Event>, history: seq<Event>, prunedUpTo: nat)
    requires |cache| <= |history| && cache == history[|history| - |cache|..]
    ensures (forall fromTime: nat, toTime: nat :: prunedUpTo <= fromTime ==>
               MessagesBetween(cache, fromTime, toTime) == MessagesBetween(history, fromTime, toTime))
       <==> PrunedFrom(cache, history, prunedUpTo)
  {
    hide MessagesBetween;
    if PrunedFrom(cache, history, prunedUpTo) {
      forall fromTime: nat, toTime: nat | prunedUpTo <= fromTime
        ensures MessagesBetween(cache, fromTime, toTime) == MessagesBetween(history, fromTime, toTime)
      {
        SameWindow(cache, history, prunedUpTo, fromTime, toTime);
      }
    } else {
      var i :| 0 <= i < |history| - |cache| && history[i].timestamp > prunedUpTo;
      DroppedIsMissed(cache, history, i);
    }
  }

  lemma DroppedIsMissed(cache: seq<Event>, history: seq<Event>, i: nat)
    requires |cache| <= |history| && cache == history[|history| - |cache|..]
    requires i < |history| - |cache| && history[i].timestamp > 0
    ensures var time := history[i].timestamp;
            MessagesBetween(cache, time - 1, time) != MessagesBetween(history, time - 1, time)
  {
    hide MessagesBetween;
    var dropped, time := history[..|history| - |cache|], history[i].timestamp;
    assert history == dropped + cache && dropped[i] == history[i];
    BetweenConcat(dropped, cache, time - 1, time);
    BetweenFinds(dropped, time - 1, time, i);
  }

  lemma {:induction false} BetweenConcat(a: seq<Event>, b: seq<Event>, fromTime: nat, toTime: nat)
    ensures MessagesBetween(a + b, fromTime, toTime) ==
            MessagesBetween(a, fromTime, toTime) + MessagesBetween(b, fromTime, toTime)
  {
    if a == [] {
      assert a + b == b;
    } else {
      assert (a + b)[1..] == a[1..] + b;
      BetweenConcat(a[1..], b, fromTime, toTime);
    }
  }

  lemma {:induction false} BetweenFinds(messages: seq<Event>, fromTime: nat, toTime: nat, i: nat)
    requires i < |messages| && fromTime < messages[i].timestamp <= toTime
    ensures MessagesBetween(messages, fromTime, toTime) != []
  {
    if i > 0 {
      BetweenFinds(messages[1..], fromTime, toTime, i - 1);
    }
  }

  lemma {:induction false} SameWindow(cache: seq<Event>, history: seq<Event>, prunedUpTo: nat, fromTime: nat,
                                      toTime: nat)
    requires PrunedFrom(cache, history, prunedUpTo) && prunedUpTo <= fromTime
    ensures MessagesBetween(cache, fromTime, toTime) == MessagesBetween(history, fromTime, toTime)
    decreases |history|
  {
    if |cache| < |history| {
      assert history[0].timestamp <= prunedUpTo;
      assert history[1..][|history| - 1 - |cache|..] == history[|history| - |cache|..];
      SameWindow(cache, history[1..], prunedUpTo, fromTime, toTime);
    }
  }

  // ----- replay is a run of the ledger

  /** What a list of addresses in a message amounts to. */
  function JoinOps(addresses: seq<Address>): seq<Op> {
    if addresses == [] then [] else [Op.Join(addresses[0], "")] + JoinOps(addresses[1..])
  }

  function PartOps(addresses: seq<Address>): seq<Op> {
    if addresses == [] then [] else [Op.Part(addresses[0])] + PartOps(addresses[1..])
  }

  function OpsOf(e: Event): seq<Op> {
    match e.action
    case Transfer(value) => [Revenue(value)]
    case AdminFeeChanged(adminFee) => [FeeChange(adminFee)]
    case Join(addresses) => JoinOps(addresses)
    case Part(addresses) => PartOps(addresses)
    case _ => []
  }

  function AllOps(events: seq<Event>): seq<Op> {
    if events == [] then [] else OpsOf(events[0]) + AllOps(events[1..])
  }

  lemma OneOp(l: Ledger, op: Op, rest: seq<Op>)
    requires Ledgers.Valid(l)
    ensures Ledgers.Valid(Ledgers.Apply(l, op))
    ensures Ledgers.After(l, [op] + rest, 1 + |rest|) == Ledgers.After(Ledgers.Apply(l, op), rest, |rest|)
  {
    hide Ledgers.Valid, Ledgers.Apply, Ledgers.After;
    ApplyKeepsValid(l, op);
    RunsCompose(l, [op], rest, |rest|);
    AfterOneMore(l, [op], 1);
    AfterNone(l, [op]);
  }

  lemma {:induction false} JoinsAreOps(l: Ledger, addresses: seq<Address>)
    requires Ledgers.Valid(l)
    ensures JoinAll(l, addresses) == Ledgers.After(l, JoinOps(addresses), |JoinOps(addresses)|)
    decreases |addresses|
  {
    hide Ledgers.Valid, Ledgers.After, AddMember;
    if addresses == [] {
      AfterNone(l, []);
    } else {
      OneOp(l, Op.Join(addresses[0], ""), JoinOps(addresses[1..]));
      JoinsAreOps(Ledgers.Apply(l, Op.Join(addresses[0], "")), addresses[1..]);
    }
  }

  lemma {:induction false} PartsAreOps(l: Ledger, addresses: seq<Address>)
    requires Ledgers.Valid(l)
    ensures PartAll(l, addresses) == Ledgers.After(l, PartOps(addresses), |PartOps(addresses)|)
    decreases |addresses|
  {
    hide Ledgers.Valid, Ledgers.After, RemoveMember;
    if addresses == [] {
      AfterNone(l, []);
    } else {
      OneOp(l, Op.Part(addresses[0]), PartOps(addresses[1..]));
      PartsAreOps(Ledgers.Apply(l, Op.Part(addresses[0])), addresses[1..]);
    }
  }

  lemma SingleOp(l: Ledger, op: Op)
    requires Ledgers.Valid(l)
    ensures Ledgers.After(l, [op], 1) == Ledgers.Apply(l, op)
  {
    hide Ledgers.Valid, Ledgers.After, Ledgers.Apply;
    AfterOneMore(l, [op], 1);
    AfterNone(l, [op]);
  }

  lemma EventIsOps(p: Plasma, e: Event)
    requires Ledgers.Valid(p.ledger)
    ensures ReplayEvent(p, e).plasma.ledger == Ledgers.After(p.ledger, OpsOf(e), |OpsOf(e)|)
  {
    hide Ledgers.Valid, Ledgers.After, AddRevenue, Ledgers.SetAdminFee;
    match e.action
    case Transfer(value) => SingleOp(p.ledger, Revenue(value));
    case AdminFeeChanged(adminFee) => SingleOp(p.ledger, FeeChange(adminFee));
    case Join(addresses) => JoinsAreOps(p.ledger, addresses);
    case Part(addresses) => PartsAreOps(p.ledger, addresses);
    case NewCommit(_) => AfterNone(p.ledger, []);
    case Unexpected => AfterNone(p.ledger, []);
  }

  lemma AllOpsOf(events: seq<Event>, k: nat)
    requires k <= |events|
    ensures k == 0 ==> AllOps(events[..k]) == []
    ensures k > 0 ==> AllOps(events[..k]) == OpsOf(events[0]) + AllOps(events[1..][..k - 1])
    ensures k == 1 ==> AllOps(events[..k]) == OpsOf(events[0])
  {
    hide OpsOf;
    if k > 0 {
      assert events[..k][1..] == events[1..][..k - 1];
      assert OpsOf(events[0]) + [] == OpsOf(events[0]);
    }
  }

  /** A replay is a run of the ledger on what the events say: on all of them, or up to and including the one that
      failed. */
  lemma {:induction false} ReplayIsLedgerRun(p: Plasma, events: seq<Event>) returns (done: nat)
    requires Ledgers.Valid(p.ledger)
    ensures done <= |events| && (Replay(p, events).error.None? ==> done == |events|)
    ensures Replay(p, events).plasma.ledger == Ledgers.After(p.ledger, AllOps(events[..done]), |AllOps(events[..done])|)
    decreases |events|
  {
    hide Ledgers.Valid, Ledgers.After, ReplayEvent, OpsOf, AllOps;
    if events == [] {
      done := 0;
      AllOpsOf(events, 0);
      AfterNone(p.ledger, []);
    } else {
      EventIsOps(p, events[0]);
      var first := ReplayEvent(p, events[0]);
      if first.error.Some? {
        done := 1;
        AllOpsOf(events, 1);
      } else {
        var more := ReplayIsLedgerRun(first.plasma, events[1..]);
        done := 1 + more;
        AllOpsOf(events, done);
        var rest := AllOps(events[1..][..more]);
        RunsCompose(p.ledger, OpsOf(events[0]), rest, |rest|);
      }
    }
  }

  /** What transfers bring is all that a replay can add to the earnings, whatever joins, parts and fees come between. */
  lemma ReplayIsBacked(p: Plasma, events: seq<Event>)
    requires Ledgers.Valid(p.ledger)
    ensures SumEarnings(Replay(p, events).plasma.ledger.members) <= SumEarnings(p.ledger.members) + Brought(events)
  {
    hide Ledgers.Valid, Ledgers.After, Replay, AllOps;
    var done := ReplayIsLedgerRun(p, events);
    var ops := AllOps(events[..done]);
    EarningsAreBacked(p.ledger, ops, |ops|);
    OpsBring(events[..done]);
    BroughtSplits(events, done);
  }

  function Brought(events: seq<Event>): nat {
    if events == [] then 0
    else (if events[0].action.Transfer? then events[0].action.value else 0) + Brought(events[1..])
  }

  lemma {:induction false} BroughtSplits(events: seq<Event>, k: nat)
    requires k <= |events|
    ensures Brought(events[..k]) <= Brought(events)
    decreases k
  {
    if k > 0 {
      assert events[..k][1..] == events[1..][..k - 1];
      BroughtSplits(events[1..], k - 1);
    }
  }

  lemma {:induction false} ReceivedSplits(a: seq<Op>, b: seq<Op>, n: nat)
    requires n <= |b|
    ensures TotalReceived(a + b, |a| + n) == TotalReceived(a, |a|) + TotalReceived(b, n)
  {
    if n > 0 {
      ReceivedSplits(a, b, n - 1);
    } else {
      ReceivedOfPrefix(a, b, |a|);
    }
  }

  lemma {:induction false} ReceivedOfPrefix(a: seq<Op>, b: seq<Op>, n: nat)
    requires n <= |a|
    ensures TotalReceived(a + b, n) == TotalReceived(a, n)
  {
    if n > 0 {
      ReceivedOfPrefix(a, b, n - 1);
    }
  }

  lemma {:induction false} NothingReceived(ops: seq<Op>, n: nat)
    requires n <= |ops| && forall i :: 0 <= i < |ops| ==> !ops[i].Revenue?
    ensures TotalReceived(ops, n) == 0
  {
    if n > 0 {
      NothingReceived(ops, n - 1);
    }
  }

  lemma {:induction false} ListsBringNothing(addresses: seq<Address>)
    ensures forall i :: 0 <= i < |JoinOps(addresses)| ==> !JoinOps(addresses)[i].Revenue?
    ensures forall i :: 0 <= i < |PartOps(addresses)| ==> !PartOps(addresses)[i].Revenue?
  {
    if addresses != [] {
      ListsBringNothing(addresses[1..]);
    }
  }

  lemma {:induction false} OpsBring(events: seq<Event>)
    ensures TotalReceived(AllOps(events), |AllOps(events)|) == Brought(events)
  {
    if events != [] {
      var first, rest := OpsOf(events[0]), AllOps(events[1..]);
      OpsBring(events[1..]);
      ReceivedSplits(first, rest, |rest|);
      match events[0].action
      case Transfer(value) => assert TotalReceived(first, 1) == value;
      case Join(addresses) => ListsBringNothing(addresses); NothingReceived(first, |first|);
      case Part(addresses) => ListsBringNothing(addresses); NothingReceived(first, |first|);
      case _ => NothingReceived(first, |first|);
    }
  }
}
