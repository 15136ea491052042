/** Runs of a watcher: messages that are cached, events that are replayed live, playbacks and prunings, in any order. */
module WatcherRuns {
  import opened Wrappers
  import opened Ledgers
  import opened Events
  import opened Playback

  /** `history` is every message ever received. */
  datatype Watching = Watching(plasma: Plasma, cache: seq<Event>, prunedUpTo: nat, history: seq<Event>)

  datatype Step =
    | Message(message: Event)
    | Live(event: Event)
    | Play(toBlock: nat)
    | Prune

  /** A watcher before any message, whose state is at a block and no later than its time. */
  ghost predicate IsNew(w: Watching, chain: Chain) {
    && Ledgers.Valid(w.plasma.ledger) && w.cache == w.history == [] && w.prunedUpTo == 0
    && w.plasma.currentTimestamp <= chain.blockTime(w.plasma.currentBlock)
  }

  /** Messages come in time order. */
  ghost predicate Can(w: Watching, step: Step) {
    step.Message? ==> forall m :: m in w.history ==> m.timestamp <= step.message.timestamp
  }

  function Do(w: Watching, chain: Chain, step: Step): Watching
    requires Ledgers.Valid(w.plasma.ledger)
  {
    match step
    case Message(m) => w.(cache := w.cache + [m], history := w.history + [m])
    case Live(e) => w.(plasma := Playback.ReplayEvent(w.plasma, e).plasma)
    case Play(toBlock) => w.(plasma := PlayTo(w.plasma, chain, w.cache, w.prunedUpTo, toBlock).plasma)
    case Prune => w.(cache := Kept(w.cache, w.plasma.currentTimestamp), prunedUpTo := w.plasma.currentTimestamp)
  }

  /** The mark is right and not ahead of the watcher's time, which is not ahead of its block's. */
  ghost predicate RightlyMarked(w: Watching, chain: Chain) {
    && Ledgers.Valid(w.plasma.ledger) && TimeSorted(w.history) && PrunedFrom(w.cache, w.history, w.prunedUpTo)
    && w.prunedUpTo <= w.plasma.currentTimestamp <= chain.blockTime(w.plasma.currentBlock)
  }

  lemma MessageKeepsMark(w: Watching, chain: Chain, m: Event)
    requires RightlyMarked(w, chain) && Can(w, Message(m))
    ensures RightlyMarked(Do(w, chain, Message(m)), chain)
  {
    hide Ledgers.Valid;
    var next := Do(w, chain, Message(m));
    assert forall i :: 0 <= i < |w.history| ==> next.history[i] == w.history[i];
  }

  lemma PruneKeepsMark(w: Watching, chain: Chain)
    requires RightlyMarked(w, chain)
    ensures RightlyMarked(Do(w, chain, Prune), chain)
  {
    hide Ledgers.Valid;
    var time := w.plasma.currentTimestamp;
    TailIsSorted(w.cache, w.history, w.prunedUpTo);
    var k := SplitPoint(w.cache, time);
    KeptIsRest(w.cache, time, k);
    TailOfTail(w.cache, w.history, w.prunedUpTo, time, k);
  }

  lemma TailIsSorted(cache: seq<Event>, history: seq<Event>, mark: nat)
    requires PrunedFrom(cache, history, mark) && TimeSorted(history)
    ensures TimeSorted(cache)
  {
  }

  lemma TailOfTail(cache: seq<Event>, history: seq<Event>, mark: nat, newMark: nat, k: nat)
    requires PrunedFrom(cache, history, mark) && mark <= newMark && k <= |cache|
    requires forall i :: 0 <= i < k ==> cache[i].timestamp <= newMark
    ensures PrunedFrom(cache[k..], history, newMark)
  {
    var dropped := |history| - |cache|;
    assert forall i :: dropped <= i < |history| ==> history[i] == cache[i - dropped];
  }

  /** Nothing but playback moves the state on, and playback moves it to the block and its time. */
  lemma PlayMovesForward(p: Plasma, chain: Chain, messages: seq<Event>, prunedUpTo: nat, toBlock: nat)
    requires Ledgers.Valid(p.ledger) && ChainInOrder(chain) && p.currentTimestamp <= chain.blockTime(p.currentBlock)
    ensures var next := PlayTo(p, chain, messages, prunedUpTo, toBlock).plasma;
            && Ledgers.Valid(next.ledger)
            && p.currentTimestamp <= next.currentTimestamp <= chain.blockTime(next.currentBlock)
  {
    hide Ledgers.Valid, Replay, Happenings;
    if toBlock > p.currentBlock + 1 {
      ReplayKeepsPosition(p, Happenings(chain, messages, p.currentBlock + 1, toBlock, p.currentTimestamp));
      assert chain.blockTime(p.currentBlock) < chain.blockTime(toBlock);
    }
  }

  lemma {:induction false} ReplayKeepsPosition(p: Plasma, events: seq<Event>)
    requires Ledgers.Valid(p.ledger)
    ensures Replay(p, events).plasma.currentBlock == p.currentBlock
    ensures Replay(p, events).plasma.currentTimestamp == p.currentTimestamp
    decreases |events|
  {
    hide Ledgers.Valid, Playback.ReplayEvent;
    if events != [] {
      EventKeepsPosition(p, events[0]);
      ReplayKeepsPosition(Playback.ReplayEvent(p, events[0]).plasma, events[1..]);
    }
  }

  lemma EventKeepsPosition(p: Plasma, e: Event)
    requires Ledgers.Valid(p.ledger)
    ensures Playback.ReplayEvent(p, e).plasma.currentBlock == p.currentBlock
    ensures Playback.ReplayEvent(p, e).plasma.currentTimestamp == p.currentTimestamp
  {
  }

  lemma StepKeepsMark(w: Watching, chain: Chain, step: Step)
    requires RightlyMarked(w, chain) && ChainInOrder(chain) && Can(w, step)
    ensures RightlyMarked(Do(w, chain, step), chain)
  {
    hide Ledgers.Valid, PlayTo, Playback.ReplayEvent, TimeSorted, PrunedFrom, Kept;
    match step
    case Message(m) => MessageKeepsMark(w, chain, m);
    case Live(e) => EventKeepsPosition(w.plasma, e);
    case Play(toBlock) => PlayMovesForward(w.plasma, chain, w.cache, w.prunedUpTo, toBlock);
    case Prune => PruneKeepsMark(w, chain);
  }

  ghost predicate IsRun(w: Watching, chain: Chain, steps: seq<Step>)
    requires RightlyMarked(w, chain) && ChainInOrder(chain)
    decreases |steps|
  {
    steps == [] ||
    (&& Can(w, steps[0])
     && (StepKeepsMark(w, chain, steps[0]); IsRun(Do(w, chain, steps[0]), chain, steps[1..])))
  }

  ghost function After(w: Watching, chain: Chain, steps: seq<Step>): Watching
    requires RightlyMarked(w, chain) && ChainInOrder(chain) && IsRun(w, chain, steps)
    decreases |steps|
  {
    if steps == [] then w
    else
      StepKeepsMark(w, chain, steps[0]);
      After(Do(w, chain, steps[0]), chain, steps[1..])
  }

  lemma {:induction false} RunKeepsMark(w: Watching, chain: Chain, steps: seq<Step>)
    requires RightlyMarked(w, chain) && ChainInOrder(chain) && IsRun(w, chain, steps)
    ensures RightlyMarked(After(w, chain, steps), chain)
    decreases |steps|
  {
    hide ChainInOrder, Can, Do, TimeSorted, PrunedFrom, Ledgers.Valid;
    if steps != [] {
      StepKeepsMark(w, chain, steps[0]);
      RunKeepsMark(Do(w, chain, steps[0]), chain, steps[1..]);
    }
  }

  lemma NewIsRightlyMarked(w: Watching, chain: Chain)
    requires IsNew(w, chain)
    ensures RightlyMarked(w, chain)
  {
  }

  /** The state that a run comes to if nothing is ever pruned: live events are replayed as they come, and playbacks use
      every message received so far. */
  function Unpruned(p: Plasma, chain: Chain, history: seq<Event>, steps: seq<Step>): Plasma
    requires Ledgers.Valid(p.ledger)
    decreases |steps|
  {
    if steps == [] then p
    else
      match steps[0]
      case Message(m) => Unpruned(p, chain, history + [m], steps[1..])
      case Live(e) => Unpruned(Playback.ReplayEvent(p, e).plasma, chain, history, steps[1..])
      case Play(toBlock) => Unpruned(PlayTo(p, chain, history, 0, toBlock).plasma, chain, history, steps[1..])
      case Prune => Unpruned(p, chain, history, steps[1..])
  }

  lemma PlaysAsUnpruned(w: Watching, chain: Chain, toBlock: nat)
    requires RightlyMarked(w, chain)
    ensures PlayTo(w.plasma, chain, w.cache, w.prunedUpTo, toBlock) == PlayTo(w.plasma, chain, w.history, 0, toBlock)
  {
    hide Ledgers.Valid, TimeSorted, PlayTo;
    PruningIsTransparent(w.plasma, chain, w.cache, w.history, w.prunedUpTo, toBlock);
  }

  /** Pruning never shows: every run ends in the state that it would come to with nothing pruned. */
  lemma {:induction false} RunEndsAsUnpruned(w: Watching, chain: Chain, steps: seq<Step>)
    requires RightlyMarked(w, chain) && ChainInOrder(chain) && IsRun(w, chain, steps)
    ensures After(w, chain, steps).plasma == Unpruned(w.plasma, chain, w.history, steps)
    decreases |steps|
  {
    hide ChainInOrder, Can, TimeSorted, PrunedFrom, Ledgers.Valid, PlayTo, Playback.ReplayEvent;
    if steps != [] {
      StepKeepsMark(w, chain, steps[0]);
      if steps[0].Play? {
        PlaysAsUnpruned(w, chain, steps[0].toBlock);
      }
      RunEndsAsUnpruned(Do(w, chain, steps[0]), chain, steps[1..]);
    }
  }

  /** In every run of a new watcher: the watcher's own playback is never refused, and a playback of any state that is
      not refused is one from the full history; it is refused exactly if it would need to start before the mark. */
  lemma PlaybackSeesFullHistory(w: Watching, chain: Chain, steps: seq<Step>, p: Plasma, toBlock: nat)
    requires ChainInOrder(chain) && IsNew(w, chain) && (NewIsRightlyMarked(w, chain); IsRun(w, chain, steps))
    requires Ledgers.Valid(p.ledger)
    ensures RightlyMarked(w, chain)
    ensures var end := After(w, chain, steps);
            && Ledgers.Valid(end.plasma.ledger)
            && PlayTo(end.plasma, chain, end.cache, end.prunedUpTo, toBlock) ==
               PlayTo(end.plasma, chain, end.history, 0, toBlock)
            && PlayTo(p, chain, end.cache, end.prunedUpTo, toBlock) ==
               PlayUnlessPruned(p, chain, end.history, end.prunedUpTo, toBlock)
  {
    NewIsRightlyMarked(w, chain);
    RunKeepsMark(w, chain, steps);
    var end := After(w, chain, steps);
    hide Ledgers.Valid, PlayTo, TimeSorted, IsRun, After;
    PruningIsTransparent(end.plasma, chain, end.cache, end.history, end.prunedUpTo, toBlock);
    PruningIsTransparent(p, chain, end.cache, end.history, end.prunedUpTo, toBlock);
  }
}
