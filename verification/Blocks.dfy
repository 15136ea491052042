/** The list of latest blocks, newest first, and why cutting its tail is never noticed. */
module Blocks {
  import opened Wrappers
  import opened Members

  const MAX_SAFE_INTEGER: nat := 0x1F_FFFF_FFFF_FFFF

  datatype Block = Block(
    blockNumber: nat,
    members: seq<Member>,
    timestamp: nat,
    totalEarnings: nat,
    owner: Address,
    adminFee: nat)

  datatype BlockError = BadTimestamp | BadBlockNumber | AlreadyStored | NotPublished | BadBlock | MemberNotFound

  // ----- order

  /** Strictly falling block numbers. */
  ghost predicate Descending(blocks: seq<Block>) {
    forall i, j :: 0 <= i < j < |blocks| ==> blocks[i].blockNumber > blocks[j].blockNumber
  }

  /** What sorting by falling block number gives; blocks with the same number keep their order. */
  function SortDescending(blocks: seq<Block>): seq<Block> {
    if blocks == [] then [] else InsertDescending(blocks[0], SortDescending(blocks[1..]))
  }

  function InsertDescending(b: Block, sorted: seq<Block>): seq<Block> {
    if sorted == [] || sorted[0].blockNumber <= b.blockNumber then [b] + sorted
    else [sorted[0]] + InsertDescending(b, sorted[1..])
  }

  /** Sorting a list that is in order already changes nothing. */
  lemma {:induction false} SortKeepsDescending(blocks: seq<Block>)
    requires Descending(blocks)
    ensures SortDescending(blocks) == blocks
  {
    if blocks != [] {
      SortKeepsDescending(blocks[1..]);
    }
  }

  /** The first listed block with a number. */
  function Find(blocks: seq<Block>, blockNumber: nat): Option<Block> {
    if blocks == [] then None
    else if blocks[0].blockNumber == blockNumber then Some(blocks[0])
    else Find(blocks[1..], blockNumber)
  }

  lemma {:induction false} InsertedIsFound(b: Block, sorted: seq<Block>, blockNumber: nat)
    ensures Find(InsertDescending(b, sorted), blockNumber) ==
            if blockNumber == b.blockNumber then Some(b) else Find(sorted, blockNumber)
  {
    if sorted != [] && sorted[0].blockNumber > b.blockNumber {
      InsertedIsFound(b, sorted[1..], blockNumber);
    }
  }

  /** Whatever order a list is in, sorting it changes no answer to the question which block has a number. */
  lemma {:induction false} SortFindsTheSame(blocks: seq<Block>, blockNumber: nat)
    ensures Find(SortDescending(blocks), blockNumber) == Find(blocks, blockNumber)
  {
    if blocks != [] {
      SortFindsTheSame(blocks[1..], blockNumber);
      InsertedIsFound(blocks[0], SortDescending(blocks[1..]), blockNumber);
    }
  }

  lemma {:induction false} NotFoundIsNotListed(blocks: seq<Block>, blockNumber: nat)
    ensures Find(blocks, blockNumber).None? <==> forall i :: 0 <= i < |blocks| ==> blocks[i].blockNumber != blockNumber
  {
    if blocks != [] {
      NotFoundIsNotListed(blocks[1..], blockNumber);
    }
  }

  lemma {:induction false} FirstIsFound(blocks: seq<Block>, blockNumber: nat, i: nat)
    requires i < |blocks| && blocks[i].blockNumber == blockNumber
    requires forall j :: 0 <= j < i ==> blocks[j].blockNumber != blockNumber
    ensures Find(blocks, blockNumber) == Some(blocks[i])
  {
    if i > 0 {
      FirstIsFound(blocks[1..], blockNumber, i - 1);
    }
  }

  /** A block with a new number finds its place in a falling list, wherever that is. */
  lemma {:induction false} InsertKeepsDescending(b: Block, sorted: seq<Block>)
    requires Descending(sorted) && forall i :: 0 <= i < |sorted| ==> sorted[i].blockNumber != b.blockNumber
    ensures Descending(InsertDescending(b, sorted))
    ensures forall c :: c in InsertDescending(b, sorted) <==> c == b || c in sorted
  {
    if sorted != [] && sorted[0].blockNumber > b.blockNumber {
      InsertKeepsDescending(b, sorted[1..]);
      var rest := InsertDescending(b, sorted[1..]);
      forall k | 0 <= k < |rest| ensures sorted[0].blockNumber > rest[k].blockNumber {
        assert rest[k] in rest;
      }
    }
  }

  /** Putting a block with a new number in front and sorting gives a falling list with that block and the old ones. */
  lemma ListedInOrder(b: Block, blocks: seq<Block>)
    requires Descending(blocks) && Find(blocks, b.blockNumber).None?
    ensures Descending(SortDescending([b] + blocks))
    ensures forall c :: c in SortDescending([b] + blocks) <==> c == b || c in blocks
  {
    NotFoundIsNotListed(blocks, b.blockNumber);
    SortKeepsDescending(blocks);
    assert ([b] + blocks)[1..] == blocks;
    InsertKeepsDescending(b, blocks);
  }

  // ----- storing and asking

  predicate HasNewer(blocks: seq<Block>, blockNumber: nat) {
    exists i :: 0 <= i < |blocks| && blocks[i].blockNumber >= blockNumber
  }

  /** Refuses a block unless it is newer than all that are listed. */
  function Store(blocks: seq<Block>, block: Block): Result<seq<Block>, BlockError> {
    if !(1 <= block.timestamp <= MAX_SAFE_INTEGER) then Failure(BadTimestamp)
    else if !(1 <= block.blockNumber <= MAX_SAFE_INTEGER) then Failure(BadBlockNumber)
    else if HasNewer(blocks, block.blockNumber) then Failure(AlreadyStored)
    else Success(SortDescending([block] + blocks))
  }

  lemma StoredGoesFirst(blocks: seq<Block>, block: Block)
    requires Descending(blocks) && !HasNewer(blocks, block.blockNumber)
    ensures Descending([block] + blocks) && SortDescending([block] + blocks) == [block] + blocks
  {
    SortKeepsDescending([block] + blocks);
  }

  predicate IsWithdrawable(b: Block, now: nat, freezeSeconds: nat) {
    now - b.timestamp > freezeSeconds
  }

  /** The index of the first block whose freeze is over, or the length. */
  function FirstWithdrawable(blocks: seq<Block>, now: nat, freezeSeconds: nat): (i: nat)
    ensures i <= |blocks|
    ensures i < |blocks| ==> IsWithdrawable(blocks[i], now, freezeSeconds)
    ensures forall j :: 0 <= j < i ==> !IsWithdrawable(blocks[j], now, freezeSeconds)
  {
    if blocks == [] || IsWithdrawable(blocks[0], now, freezeSeconds) then 0
    else FirstWithdrawable(blocks[1..], now, freezeSeconds) + 1
  }

  /** The newest block whose freeze is over. */
  function LatestWithdrawable(blocks: seq<Block>, now: nat, freezeSeconds: nat): Option<Block> {
    var i := FirstWithdrawable(blocks, now, freezeSeconds);
    if i == |blocks| then None else Some(blocks[i])
  }

  /** Throws away what is older than the newest block whose freeze is over. */
  function Truncate(blocks: seq<Block>, now: nat, freezeSeconds: nat): seq<Block> {
    var i := FirstWithdrawable(blocks, now, freezeSeconds);
    if i == |blocks| then blocks else blocks[..i + 1]
  }

  function Latest(blocks: seq<Block>): Option<Block> {
    if blocks == [] then None else Some(blocks[0])
  }

  // ----- truncation is invisible

  datatype Request = StoreRequest(block: Block) | WithdrawableRequest(now: nat) | LatestRequest

  datatype Answer = Stored(error: Option<BlockError>) | Found(block: Option<Block>)

  function AnswerTo(blocks: seq<Block>, freezeSeconds: nat, r: Request): Answer {
    match r
    case StoreRequest(block) =>
      (match Store(blocks, block)
       case Success(_) => Stored(None)
       case Failure(e) => Stored(Some(e)))
    case WithdrawableRequest(now) => Found(LatestWithdrawable(blocks, now, freezeSeconds))
    case LatestRequest => Found(Latest(blocks))
  }

  /** The list after a request, with the tail cut or not. */
  function ListAfter(blocks: seq<Block>, freezeSeconds: nat, r: Request, cut: bool): seq<Block> {
    match r
    case StoreRequest(block) =>
      (match Store(blocks, block)
       case Success(stored) => stored
       case Failure(_) => blocks)
    case WithdrawableRequest(now) => if cut then Truncate(blocks, now, freezeSeconds) else blocks
    case LatestRequest => blocks
  }

  function Answers(blocks: seq<Block>, freezeSeconds: nat, requests: seq<Request>, cut: bool): (answers: seq<Answer>)
    ensures |answers| == |requests|
    decreases |requests|
  {
    if requests == [] then []
    else
      [AnswerTo(blocks, freezeSeconds, requests[0])] +
      Answers(ListAfter(blocks, freezeSeconds, requests[0], cut), freezeSeconds, requests[1..], cut)
  }

  /** A cut list is the head of the full one, and ends at a block whose freeze was over by `clock`. */
  ghost predicate IsCutOf(blocks: seq<Block>, full: seq<Block>, clock: nat, freezeSeconds: nat) {
    && Descending(full)
    && blocks <= full
    && (blocks == full || (blocks != [] && IsWithdrawable(blocks[|blocks| - 1], clock, freezeSeconds)))
  }

  /** The clock does not go back. */
  ghost predicate ClockRuns(requests: seq<Request>, clock: nat) {
    requests == [] ||
    match requests[0]
    case WithdrawableRequest(now) => clock <= now && ClockRuns(requests[1..], now)
    case _ => ClockRuns(requests[1..], clock)
  }

  lemma SameAnswer(blocks: seq<Block>, full: seq<Block>, clock: nat, freezeSeconds: nat, r: Request)
    requires IsCutOf(blocks, full, clock, freezeSeconds)
    requires r.WithdrawableRequest? ==> clock <= r.now
    ensures AnswerTo(blocks, freezeSeconds, r) == AnswerTo(full, freezeSeconds, r)
    ensures IsCutOf(ListAfter(blocks, freezeSeconds, r, true), ListAfter(full, freezeSeconds, r, false),
                    if r.WithdrawableRequest? then r.now else clock, freezeSeconds)
  {
    match r
    case StoreRequest(block) => SameStore(blocks, full, clock, freezeSeconds, block);
    case WithdrawableRequest(now) => SameWithdrawable(blocks, full, clock, freezeSeconds, now);
    case LatestRequest =>
  }

  lemma NewestIsFirst(blocks: seq<Block>, blockNumber: nat)
    requires Descending(blocks)
    ensures HasNewer(blocks, blockNumber) <==> blocks != [] && blocks[0].blockNumber >= blockNumber
  {
  }

  lemma SameStore(blocks: seq<Block>, full: seq<Block>, clock: nat, freezeSeconds: nat, block: Block)
    requires IsCutOf(blocks, full, clock, freezeSeconds)
    ensures HasNewer(blocks, block.blockNumber) == HasNewer(full, block.blockNumber)
    ensures !HasNewer(full, block.blockNumber) ==>
              IsCutOf(SortDescending([block] + blocks), SortDescending([block] + full), clock, freezeSeconds)
  {
    assert blocks == [] <==> full == [];
    hide HasNewer, SortDescending, Descending;
    StoreAlike(blocks, full, block);
  }

  /** A head of a list that is not empty unless the list is refuses and takes the same blocks. */
  lemma StoreAlike(blocks: seq<Block>, full: seq<Block>, block: Block)
    requires blocks <= full && Descending(full) && (blocks == [] <==> full == [])
    ensures HasNewer(blocks, block.blockNumber) == HasNewer(full, block.blockNumber)
    ensures !HasNewer(full, block.blockNumber) ==>
              && SortDescending([block] + blocks) == [block] + blocks
              && SortDescending([block] + full) == [block] + full
              && [block] + blocks <= [block] + full && Descending([block] + full)
  {
    HeadIsDescending(blocks, full);
    hide HasNewer, SortDescending, Descending;
    NewestIsFirst(blocks, block.blockNumber);
    NewestIsFirst(full, block.blockNumber);
    assert blocks != [] ==> blocks[0] == full[0];
    if !HasNewer(full, block.blockNumber) {
      StoredGoesFirst(blocks, block);
      StoredGoesFirst(full, block);
    }
  }

  lemma HeadIsDescending(blocks: seq<Block>, full: seq<Block>)
    requires blocks <= full && Descending(full)
    ensures Descending(blocks)
  {
  }

  lemma SameWithdrawable(blocks: seq<Block>, full: seq<Block>, clock: nat, freezeSeconds: nat, now: nat)
    requires IsCutOf(blocks, full, clock, freezeSeconds) && clock <= now
    ensures LatestWithdrawable(blocks, now, freezeSeconds) == LatestWithdrawable(full, now, freezeSeconds)
    ensures IsCutOf(Truncate(blocks, now, freezeSeconds), full, now, freezeSeconds)
  {
    if blocks != full {
      var i, j := FirstWithdrawable(blocks, now, freezeSeconds), FirstWithdrawable(full, now, freezeSeconds);
      assert IsWithdrawable(blocks[|blocks| - 1], now, freezeSeconds);
      assert i < |blocks| && blocks[i] == full[i];
      assert j <= i && blocks[j] == full[j];
    }
  }

  /** Whatever is stored and asked, as long as the clock does not go back, every answer is the same as if
      nothing had ever been cut. */
  lemma {:induction false} TruncationIsInvisible(blocks: seq<Block>, full: seq<Block>, clock: nat, freezeSeconds: nat,
                                                 requests: seq<Request>)
    requires IsCutOf(blocks, full, clock, freezeSeconds) && ClockRuns(requests, clock)
    ensures Answers(blocks, freezeSeconds, requests, true) == Answers(full, freezeSeconds, requests, false)
    decreases |requests|
  {
    if requests != [] {
      var r := requests[0];
      SameAnswer(blocks, full, clock, freezeSeconds, r);
      TruncationIsInvisible(ListAfter(blocks, freezeSeconds, r, true), ListAfter(full, freezeSeconds, r, false),
                            if r.WithdrawableRequest? then r.now else clock, freezeSeconds, requests[1..]);
    }
  }

  // ----- when truncation shows

  /** Later blocks have later timestamps, or the same. */
  ghost predicate TimesFall(blocks: seq<Block>) {
    forall i, j :: 0 <= i < j < |blocks| ==> blocks[i].timestamp >= blocks[j].timestamp
  }

  ghost predicate SomeWithdrawable(blocks: seq<Block>, now: nat, freezeSeconds: nat) {
    exists i :: 0 <= i < |blocks| && IsWithdrawable(blocks[i], now, freezeSeconds)
  }

  /** A list that was cut after k blocks answers as the full one exactly if one of the k is withdrawable, or no block
      of the full list is. */
  lemma CutAnswersAlikeExactlyWhen(full: seq<Block>, k: nat, now: nat, freezeSeconds: nat)
    requires k <= |full|
    ensures LatestWithdrawable(full[..k], now, freezeSeconds) == LatestWithdrawable(full, now, freezeSeconds)
       <==> SomeWithdrawable(full[..k], now, freezeSeconds) || !SomeWithdrawable(full, now, freezeSeconds)
  {
    var i, j := FirstWithdrawable(full[..k], now, freezeSeconds), FirstWithdrawable(full, now, freezeSeconds);
    if SomeWithdrawable(full[..k], now, freezeSeconds) {
      assert i < k && full[..k][i] == full[i];
      assert j <= i && full[j] == full[..k][j];
    }
  }

  lemma OldestThawsFirst(blocks: seq<Block>, now: nat, freezeSeconds: nat)
    requires TimesFall(blocks)
    ensures SomeWithdrawable(blocks, now, freezeSeconds) <==>
            blocks != [] && IsWithdrawable(blocks[|blocks| - 1], now, freezeSeconds)
  {
  }

  /** With timestamps in the order of the blocks that is: the clock is past the freeze of the last block kept, or
      not yet past that of the oldest. */
  lemma CutAnswersAlikeByClock(full: seq<Block>, k: nat, now: nat, freezeSeconds: nat)
    requires 0 < k <= |full| && TimesFall(full)
    ensures LatestWithdrawable(full[..k], now, freezeSeconds) == LatestWithdrawable(full, now, freezeSeconds)
       <==> now > full[k - 1].timestamp + freezeSeconds || now <= full[|full| - 1].timestamp + freezeSeconds
  {
    CutAnswersAlikeExactlyWhen(full, k, now, freezeSeconds);
    OldestThawsFirst(full[..k], now, freezeSeconds);
    OldestThawsFirst(full, now, freezeSeconds);
  }

  /** Every question for the withdrawable block in a series of requests comes when a block that was kept is
      withdrawable, or none that was ever listed is. */
  ghost predicate Unnoticed(blocks: seq<Block>, full: seq<Block>, freezeSeconds: nat, requests: seq<Request>)
    decreases |requests|
  {
    requests == [] ||
    (&& (requests[0].WithdrawableRequest? ==>
           || SomeWithdrawable(blocks, requests[0].now, freezeSeconds)
           || !SomeWithdrawable(full, requests[0].now, freezeSeconds))
     && Unnoticed(ListAfter(blocks, freezeSeconds, requests[0], true),
                  ListAfter(full, freezeSeconds, requests[0], false), freezeSeconds, requests[1..]))
  }

  lemma StoreKeepsPrefix(blocks: seq<Block>, full: seq<Block>, freezeSeconds: nat, r: Request)
    requires blocks <= full && Descending(full) && (blocks == [] <==> full == [])
    ensures var cut, all := ListAfter(blocks, freezeSeconds, r, true), ListAfter(full, freezeSeconds, r, false);
            cut <= all && Descending(all) && (cut == [] <==> all == [])
    ensures !r.WithdrawableRequest? ==> AnswerTo(blocks, freezeSeconds, r) == AnswerTo(full, freezeSeconds, r)
  {
    hide HasNewer, SortDescending, Descending;
    if r.StoreRequest? {
      StoreAlike(blocks, full, r.block);
    }
  }

  /** For all requests, with whatever clock: all answers are those of a list that is never cut exactly if the cut goes
      unnoticed by every question. */
  lemma {:induction false} TruncationIsInvisibleExactlyWhen(blocks: seq<Block>, full: seq<Block>, freezeSeconds: nat,
                                                            requests: seq<Request>)
    requires blocks <= full && Descending(full) && (blocks == [] <==> full == [])
    ensures Answers(blocks, freezeSeconds, requests, true) == Answers(full, freezeSeconds, requests, false)
       <==> Unnoticed(blocks, full, freezeSeconds, requests)
    decreases |requests|
  {
    hide Descending, LatestWithdrawable, SomeWithdrawable;
    if requests != [] {
      var r := requests[0];
      var cut, all := ListAfter(blocks, freezeSeconds, r, true), ListAfter(full, freezeSeconds, r, false);
      StoreKeepsPrefix(blocks, full, freezeSeconds, r);
      TruncationIsInvisibleExactlyWhen(cut, all, freezeSeconds, requests[1..]);
      if r.WithdrawableRequest? {
        assert full[..|blocks|] == blocks;
        CutAnswersAlikeExactlyWhen(full, |blocks|, r.now, freezeSeconds);
      }
      HeadsAndTails(AnswerTo(blocks, freezeSeconds, r), Answers(cut, freezeSeconds, requests[1..], true),
                    AnswerTo(full, freezeSeconds, r), Answers(all, freezeSeconds, requests[1..], false));
    }
  }

  lemma HeadsAndTails<T>(x: T, xs: seq<T>, y: T, ys: seq<T>)
    ensures [x] + xs == [y] + ys <==> x == y && xs == ys
  {
    if [x] + xs == [y] + ys {
      assert ([x] + xs)[0] == ([y] + ys)[0] && ([x] + xs)[1..] == ([y] + ys)[1..];
    }
  }

  /** Any two blocks with different timestamps can be missed: the newer one is asked for when its freeze is over,
      which cuts the older one, and then the clock goes back to where only the older one's is. */
  lemma TruncationShowsIfClockGoesBack(newer: Block, older: Block, freezeSeconds: nat, late: nat, early: nat)
    requires newer.blockNumber > older.blockNumber
    requires older.timestamp + freezeSeconds < early <= newer.timestamp + freezeSeconds < late
    ensures var requests := [WithdrawableRequest(late), WithdrawableRequest(early)];
            && Answers([newer, older], freezeSeconds, requests, true) !=
               Answers([newer, older], freezeSeconds, requests, false)
            && LatestWithdrawable(Truncate([newer, older], late, freezeSeconds), early, freezeSeconds) == None
            && LatestWithdrawable([newer, older], early, freezeSeconds) == Some(older)
  {
    var full, requests := [newer, older], [WithdrawableRequest(late), WithdrawableRequest(early)];
    assert full[..1] == [newer] == Truncate(full, late, freezeSeconds);
    CutAnswersAlikeByClock(full, 1, early, freezeSeconds);
    assert SomeWithdrawable(full, early, freezeSeconds) by {
      assert IsWithdrawable(full[1], early, freezeSeconds);
    }
    assert requests[1..] == [WithdrawableRequest(early)];
    assert !Unnoticed([newer], full, freezeSeconds, requests[1..]);
    TruncationIsInvisibleExactlyWhen(full, full, freezeSeconds, requests);
    assert full[1..] == [older];
    assert FirstWithdrawable([newer], early, freezeSeconds) == 1;
  }
}
