/** The store of published blocks: one file per block number and a link to the latest. */
module FileStores {
  import opened Wrappers
  import opened Blocks

  datatype Files = Files(blocks: map<nat, Block>, latest: Option<nat>)

  /** Files are named after the block they hold, and the link names the greatest of them. */
  ghost predicate Consistent(f: Files) {
    && (forall n :: n in f.blocks ==> f.blocks[n].blockNumber == n)
    && match f.latest
       case None => f.blocks == map[]
       case Some(n) => n in f.blocks && forall m :: m in f.blocks ==> m <= n
  }

  function LatestBlock(f: Files): Option<Block> {
    if f.latest.Some? && f.latest.value in f.blocks then Some(f.blocks[f.latest.value]) else None
  }

  /** What saving a block does: an old file of that number is overwritten, and the link moves unless it names a
      newer block. */
  function Save(f: Files, block: Block): Files {
    var written := f.blocks[block.blockNumber := block];
    var current := LatestBlock(f.(blocks := written));
    if current.Some? && current.value.blockNumber > block.blockNumber then f.(blocks := written)
    else Files(written, Some(block.blockNumber))
  }

  /** The link names the greatest number whatever order blocks are saved in. */
  lemma SaveKeepsConsistent(f: Files, block: Block)
    requires Consistent(f)
    ensures Consistent(Save(f, block))
    ensures LatestBlock(Save(f, block)) ==
            if f.latest.Some? && f.latest.value > block.blockNumber then LatestBlock(f) else Some(block)
  {
    var next := Save(f, block);
    if f.latest.Some? {
      assert f.latest.value in next.blocks;
    } else {
      assert next.blocks.Keys == {block.blockNumber};
    }
  }

  function Load(f: Files, blockNumber: nat): Result<Block, BlockError> {
    if blockNumber in f.blocks then Success(f.blocks[blockNumber]) else Failure(NotPublished)
  }

  function SaveAll(f: Files, blocks: seq<Block>): Files {
    if blocks == [] then f else Save(SaveAll(f, blocks[..|blocks| - 1]), blocks[|blocks| - 1])
  }

  /** What was saved last under a number. */
  function SavedLast(blocks: seq<Block>, blockNumber: nat): Option<Block> {
    if blocks == [] then None
    else if blocks[|blocks| - 1].blockNumber == blockNumber then Some(blocks[|blocks| - 1])
    else SavedLast(blocks[..|blocks| - 1], blockNumber)
  }

  /** The block at i is the last one with this number. */
  ghost predicate IsLastWith(blocks: seq<Block>, i: int, blockNumber: nat) {
    0 <= i < |blocks| && blocks[i].blockNumber == blockNumber
      && forall j :: i < j < |blocks| ==> blocks[j].blockNumber != blockNumber
  }

  lemma {:induction false} SavedLastIsTheLast(blocks: seq<Block>, blockNumber: nat)
    ensures match SavedLast(blocks, blockNumber)
            case Some(b) => exists i :: IsLastWith(blocks, i, blockNumber) && blocks[i] == b
            case None => forall i :: 0 <= i < |blocks| ==> blocks[i].blockNumber != blockNumber
  {
    if blocks != [] {
      var rest, last := blocks[..|blocks| - 1], |blocks| - 1;
      SavedLastIsTheLast(rest, blockNumber);
      if blocks[last].blockNumber == blockNumber {
        assert IsLastWith(blocks, last, blockNumber);
      } else if SavedLast(rest, blockNumber).Some? {
        var i :| IsLastWith(rest, i, blockNumber) && rest[i] == SavedLast(rest, blockNumber).value;
        assert IsLastWith(blocks, i, blockNumber) && blocks[i] == rest[i];
      } else {
        assert forall i :: 0 <= i < last ==> blocks[i] == rest[i];
      }
    }
  }

  /** What was saved last under a number is what is loaded from it, whatever is saved under other numbers before or
      after, and a number under which nothing was saved cannot be loaded. */
  lemma {:induction false} LoadsWhatWasSavedLast(f: Files, blocks: seq<Block>, blockNumber: nat)
    requires f.blocks == map[]
    ensures Load(SaveAll(f, blocks), blockNumber) ==
            match SavedLast(blocks, blockNumber) case Some(b) => Success(b) case None => Failure(NotPublished)
  {
    if blocks != [] {
      LoadsWhatWasSavedLast(f, blocks[..|blocks| - 1], blockNumber);
    }
  }

  /** The block with a number: as listed, else as filed. */
  function Published(listed: seq<Block>, files: map<nat, Block>, blockNumber: nat): Option<Block> {
    if Find(listed, blockNumber).Some? then Find(listed, blockNumber)
    else if blockNumber in files then Some(files[blockNumber])
    else None
  }

  /** Published under a number is the first listed block with that number, whatever the store holds; the stored one if
      none is listed; and none only if it is not stored either. */
  lemma ListedIsPublished(listed: seq<Block>, files: map<nat, Block>, blockNumber: nat, i: nat)
    ensures i < |listed| && listed[i].blockNumber == blockNumber
            && (forall j :: 0 <= j < i ==> listed[j].blockNumber != blockNumber) ==>
              Published(listed, files, blockNumber) == Some(listed[i])
    ensures (forall j :: 0 <= j < |listed| ==> listed[j].blockNumber != blockNumber) ==>
              Published(listed, files, blockNumber) ==
              if blockNumber in files then Some(files[blockNumber]) else None
  {
    NotFoundIsNotListed(listed, blockNumber);
    if i < |listed| && listed[i].blockNumber == blockNumber
       && forall j :: 0 <= j < i ==> listed[j].blockNumber != blockNumber {
      FirstIsFound(listed, blockNumber, i);
    }
  }

  /** Listing a block that is published already, in whatever order the list is, changes no published block. */
  lemma ListingKeepsPublished(listed: seq<Block>, files: map<nat, Block>, block: Block, blockNumber: nat)
    requires Published(listed, files, block.blockNumber) == Some(block)
    ensures Published(SortDescending([block] + listed), files, blockNumber) == Published(listed, files, blockNumber)
  {
    SortFindsTheSame([block] + listed, blockNumber);
    assert ([block] + listed)[1..] == listed;
  }

  ghost predicate AllFiled(listed: seq<Block>, files: map<nat, Block>) {
    forall i :: 0 <= i < |listed| ==> listed[i].blockNumber in files && files[listed[i].blockNumber] == listed[i]
  }

  /** Saving a block and listing it, in whatever order the list is, changes no block published under another number. */
  lemma StoringKeepsPublished(listed: seq<Block>, f: Files, block: Block, blockNumber: nat)
    requires blockNumber != block.blockNumber
    ensures Published(SortDescending([block] + listed), Save(f, block).blocks, blockNumber) ==
            Published(listed, f.blocks, blockNumber)
  {
    SortFindsTheSame([block] + listed, blockNumber);
    assert ([block] + listed)[1..] == listed;
  }

  lemma {:induction false} FindIsFiled(listed: seq<Block>, files: map<nat, Block>, blockNumber: nat)
    requires AllFiled(listed, files)
    ensures match Find(listed, blockNumber)
            case Some(b) => blockNumber in files && files[blockNumber] == b
            case None => true
  {
    if listed != [] {
      FindIsFiled(listed[1..], files, blockNumber);
    }
  }

  /** What a cut drops from the list is still filed, so no published block changes. */
  lemma TruncatingKeepsPublished(listed: seq<Block>, files: map<nat, Block>, now: nat, freezeSeconds: nat,
                                 blockNumber: nat)
    requires AllFiled(listed, files)
    ensures Published(Truncate(listed, now, freezeSeconds), files, blockNumber) == Published(listed, files, blockNumber)
    ensures AllFiled(Truncate(listed, now, freezeSeconds), files)
  {
    FindIsFiled(listed, files, blockNumber);
    FindIsFiled(Truncate(listed, now, freezeSeconds), files, blockNumber);
    if blockNumber !in files {
      assert Find(listed, blockNumber).None? && Find(Truncate(listed, now, freezeSeconds), blockNumber).None?;
    }
  }

  class FileStore {
    var blocks: map<nat, Block>
    var latest: Option<nat>

    function View(): Files
      reads this
    {
      Files(blocks, latest)
    }

    constructor ()
      ensures View() == Files(map[], None) && Consistent(View())
    {
      blocks, latest := map[], None;
    }

    method LoadBlock(blockNumber: nat) returns (r: Result<Block, BlockError>)
      ensures r == Load(View(), blockNumber)
    {
      if blockNumber !in blocks {
        return Failure(NotPublished);
      }
      return Success(blocks[blockNumber]);
    }

    /** Whether loading the block will succeed. */
    method BlockExists(blockNumber: nat) returns (exists_: bool)
      ensures exists_ <==> Load(View(), blockNumber).Success?
    {
      exists_ := blockNumber in blocks;
    }

    method GetLatestBlock() returns (block: Option<Block>)
      ensures block == LatestBlock(View())
    {
      if latest.None? || latest.value !in blocks {
        return None;
      }
      return Some(blocks[latest.value]);
    }

    method SaveBlock(block: Block) returns (error: Option<BlockError>)
      modifies this
      ensures error == if block.blockNumber == 0 then Some(BadBlock) else None
      ensures View() == if error.Some? then old(View()) else Save(old(View()), block)
    {
      if block.blockNumber == 0 {
        return Some(BadBlock);
      }
      blocks := blocks[block.blockNumber := block];
      MakeLatestSymlink(block.blockNumber);
      return None;
    }

    method MakeLatestSymlink(blockNumber: nat)
      requires blockNumber in blocks
      modifies this`latest
      ensures var current := old(LatestBlock(View()));
              latest == if current.Some? && current.value.blockNumber > blockNumber then old(latest)
                        else Some(blockNumber)
    {
      var latestBlock := GetLatestBlock();
      if latestBlock.Some? && latestBlock.value.blockNumber > blockNumber {
        return;
      }
      latest := None;
      latest := Some(blockNumber);
    }
  }
}
