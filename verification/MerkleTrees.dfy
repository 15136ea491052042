/** The Merkle tree builder: it fills an array of hashes level by level, in place. */
module MerkleTrees {
  import opened Wrappers
  import opened Members
  import opened Hashing
  import opened MerkleSpec

  const MAX_POW_2: nat := 0x1_0000_0000
  const MAX_ROUNDED: nat := 0x4000_0000

  datatype TreeError = NumberTooBig | NeverEnds | EmptyContents | AddressNotFound

  // ----- rounding up with 32-bit shifts

  /** `i << 1` on the 32-bit integers that JavaScript shifts. */
  function ShiftLeft32(i: int): int {
    var w := 2 * i % MAX_POW_2;
    if w >= MAX_POW_2 / 2 then w - MAX_POW_2 else w
  }

  /** The loop variable of the rounding loop after n shifts. */
  function Shifted(n: nat): int {
    if n == 0 then 1 else ShiftLeft32(Shifted(n - 1))
  }

  lemma {:induction false} Pow2Adds(j: nat, k: nat)
    ensures Pow2(j + k) == Pow2(j) * Pow2(k)
  {
    if j > 0 {
      Pow2Adds(j - 1, k);
    }
  }

  lemma Pow2Of30()
    ensures Pow2(30) == MAX_ROUNDED
  {
    assert Pow2(10) == 1024;
    Pow2Adds(10, 10);
    Pow2Adds(10, 20);
  }

  lemma ShiftLeft32Is(i: int)
    requires 0 <= i <= MAX_ROUNDED
    ensures ShiftLeft32(i) == if i < MAX_ROUNDED then 2 * i else -0x8000_0000
    ensures ShiftLeft32(-0x8000_0000) == 0
  {
  }

  lemma {:induction false} ShiftedIs(n: nat)
    ensures Shifted(n) == if n <= 30 then Pow2(n) else if n == 31 then -0x8000_0000 else 0
    ensures n <= 30 ==> Pow2(n) <= MAX_ROUNDED
  {
    Pow2AtMost30(n);
    if n > 0 {
      ShiftedIs(n - 1);
      Pow2AtMost30(n - 1);
      ShiftLeft32Is(if n <= 31 then Pow2(n - 1) else 0);
    }
  }

  lemma Pow2AtMost30(n: nat)
    ensures n <= 30 ==> Pow2(n) <= MAX_ROUNDED
    ensures n == 30 ==> Pow2(n) == MAX_ROUNDED
  {
    Pow2Of30();
    Pow2Monotone(n, 30);
  }

  /** The rounding loop ends exactly for inputs up to 2^30, although the guard lets inputs up to 2^32 through. */
  lemma RoundingEndsExactlyUpTo(x: nat)
    requires x > 0
    ensures (exists n :: Shifted(n) >= x) <==> x <= MAX_ROUNDED
  {
    if x <= MAX_ROUNDED {
      ShiftedIs(30);
      Pow2Of30();
      assert Shifted(30) >= x;
    }
    forall n | Shifted(n) >= x
      ensures x <= MAX_ROUNDED
    {
      ShiftedIs(n);
    }
  }

  /** Rounds up within a number of turns of the loop. For inputs above 2^30 no number suffices. */
  method RoundUpToPowerOfTwo(x: nat, turns: nat) returns (r: Result<nat, TreeError>)
    ensures x > MAX_POW_2 ==> r == Failure(NumberTooBig)
    ensures MAX_ROUNDED < x <= MAX_POW_2 ==> r == Failure(NeverEnds)
    ensures x <= MAX_ROUNDED ==>
              r == if CeilLog2(x) <= turns then Success(Pow2(CeilLog2(x))) else Failure(NeverEnds)
  {
    if x > MAX_POW_2 {
      return Failure(NumberTooBig);
    }
    var i := 1;
    var turn := 0;
    while i < x
      invariant turn <= turns && i == Shifted(turn)
      invariant x <= MAX_ROUNDED ==> turn <= 30 && (turn > 0 ==> Pow2(turn - 1) < x)
      decreases turns - turn
    {
      if x <= MAX_ROUNDED {
        Turning(x, turn);
      }
      if turn == turns {
        return Failure(NeverEnds);
      }
      i := ShiftLeft32(i);
      turn := turn + 1;
    }
    EndOfTurning(x, turn);
    return Success(i);
  }

  lemma Turning(x: nat, turn: nat)
    requires Shifted(turn) < x && x <= MAX_ROUNDED && turn <= 30
    ensures turn < 30 && Pow2(turn) < x && turn < CeilLog2(x)
  {
    hide Shifted, Pow2, CeilLog2;
    ShiftedIs(turn);
    Pow2Of30();
    if CeilLog2(x) <= turn {
      Pow2Monotone(CeilLog2(x), turn);
    }
  }

  lemma EndOfTurning(x: nat, turn: nat)
    requires Shifted(turn) >= x
    ensures x <= MAX_ROUNDED
    ensures turn <= 30 && (turn > 0 ==> Pow2(turn - 1) < x) ==> turn == CeilLog2(x) && Shifted(turn) == Pow2(turn)
  {
    if x > 0 {
      RoundingEndsExactlyUpTo(x);
    }
    ShiftedIs(turn);
    if turn <= 30 && (turn > 0 ==> Pow2(turn - 1) < x) {
      CeilLog2Is(x, turn);
    }
  }

  // ----- filling the array

  /** The path that is served for an address. */
  function ServedPath(contents: seq<Member>, salt: nat, address: Address): Option<seq<Digest>> {
    var branch := BranchCount(|contents|);
    if address in IndexOf(contents, branch) then
      IndexOfFindsLast(contents, branch, address);
      Some(MemberPath(contents, salt, IndexOf(contents, branch)[address] - branch))
    else None
  }

  /** An address has a path exactly if it has an entry. */
  lemma ServedExactlyIfListed(contents: seq<Member>, salt: nat, address: Address)
    ensures ServedPath(contents, salt, address).Some? <==>
            exists j :: 0 <= j < |contents| && contents[j].address == address
  {
    IndexOfFindsLast(contents, BranchCount(|contents|), address);
  }

  /** An address gets the path of its last entry. */
  lemma ServedPathIsOfLastEntry(contents: seq<Member>, salt: nat, j: nat)
    requires LastWithItsAddress(contents, j)
    ensures ServedPath(contents, salt, contents[j].address) == Some(MemberPath(contents, salt, j))
  {
    hide IndexOf, MemberPath, BranchCount, LastWithItsAddress;
    LastIsListed(contents, j);
    var branch, address := BranchCount(|contents|), contents[j].address;
    IndexOfFindsLast(contents, branch, address);
    LastIsUnique(contents, IndexOf(contents, branch)[address] - branch, j);
  }

  lemma LastIsListed(contents: seq<Member>, j: nat)
    requires LastWithItsAddress(contents, j)
    ensures j < |contents|
  {
  }

  lemma LastIsUnique(contents: seq<Member>, i: nat, j: nat)
    requires LastWithItsAddress(contents, i) && LastWithItsAddress(contents, j)
    requires contents[i].address == contents[j].address
    ensures i == j
  {
  }

  /** The payslip of a member is the first entry with its address, and the path served for that address. The path
      proves the entry exactly when the last entry with the address has the same earnings, as it has when
      addresses are distinct. */
  lemma PayslipProvesExactlyWhen(contents: seq<Member>, salt: nat, first: nat, last: nat)
    requires first <= last && LastWithItsAddress(contents, last) && contents[first].address == contents[last].address
    ensures ServedPath(contents, salt, contents[first].address).Some?
    ensures Fold(HashLeaf(contents[first], salt), ServedPath(contents, salt, contents[first].address).value) ==
            Root(contents, salt)
       <==> contents[first].earnings == contents[last].earnings
  {
    ServedPathIsOfLastEntry(contents, salt, last);
    Completeness(contents, salt, last);
    var path := MemberPath(contents, salt, last);
    if Fold(HashLeaf(contents[first], salt), path) == Root(contents, salt) {
      FoldIsInjective(HashLeaf(contents[first], salt), HashLeaf(contents[last], salt), path);
    }
  }

  /** The cell of a node on a level whose zero has not been placed yet. */
  function PlainCell(leaves: seq<Digest>, branch: nat, i: nat): Cell
    requires i > 0
  {
    match Node(leaves, branch, i)
    case Some(h) => Hash(h)
    case None => Undefined
  }

  /** The leaves are hashed, nothing else is. */
  ghost predicate LeavesHashed(hashes: seq<Cell>, leaves: seq<Digest>, branch: nat) {
    && 0 < branch <= |hashes|
    && hashes[0] == Count(branch)
    && (forall i :: branch <= i < |hashes| ==> hashes[i] == PlainCell(leaves, branch, i))
    && (forall i :: 0 < i < branch ==> hashes[i] == Undefined)
  }

  method BuildMerkleTree(leafContents: seq<Member>, salt: nat) returns (hashes: array<Cell>, indexOf: map<Address, nat>)
    requires |leafContents| <= MAX_ROUNDED
    ensures fresh(hashes)
    ensures hashes[..] == Cells(Leaves(leafContents, salt))
    ensures indexOf == IndexOf(leafContents, BranchCount(|leafContents|))
  {
    hide Pow2, CeilLog2, Node, CellAt, Cells, LeavesHashed, IndexOf;
    var leafCount := |leafContents| + |leafContents| % 2;
    Pow2Of30();
    CeilLog2AtMost(leafCount, 30);
    var rounded := RoundUpToPowerOfTwo(leafCount, 30);
    var branchCount := rounded.value;
    var treeSize := branchCount + leafCount;
    hashes, indexOf := HashLeaves(leafContents, salt, branchCount, treeSize);
    ghost var leaves, k := Leaves(leafContents, salt), CeilLog2(leafCount);
    BuildBranches(hashes, leaves, k, branchCount, treeSize);
    CellsAre(hashes[..], leaves);
  }

  lemma CellsAre(hashes: seq<Cell>, leaves: seq<Digest>)
    requires |hashes| == BranchCount(|leaves|) + LeafRoom(|leaves|)
    requires hashes[0] == Count(BranchCount(|leaves|))
    requires forall i :: 0 < i < |hashes| ==> hashes[i] == CellAt(leaves, BranchCount(|leaves|), i)
    ensures hashes == Cells(leaves)
  {
  }

  method HashLeaves(leafContents: seq<Member>, salt: nat, branchCount: nat, treeSize: nat)
    returns (hashes: array<Cell>, indexOf: map<Address, nat>)
    requires 0 < branchCount && treeSize == branchCount + LeafRoom(|leafContents|)
    ensures fresh(hashes) && hashes.Length == treeSize
    ensures LeavesHashed(hashes[..], Leaves(leafContents, salt), branchCount)
    ensures indexOf == IndexOf(leafContents, branchCount)
  {
    hashes := new Cell[treeSize](_ => Undefined);
    indexOf := map[];
    hashes[0] := Count(branchCount);
    var i := branchCount;
    while i < branchCount + |leafContents|
      invariant branchCount <= i <= branchCount + |leafContents|
      invariant indexOf == IndexOf(leafContents[..i - branchCount], branchCount)
      invariant hashes[0] == Count(branchCount)
      invariant forall j :: branchCount <= j < i ==> hashes[j] == Hash(HashLeaf(leafContents[j - branchCount], salt))
      invariant forall j :: 0 < j < branchCount || i <= j < treeSize ==> hashes[j] == Undefined
    {
      var member := leafContents[i - branchCount];
      assert leafContents[..i + 1 - branchCount][..i - branchCount] == leafContents[..i - branchCount];
      indexOf := indexOf[member.address := i];
      hashes[i] := Hash(HashLeaf(member, salt));
      i := i + 1;
    }
    assert leafContents[..|leafContents|] == leafContents;
  }

  /** The parent of two cells of a level whose zero has not been placed yet. */
  function ParentCell(hash1: Cell, hash2: Cell): Cell {
    if hash1.Hash? && hash2.Hash? then Hash(HashCombined(hash1.digest, hash2.digest)) else hash1
  }

  /** A cell with the zero next to an odd node filled in. */
  function ZeroFilled(hashes: seq<Cell>, i: nat): Cell
    requires 0 < i < |hashes|
  {
    if hashes[i].Undefined? && i % 2 == 1 && !hashes[i - 1].Undefined? then Hash(Zero) else hashes[i]
  }

  /** From the leaves up: each level gets its zero and its parents. */
  method BuildBranches(hashes: array<Cell>, ghost leaves: seq<Digest>, ghost k: nat, branchCount: nat, treeSize: nat)
    requires branchCount == Pow2(k)
    requires treeSize == hashes.Length == branchCount + LeafRoom(|leaves|) <= 2 * branchCount
    requires LeavesHashed(hashes[..], leaves, branchCount)
    modifies hashes
    ensures hashes[0] == Count(branchCount)
    ensures forall i :: 0 < i < treeSize ==> hashes[i] == CellAt(leaves, branchCount, i)
  {
    hide Pow2, LeafRoom, LeavesHashed, BuiltFrom, Passed, PlainCell, CellAt, ZeroFilled, LevelCount;
    var startI, endI := branchCount, treeSize;
    ghost var m := k;
    LevelsAreEven(k, |leaves|);
    BuiltFromLeaves(hashes[..], leaves, branchCount);
    while startI > 1
      invariant 0 <= m <= k && startI == Pow2(m)
      invariant endI == if m == k then treeSize else 2 * startI
      invariant startI <= endI <= treeSize
      invariant BuiltFrom(hashes[..], leaves, branchCount, startI, endI)
    {
      ghost var was := hashes[..];
      Pow2Monotone(m, k);
      LevelsAreEven(m, |leaves|);
      LevelToBuild(was, leaves, k, m, endI);
      BuildLevel(hashes, startI, endI, startI + LevelCount(|leaves|, branchCount, startI));
      ParentLevel(was, hashes[..], leaves, branchCount, startI, endI);
      endI := startI;
      startI := startI / 2;
      m := m - 1;
    }
    BuiltToTheRoot(hashes[..], leaves, branchCount, endI);
  }

  lemma BuiltFromLeaves(hashes: seq<Cell>, leaves: seq<Digest>, branch: nat)
    requires LeavesHashed(hashes, leaves, branch)
    ensures 0 < branch <= |hashes| && BuiltFrom(hashes, leaves, branch, branch, |hashes|)
  {
  }

  lemma LevelToBuild(hashes: seq<Cell>, leaves: seq<Digest>, k: nat, m: nat, endI: nat)
    requires m <= k && Pow2(m) <= endI <= 2 * Pow2(m) && endI <= |hashes| && endI % 2 == 0 && 0 < m
    requires BuiltFrom(hashes, leaves, Pow2(k), Pow2(m), endI)
    ensures forall i :: 0 < i < Pow2(m) ==> hashes[i] == Undefined
    ensures forall i :: Pow2(m) <= i < endI ==>
      if i - Pow2(m) < LevelCount(|leaves|, Pow2(k), Pow2(m)) then hashes[i].Hash? else hashes[i].Undefined?
    ensures forall i :: Pow2(m) <= i < endI ==> ZeroFilled(hashes, i) == CellAt(leaves, Pow2(k), i)
  {
    hide Pow2, PlainCell, CellAt, ZeroFilled, LevelCount;
    PlainLevel(hashes, leaves, k, m, endI);
  }

  lemma BuiltToTheRoot(hashes: seq<Cell>, leaves: seq<Digest>, branch: nat, endI: nat)
    requires 1 <= endI <= 2 && endI <= |hashes| && BuiltFrom(hashes, leaves, branch, 1, endI)
    ensures hashes[0] == Count(branch) && forall i :: 0 < i < |hashes| ==> hashes[i] == CellAt(leaves, branch, i)
  {
    hide Node;
  }

  lemma LevelsAreEven(m: nat, n: nat)
    ensures if m == 0 then Pow2(m) == 1 else Pow2(m) == 2 * Pow2(m - 1)
    ensures m > 0 ==> Pow2(m) % 2 == 0 && (Pow2(m) + LeafRoom(n)) % 2 == 0
  {
    if m > 0 {
      SumIsEven(Pow2(m - 1), (n + 1) / 2);
      LeafRoomIsEven(n);
    }
  }

  lemma LeafRoomIsEven(n: nat)
    ensures LeafRoom(n) == 2 * ((n + 1) / 2)
  {
  }

  lemma SumIsEven(a: nat, b: nat)
    ensures 2 * a % 2 == 0 && (2 * a + 2 * b) % 2 == 0
  {
  }

  /** Cells from endI on are final, the level before that still lacks its zero, and nothing above it is computed. */
  ghost predicate BuiltFrom(hashes: seq<Cell>, leaves: seq<Digest>, branch: nat, startI: nat, endI: nat)
    requires 0 < startI <= endI <= |hashes|
  {
    && hashes[0] == Count(branch)
    && (forall i :: endI <= i < |hashes| ==> hashes[i] == CellAt(leaves, branch, i))
    && (forall i :: startI <= i < endI ==> hashes[i] == PlainCell(leaves, branch, i))
    && (forall i :: 0 < i < startI ==> hashes[i] == Undefined)
  }

  /** A pass over the level at 2 * first has come from `was` to `hashes`, handling the pairs below `next`. */
  ghost predicate Passed(hashes: seq<Cell>, was: seq<Cell>, first: nat, next: nat)
    requires 0 < first <= next <= 2 * first && 2 * next <= |was| == |hashes|
  {
    && hashes[0] == was[0]
    && (forall i :: 2 * first <= i < 2 * next ==> hashes[i] == ZeroFilled(was, i))
    && (forall i {:trigger hashes[i]} :: 2 * next <= i < |was| ==> hashes[i] == was[i])
    && (forall i :: 0 < i < first || next <= i < 2 * first ==> hashes[i] == Undefined)
    && (forall i :: first <= i < next ==> hashes[i] == ParentCell(was[2 * i], was[2 * i + 1]))
  }

  lemma NothingPassed(was: seq<Cell>, first: nat)
    requires 0 < first && 2 * first <= |was| && forall i :: 0 < i < 2 * first ==> was[i] == Undefined
    ensures Passed(was, was, first, first)
  {
  }

  lemma StillToDo(hashes: seq<Cell>, was: seq<Cell>, first: nat, next: nat)
    requires 0 < first <= next < 2 * first && 2 * next + 1 < |was| == |hashes| && Passed(hashes, was, first, next)
    ensures hashes[2 * next] == was[2 * next] && hashes[2 * next + 1] == was[2 * next + 1]
    ensures hashes[next] == Undefined
  {
  }

  lemma PairPassed(hashes: seq<Cell>, before: seq<Cell>, was: seq<Cell>, first: nat, next: nat)
    requires 0 < first <= next < 2 * first && 2 * next + 2 <= |was| == |before| == |hashes|
    requires Passed(before, was, first, next)
    requires hashes[2 * next + 1] == ZeroFilled(before, 2 * next + 1)
    requires hashes[next] == ParentCell(before[2 * next], before[2 * next + 1])
    requires forall i :: 0 <= i < |hashes| && i != next && i != 2 * next + 1 ==> hashes[i] == before[i]
    ensures Passed(hashes, was, first, next + 1)
  {
    assert before[2 * next] == was[2 * next] && before[2 * next + 1] == was[2 * next + 1];
    assert ZeroFilled(before, 2 * next + 1) == ZeroFilled(was, 2 * next + 1);
    assert ZeroFilled(was, 2 * next) == was[2 * next];
    hide ZeroFilled, ParentCell;
    forall i | 2 * first <= i < 2 * next + 2
      ensures hashes[i] == ZeroFilled(was, i)
    {
      assert i < 2 * next || i == 2 * next || i == 2 * next + 1;
    }
  }

  /** Nothing is left to do once the nodes of a level have run out. */
  lemma NothingMissed(hashes: seq<Cell>, was: seq<Cell>, first: nat, next: nat, end: nat)
    requires 0 < first <= next <= end <= 2 * first && 2 * end <= |was| == |hashes|
    requires Passed(hashes, was, first, next)
    requires forall i :: 2 * next <= i < 2 * end ==> was[i] == Undefined
    ensures Passed(hashes, was, first, end)
  {
    forall i | 2 * first <= i < 2 * end
      ensures hashes[i] == ZeroFilled(was, i)
    {
      if i >= 2 * next {
        assert was[i] == Undefined && (i % 2 == 1 ==> was[i - 1] == Undefined);
      }
    }
    forall i | first <= i < end
      ensures hashes[i] == ParentCell(was[2 * i], was[2 * i + 1])
    {
      if i >= next {
        assert was[2 * i] == Undefined;
      }
    }
  }

  /** One pass over a level: the loop stops at the first missing node. */
  method BuildLevel(hashes: array<Cell>, startI: nat, endI: nat, ghost firstMissing: nat)
    requires 1 < startI <= endI <= hashes.Length && startI % 2 == 0 && endI % 2 == 0 && endI <= 2 * startI
    requires forall i :: startI <= i < endI ==> if i < firstMissing then hashes[i].Hash? else hashes[i].Undefined?
    requires forall i :: 0 < i < startI ==> hashes[i] == Undefined
    modifies hashes
    ensures Passed(hashes[..], old(hashes[..]), startI / 2, endI / 2)
  {
    hide ZeroFilled, ParentCell, Passed;
    ghost var was := hashes[..];
    NothingPassed(was, startI / 2);
    var sourceI := startI;
    var targetI := startI / 2;
    while sourceI < endI
      invariant startI <= sourceI <= endI && sourceI == 2 * targetI
      invariant Passed(hashes[..], was, startI / 2, targetI)
    {
      ghost var before := hashes[..];
      StillToDo(before, was, startI / 2, targetI);
      var levelGoesOn := BuildPair(hashes, sourceI, targetI);
      PairPassed(hashes[..], before, was, startI / 2, targetI);
      if !levelGoesOn {
        NothingMissed(hashes[..], was, startI / 2, targetI + 1, endI / 2);
        break;
      }
      sourceI := sourceI + 2;
      targetI := targetI + 1;
    }
  }

  /** Two siblings and their parent: a missing pair ends the level, an odd node gets a zero and is promoted. */
  method BuildPair(hashes: array<Cell>, sourceI: nat, targetI: nat) returns (levelGoesOn: bool)
    requires 0 < targetI < sourceI && sourceI == 2 * targetI && sourceI + 1 < hashes.Length
    requires !hashes[sourceI].Count? && !hashes[sourceI + 1].Count? && hashes[targetI].Undefined?
    requires hashes[sourceI].Undefined? ==> hashes[sourceI + 1].Undefined?
    modifies hashes
    ensures hashes[sourceI + 1] == ZeroFilled(old(hashes[..]), sourceI + 1)
    ensures hashes[targetI] == ParentCell(old(hashes[sourceI]), old(hashes[sourceI + 1]))
    ensures forall i :: 0 <= i < hashes.Length && i != targetI && i != sourceI + 1 ==> hashes[i] == old(hashes[i])
    ensures levelGoesOn <==> old(hashes[sourceI + 1]).Hash?
  {
    var hash1 := hashes[sourceI];
    var hash2 := hashes[sourceI + 1];
    if hash1.Undefined? {
      return false;
    } else if hash2.Undefined? {
      hashes[sourceI + 1] := Hash(Zero);
      hashes[targetI] := hash1;
      return false;
    } else {
      hashes[targetI] := Hash(HashCombined(hash1.digest, hash2.digest));
      return true;
    }
  }

  /** The parents computed from the nodes of a level are the nodes of the level above. */
  lemma ParentLevel(was: seq<Cell>, hashes: seq<Cell>, leaves: seq<Digest>, branch: nat, startI: nat, endI: nat)
    requires 1 < startI <= branch && startI % 2 == 0 && startI <= endI <= |was| == |hashes| && endI % 2 == 0
    requires endI == 2 * startI || (startI == branch && endI == branch + LeafRoom(|leaves|) <= 2 * branch)
    requires BuiltFrom(was, leaves, branch, startI, endI)
    requires forall i :: startI <= i < endI ==> ZeroFilled(was, i) == CellAt(leaves, branch, i)
    requires Passed(hashes, was, startI / 2, endI / 2)
    ensures BuiltFrom(hashes, leaves, branch, startI / 2, startI)
  {
    forall i | startI / 2 <= i < startI
      ensures hashes[i] == PlainCell(leaves, branch, i)
    {
      var left, right := Node(leaves, branch, 2 * i), Node(leaves, branch, 2 * i + 1);
      assert Node(leaves, branch, i) == Parent(left, right);
    }
  }

  /** A level that holds its nodes is filled from the left, and is what CellAt says once its zero is placed. */
  lemma PlainLevel(hashes: seq<Cell>, leaves: seq<Digest>, k: nat, m: nat, endI: nat)
    requires m <= k && Pow2(m) <= endI <= 2 * Pow2(m) && endI <= |hashes| && endI % 2 == 0 && 0 < m
    requires forall i :: Pow2(m) <= i < endI ==> hashes[i] == PlainCell(leaves, Pow2(k), i)
    ensures forall i :: Pow2(m) <= i < endI ==>
      if i - Pow2(m) < LevelCount(|leaves|, Pow2(k), Pow2(m)) then hashes[i].Hash? else hashes[i].Undefined?
    ensures forall i :: Pow2(m) <= i < endI ==> ZeroFilled(hashes, i) == CellAt(leaves, Pow2(k), i)
  {
    hide Node, CellAt, PlainCell, LevelCount, Pow2;
    LevelsAreEven(m, 0);
    forall i | Pow2(m) <= i < endI
      ensures if i - Pow2(m) < LevelCount(|leaves|, Pow2(k), Pow2(m)) then hashes[i].Hash? else hashes[i].Undefined?
      ensures ZeroFilled(hashes, i) == CellAt(leaves, Pow2(k), i)
    {
      PlainAt(leaves, k, m, i);
      CellFromPlain(leaves, Pow2(k), i);
    }
  }

  lemma PlainAt(leaves: seq<Digest>, k: nat, m: nat, i: nat)
    requires m <= k && Pow2(m) <= i < 2 * Pow2(m)
    ensures if i - Pow2(m) < LevelCount(|leaves|, Pow2(k), Pow2(m)) then PlainCell(leaves, Pow2(k), i).Hash?
            else PlainCell(leaves, Pow2(k), i).Undefined?
  {
    EveryPowerStartsALevel(k, m);
    hide Node, LevelCount, LevelStart;
    LevelFillsFromTheLeft(leaves, Pow2(k), Pow2(m), i - Pow2(m));
  }

  /** A final cell, in terms of the cells whose zero has not been placed yet. */
  lemma CellFromPlain(leaves: seq<Digest>, branch: nat, i: nat)
    requires i > 1
    ensures PlainCell(leaves, branch, i).Undefined? || PlainCell(leaves, branch, i).Hash?
    ensures CellAt(leaves, branch, i) ==
            if PlainCell(leaves, branch, i).Undefined? && i % 2 == 1 && !PlainCell(leaves, branch, i - 1).Undefined?
            then Hash(Zero) else PlainCell(leaves, branch, i)
  {
    hide Node;
  }

  /** A tree that is built when something is asked of it. */
  class MerkleTree {
    var isDirty: bool
    var contents: seq<Member>
    var salt: nat
    var hashes: array<Cell>
    var indexOf: map<Address, nat>

    /** A tree that is not dirty has the array of its present contents and salt. */
    ghost predicate Valid()
      reads this, hashes
    {
      !isDirty ==>
        && contents != []
        && hashes[..] == Cells(Leaves(contents, salt))
        && indexOf == IndexOf(contents, BranchCount(|contents|))
    }

    constructor (initialContents: seq<Member>, initialSalt: nat)
      ensures Valid() && fresh(hashes)
      ensures contents == initialContents && salt == initialSalt
    {
      isDirty, contents, salt := true, initialContents, initialSalt;
      hashes, indexOf := new Cell[0](_ => Undefined), map[];
    }

    method Update(newContents: seq<Member>, newSalt: nat)
      modifies this
      ensures Valid()
      ensures contents == newContents && salt == newSalt && isDirty && hashes == old(hashes)
    {
      isDirty := true;
      contents := newContents;
      salt := newSalt;
    }

    method GetContents() returns (error: Option<TreeError>)
      requires Valid() && |contents| <= MAX_ROUNDED
      modifies this
      ensures Valid() && contents == old(contents) && salt == old(salt)
      ensures hashes == old(hashes) || fresh(hashes)
      ensures error == if contents == [] then Some(EmptyContents) else None
      ensures error.None? ==> !isDirty
    {
      if |contents| == 0 {
        return Some(EmptyContents);
      }
      if isDirty {
        hashes, indexOf := BuildMerkleTree(contents, salt);
        isDirty := false;
      }
      return None;
    }

    /** Serves the path of the last entry with the given address. */
    method GetPath(address: Address) returns (r: Result<seq<Digest>, TreeError>)
      requires Valid() && |contents| <= MAX_ROUNDED
      modifies this
      ensures Valid() && contents == old(contents) && salt == old(salt)
      ensures hashes == old(hashes) || fresh(hashes)
      ensures contents == [] ==> r == Failure(EmptyContents)
      ensures contents != [] ==>
                r == match ServedPath(contents, salt, address)
                     case Some(path) => Success(path)
                     case None => Failure(AddressNotFound)
    {
      var error := GetContents();
      if error.Some? {
        r := Failure(error.value);
      } else {
        r := FindPath(hashes, indexOf, contents, salt, address);
      }
    }

    method GetRootHash() returns (r: Result<Digest, TreeError>)
      requires Valid() && |contents| <= MAX_ROUNDED
      modifies this
      ensures Valid() && contents == old(contents) && salt == old(salt)
      ensures hashes == old(hashes) || fresh(hashes)
      ensures r == if contents == [] then Failure(EmptyContents) else Success(Root(contents, salt))
    {
      var error := GetContents();
      if error.Some? {
        return Failure(error.value);
      }
      RootExists(Leaves(contents, salt));
      return Success(hashes[1].digest);
    }
  }

  method FindPath(hashes: array<Cell>, indexOf: map<Address, nat>, ghost contents: seq<Member>, ghost salt: nat,
                  address: Address)
    returns (r: Result<seq<Digest>, TreeError>)
    requires hashes[..] == Cells(Leaves(contents, salt))
    requires indexOf == IndexOf(contents, BranchCount(|contents|))
    ensures r == match ServedPath(contents, salt, address)
                 case Some(path) => Success(path)
                 case None => Failure(AddressNotFound)
  {
    if address !in indexOf {
      return Failure(AddressNotFound);
    }
    var index := indexOf[address];
    IndexOfFindsLast(contents, BranchCount(|contents|), address);
    var path := PathUp(hashes, contents, salt, index);
    return Success(path);
  }

  /** The siblings of a leaf and of its ancestors, zeros left out. */
  method PathUp(hashes: array<Cell>, ghost contents: seq<Member>, ghost salt: nat, index: nat)
    returns (path: seq<Digest>)
    requires hashes[..] == Cells(Leaves(contents, salt))
    requires BranchCount(|contents|) <= index < BranchCount(|contents|) + |contents|
    ensures path == MemberPath(contents, salt, index - BranchCount(|contents|))
  {
    hide Node, CellAt, Cells, Pow2, CeilLog2, BranchCount, PathFrom, MemberPath, OnTheWayUp, AllLeafHashes;
    ghost var leaves, k := Leaves(contents, salt), CeilLog2(LeafRoom(|contents|));
    ClimbStart(contents, salt, index);
    path := [];
    var i := index;
    ghost var m := k;
    while i > 1
      invariant OnTheWayUp(leaves, k, m, i) && i > 0
      invariant path + PathFrom(leaves, Pow2(k), i) == PathFrom(leaves, Pow2(k), index)
      decreases i
    {
      ClimbStep(leaves, k, m, i);
      CellsHold(leaves, Sibling(i));
      PathStep(path, leaves, Pow2(k), i, PathFrom(leaves, Pow2(k), index));
      var otherSibling := hashes[if i % 2 == 0 then i + 1 else i - 1].digest;
      if otherSibling != Zero {
        path := path + [otherSibling];
      }
      i := i / 2;
      m := m - 1;
    }
    ClimbEnd(leaves, Pow2(k));
    assert path + [] == path;
  }

  lemma ClimbStart(contents: seq<Member>, salt: nat, index: nat)
    requires BranchCount(|contents|) <= index < BranchCount(|contents|) + |contents|
    ensures var leaves, k := Leaves(contents, salt), CeilLog2(LeafRoom(|contents|));
            && AllLeafHashes(leaves) && OnTheWayUp(leaves, k, k, index) && index > 0
            && BranchCount(|contents|) == Pow2(k)
            && MemberPath(contents, salt, index - BranchCount(|contents|)) == PathFrom(leaves, Pow2(k), index)
  {
  }

  lemma ClimbEnd(leaves: seq<Digest>, branch: nat)
    ensures PathFrom(leaves, branch, 1) == []
  {
  }

  ghost predicate OnTheWayUp(leaves: seq<Digest>, k: nat, m: int, i: nat) {
    0 <= m <= k && Pow2(m) <= i < 2 * Pow2(m) && Node(leaves, Pow2(k), i).Some?
  }

  /** The sibling cell that is read on the way up is inside the array and holds a hash. */
  lemma ClimbStep(leaves: seq<Digest>, k: nat, m: nat, i: nat)
    requires i > 1 && k == CeilLog2(LeafRoom(|leaves|)) && AllLeafHashes(leaves)
    requires OnTheWayUp(leaves, k, m, i)
    ensures m > 0 && OnTheWayUp(leaves, k, m - 1, i / 2)
    ensures BranchCount(|leaves|) == Pow2(k)
    ensures 0 < Sibling(i) < Pow2(k) + LeafRoom(|leaves|) && CellAt(leaves, Pow2(k), Sibling(i)).Hash?
  {
    hide Node, CellAt;
    LevelAbove(m, i);
    StepUp(leaves, k, m, i);
    SiblingInArray(leaves, k, m, i);
  }

  lemma LevelAbove(m: nat, i: nat)
    requires Pow2(m) <= i < 2 * Pow2(m) && i > 1
    ensures m > 0
  {
  }

  lemma SiblingInArray(leaves: seq<Digest>, k: nat, m: nat, i: nat)
    requires 0 < m <= k && Pow2(m) <= i < 2 * Pow2(m) && Node(leaves, Pow2(k), i).Some?
    ensures 0 < Sibling(i) < Pow2(k) + LeafRoom(|leaves|)
  {
    OnlyLeavesBelow(leaves, Pow2(k), i);
    hide Node;
    Pow2Monotone(m, k);
    LevelsAreEven(m, |leaves|);
    LevelsAreEven(k, |leaves|);
    SiblingFits(i, Pow2(m) / 2, Pow2(k) / 2, |leaves|);
  }

  lemma OnlyLeavesBelow(leaves: seq<Digest>, branch: nat, i: nat)
    requires i > 0 && Node(leaves, branch, i).Some?
    ensures i < branch + |leaves|
  {
  }

  lemma SiblingFits(i: nat, halfLevel: nat, halfBranch: nat, n: nat)
    requires 0 < 2 * halfLevel <= i < 4 * halfLevel
    requires 2 * halfLevel == 2 * halfBranch || 4 * halfLevel <= 2 * halfBranch
    requires i < 2 * halfBranch + n
    ensures 0 < Sibling(i) < 2 * halfBranch + LeafRoom(n)
  {
    LeafRoomIsEven(n);
    assert Sibling(i) / 2 == i / 2;
  }

  /** One hash more of the path has been collected. */
  lemma PathStep(path: seq<Digest>, leaves: seq<Digest>, branch: nat, i: nat, whole: seq<Digest>)
    requires i > 1 && CellAt(leaves, branch, Sibling(i)).Hash?
    requires path + PathFrom(leaves, branch, i) == whole
    ensures var digest := CellAt(leaves, branch, Sibling(i)).digest;
            (if digest == Zero then path else path + [digest]) + PathFrom(leaves, branch, i / 2) == whole
  {
    var digest := CellAt(leaves, branch, Sibling(i)).digest;
    assert PathFrom(leaves, branch, i) == (if digest == Zero then [] else [digest]) + PathFrom(leaves, branch, i / 2);
  }

  lemma CellsHold(leaves: seq<Digest>, i: nat)
    requires 0 < i < BranchCount(|leaves|) + LeafRoom(|leaves|)
    ensures Cells(leaves)[i] == CellAt(leaves, BranchCount(|leaves|), i)
  {
  }
}
