/**
 What a Merkle tree of members is, as a heap-shaped tree of digests: node i has children
 2i and 2i+1, the leaves start at a power of two, an odd node is promoted unhashed, and a
 zero stands next to it. Then the root, the path of a leaf, and what a path proves.
 */
module MerkleSpec {
  import opened Wrappers
  import opened Members
  import opened Hashing

  // ----- tree sizes

  function Pow2(k: nat): (p: nat)
    ensures p > 0
  {
    if k == 0 then 1 else 2 * Pow2(k - 1)
  }

  lemma {:induction false} Pow2Monotone(j: nat, k: nat)
    ensures j < k ==> 2 * Pow2(j) <= Pow2(k)
  {
    if j + 1 < k {
      Pow2Monotone(j, k - 1);
    }
  }

  /** The exponent of the least power of two at or above x. */
  function CeilLog2(x: nat): (k: nat)
    ensures x <= Pow2(k)
    ensures k > 0 ==> Pow2(k - 1) < x
  {
    if x <= 1 then 0 else CeilLog2((x + 1) / 2) + 1
  }

  lemma CeilLog2AtMost(x: nat, k: nat)
    requires x <= Pow2(k)
    ensures CeilLog2(x) <= k
  {
    var c := CeilLog2(x);
    if c > 0 {
      Pow2Monotone(k, c - 1);
    }
  }

  lemma CeilLog2Is(x: nat, k: nat)
    requires x <= Pow2(k)
    requires k > 0 ==> Pow2(k - 1) < x
    ensures CeilLog2(x) == k
  {
    CeilLog2AtMost(x, k);
    if k > 0 {
      Pow2Monotone(CeilLog2(x), k - 1);
    }
  }

  /** The leaf count, with room for the zero next to an odd last leaf. */
  function LeafRoom(n: nat): nat { n + n % 2 }

  /** Where the leaves start. */
  function BranchCount(n: nat): nat { Pow2(CeilLog2(LeafRoom(n))) }

  // ----- nodes

  function Leaves(contents: seq<Member>, salt: nat): (s: seq<Digest>)
    ensures |s| == |contents|
  {
    seq(|contents|, j requires 0 <= j < |contents| => HashLeaf(contents[j], salt))
  }

  ghost predicate AllLeafHashes(leaves: seq<Digest>) {
    forall j :: 0 <= j < |leaves| ==> leaves[j].LeafHash?
  }

  /** The node above two nodes: an odd node is promoted as it is. */
  function Parent(left: Option<Digest>, right: Option<Digest>): Option<Digest> {
    if left.Some? && right.Some? then Some(HashCombined(left.value, right.value)) else left
  }

  /** The hash at node i, or None where the tree has no node. */
  function Node(leaves: seq<Digest>, branch: nat, i: nat): Option<Digest>
    requires i > 0
    decreases 2 * branch - i
  {
    if i >= branch then
      if i - branch < |leaves| then Some(leaves[i - branch]) else None
    else
      Parent(Node(leaves, branch, 2 * i), Node(leaves, branch, 2 * i + 1))
  }

  /** An array cell of the tree: cell 0 holds the branch count. */
  datatype Cell = Undefined | Count(n: nat) | Hash(digest: Digest)

  /** What cell i holds once its level has been processed: its node, or a zero after an odd node. */
  function CellAt(leaves: seq<Digest>, branch: nat, i: nat): Cell
    requires i > 0
  {
    match Node(leaves, branch, i)
    case Some(h) => Hash(h)
    case None =>
      if i > 1 && i % 2 == 1 && Node(leaves, branch, i - 1).Some? then Hash(Zero) else Undefined
  }

  function Cells(leaves: seq<Digest>): (cells: seq<Cell>)
    ensures |cells| == BranchCount(|leaves|) + LeafRoom(|leaves|)
  {
    var branch := BranchCount(|leaves|);
    seq(branch + LeafRoom(|leaves|), i requires i >= 0 => if i == 0 then Count(branch) else CellAt(leaves, branch, i))
  }

  // ----- levels

  /** Some level of the tree begins at start. */
  ghost predicate LevelStart(branch: nat, start: nat)
    decreases branch - start
  {
    start > 0 && (start == branch || (start < branch && LevelStart(branch, 2 * start)))
  }

  lemma {:induction false} EveryPowerStartsALevel(k: nat, m: nat)
    requires m <= k
    ensures LevelStart(Pow2(k), Pow2(m))
    decreases k - m
  {
    if m < k {
      Pow2Monotone(m, k);
      EveryPowerStartsALevel(k, m + 1);
    }
  }

  /** How many nodes the level that begins at start has: half as many as the one below, rounded up. */
  function LevelCount(n: nat, branch: nat, start: nat): nat
    requires start > 0
    decreases branch - start
  {
    if start >= branch then n else (LevelCount(n, branch, 2 * start) + 1) / 2
  }

  /** Exactly the first LevelCount cells of a level hold a node. */
  lemma {:induction false} LevelFillsFromTheLeft(leaves: seq<Digest>, branch: nat, start: nat, j: nat)
    requires LevelStart(branch, start) && j < start
    ensures Node(leaves, branch, start + j).Some? <==> j < LevelCount(|leaves|, branch, start)
    decreases branch - start
  {
    if start < branch {
      LevelFillsFromTheLeft(leaves, branch, 2 * start, 2 * j);
      LevelFillsFromTheLeft(leaves, branch, 2 * start, 2 * j + 1);
    }
  }

  /** The count of a level is n divided by the number of leaf cells below each of its nodes, rounded up. */
  lemma {:induction false} LevelCountIsCeiling(n: nat, k: nat, m: nat)
    requires m <= k
    ensures LevelCount(n, Pow2(k), Pow2(m)) == (n + Pow2(k - m) - 1) / Pow2(k - m)
    decreases k - m
  {
    if m < k {
      Pow2Monotone(m, k);
      LevelCountIsCeiling(n, k, m + 1);
      HalveCeiling(n, Pow2(k - m - 1));
    }
  }

  lemma HalveCeiling(n: nat, p: nat)
    requires p > 0
    ensures ((n + p - 1) / p + 1) / 2 == (n + 2 * p - 1) / (2 * p)
  {
    var c := (n + p - 1) / p;
    var d := (c + 1) / 2;
    QuotientBounds(n + p - 1, p);
    Doubled(c, d, p);
    DivisionIs(n + 2 * p - 1, 2 * p, d);
  }

  lemma Doubled(c: nat, d: nat, p: nat)
    ensures d * (2 * p) == 2 * (d * p)
    ensures c == 2 * d ==> c * p == 2 * (d * p)
    ensures c == 2 * d - 1 ==> c * p == 2 * (d * p) - p
  {
  }

  lemma QuotientBounds(x: nat, p: nat)
    requires p > 0
    ensures (x / p) * p <= x < (x / p) * p + p
  {
  }

  lemma DivisionIs(x: nat, p: nat, q: nat)
    requires q * p <= x < q * p + p
    ensures x / p == q
  {
    var r := x / p;
    assert r * p <= x < r * p + p;
    TimesMonotone(r + 1, q, p);
    TimesMonotone(q + 1, r, p);
  }

  lemma TimesMonotone(a: nat, b: nat, p: nat)
    ensures a <= b ==> a * p <= b * p
  {
    if a <= b {
      assert b * p == a * p + (b - a) * p;
    }
  }

  lemma RootExists(leaves: seq<Digest>)
    requires leaves != []
    ensures Node(leaves, BranchCount(|leaves|), 1).Some?
  {
    var k := CeilLog2(LeafRoom(|leaves|));
    EveryPowerStartsALevel(k, 0);
    LevelFillsFromTheLeft(leaves, Pow2(k), 1, 0);
    LevelCountIsCeiling(|leaves|, k, 0);
    DivisionIs(|leaves| + Pow2(k) - 1, Pow2(k), 1);
  }

  /** The root hash of a member list. */
  function Root(contents: seq<Member>, salt: nat): Digest
    requires contents != []
  {
    RootExists(Leaves(contents, salt));
    Node(Leaves(contents, salt), BranchCount(|contents|), 1).value
  }

  // ----- paths

  function Sibling(i: nat): nat
    requires i > 0
  {
    if i % 2 == 0 then i + 1 else i - 1
  }

  /** The sibling hashes from node i up to the root, zeros left out. */
  function PathFrom(leaves: seq<Digest>, branch: nat, i: nat): seq<Digest>
    requires i > 0
  {
    if i == 1 then []
    else
      var rest := PathFrom(leaves, branch, i / 2);
      match CellAt(leaves, branch, Sibling(i))
      case Hash(h) => if h == Zero then rest else [h] + rest
      case _ => rest
  }

  /** What the contract computes from a leaf and a list of other hashes. */
  function Fold(leaf: Digest, others: seq<Digest>): Digest
    decreases |others|
  {
    if others == [] then leaf else Fold(HashCombined(leaf, others[0]), others[1..])
  }

  /** Of two siblings the right one is never there alone. */
  lemma NoLoneRightSibling(leaves: seq<Digest>, k: nat, m: nat, p: nat)
    requires m < k && Pow2(m) <= p < 2 * Pow2(m)
    ensures p < Pow2(k)
    ensures Node(leaves, Pow2(k), 2 * p).None? ==> Node(leaves, Pow2(k), 2 * p + 1).None?
  {
    var start := Pow2(m + 1);
    Pow2Monotone(m, k);
    EveryPowerStartsALevel(k, m + 1);
    LevelFillsFromTheLeft(leaves, Pow2(k), start, 2 * p - start);
    LevelFillsFromTheLeft(leaves, Pow2(k), start, 2 * p + 1 - start);
  }

  /** The sibling of a node holds its node or the zero, and their parent is the two combined, or the node itself
      next to a zero. */
  lemma ParentOfNode(leaves: seq<Digest>, branch: nat, p: nat, i: nat)
    requires 0 < p < branch && (i == 2 * p || i == 2 * p + 1) && AllLeafHashes(leaves)
    requires Node(leaves, branch, i).Some?
    requires Node(leaves, branch, 2 * p).None? ==> Node(leaves, branch, 2 * p + 1).None?
    ensures Node(leaves, branch, p).Some?
    ensures var cell := CellAt(leaves, branch, Sibling(i));
            && cell.Hash?
            && Node(leaves, branch, p).value ==
               if cell.digest == Zero then Node(leaves, branch, i).value
               else HashCombined(Node(leaves, branch, i).value, cell.digest)
  {
    var left, right := Node(leaves, branch, 2 * p), Node(leaves, branch, 2 * p + 1);
    assert Node(leaves, branch, p) == Parent(left, right);
    NodesAreHashes(leaves, branch, Sibling(i));
    if right.Some? {
      CombinedIgnoresOrder(left.value, right.value);
    }
  }

  /** One step up from a node at index i of level m > 0. */
  lemma StepUp(leaves: seq<Digest>, k: nat, m: nat, i: nat)
    requires 0 < m <= k && AllLeafHashes(leaves)
    requires Pow2(m) <= i < 2 * Pow2(m)
    requires Node(leaves, Pow2(k), i).Some?
    ensures Pow2(m - 1) <= i / 2 < 2 * Pow2(m - 1) && i / 2 < Pow2(k)
    ensures Node(leaves, Pow2(k), i / 2).Some?
    ensures var cell := CellAt(leaves, Pow2(k), Sibling(i));
            && cell.Hash?
            && Node(leaves, Pow2(k), i / 2).value ==
               if cell.digest == Zero then Node(leaves, Pow2(k), i).value
               else HashCombined(Node(leaves, Pow2(k), i).value, cell.digest)
  {
    var p := i / 2;
    assert Pow2(m) == 2 * Pow2(m - 1);
    NoLoneRightSibling(leaves, k, m - 1, p);
    ParentOfNode(leaves, Pow2(k), p, i);
  }

  /** Folding the path of a node gives the root. */
  lemma {:induction false} PathLeadsToRoot(leaves: seq<Digest>, k: nat, m: nat, i: nat)
    requires m <= k && Pow2(m) <= i < 2 * Pow2(m) && AllLeafHashes(leaves)
    requires Node(leaves, Pow2(k), i).Some?
    ensures Node(leaves, Pow2(k), 1).Some?
    ensures var path := PathFrom(leaves, Pow2(k), i);
            && |path| <= m
            && Fold(Node(leaves, Pow2(k), i).value, path) == Node(leaves, Pow2(k), 1).value
    decreases m
  {
    if m > 0 {
      StepUp(leaves, k, m, i);
      PathLeadsToRoot(leaves, k, m - 1, i / 2);
    }
  }

  lemma {:induction false} NodesAreHashes(leaves: seq<Digest>, branch: nat, i: nat)
    requires i > 0 && AllLeafHashes(leaves)
    ensures match Node(leaves, branch, i) case Some(h) => h.LeafHash? || h.NodeHash? case None => true
    decreases 2 * branch - i
  {
    if i < branch {
      NodesAreHashes(leaves, branch, 2 * i);
      NodesAreHashes(leaves, branch, 2 * i + 1);
    }
  }

  // ----- what a proof proves

  /** x was hashed on the way to t. */
  ghost predicate Covers(t: Digest, x: Digest) {
    t == x || (t.NodeHash? && (Covers(t.left, x) || Covers(t.right, x)))
  }

  lemma {:induction false} CoversIsTransitive(t: Digest, u: Digest, x: Digest)
    requires Covers(t, u) && Covers(u, x)
    ensures Covers(t, x)
  {
    if t != u {
      if Covers(t.left, u) {
        CoversIsTransitive(t.left, u, x);
      } else {
        CoversIsTransitive(t.right, u, x);
      }
    }
  }

  lemma {:induction false} FoldCoversLeaf(leaf: Digest, others: seq<Digest>)
    ensures Covers(Fold(leaf, others), leaf)
    decreases |others|
  {
    if others != [] {
      var up := HashCombined(leaf, others[0]);
      FoldCoversLeaf(up, others[1..]);
      assert Covers(leaf, leaf);
      CoversIsTransitive(Fold(leaf, others), up, leaf);
    }
  }

  lemma {:induction false} NodesCoverOnlyLeaves(leaves: seq<Digest>, branch: nat, i: nat, x: Digest)
    requires i > 0 && x.LeafHash? && AllLeafHashes(leaves)
    requires Node(leaves, branch, i).Some? && Covers(Node(leaves, branch, i).value, x)
    ensures x in leaves
    decreases 2 * branch - i
  {
    if i < branch {
      var l, r := Node(leaves, branch, 2 * i), Node(leaves, branch, 2 * i + 1);
      if Covers(l.value, x) {
        NodesCoverOnlyLeaves(leaves, branch, 2 * i, x);
      } else {
        NodesCoverOnlyLeaves(leaves, branch, 2 * i + 1, x);
      }
    }
  }

  /** The path that is served for the member at index j. */
  function MemberPath(contents: seq<Member>, salt: nat, j: nat): seq<Digest>
    requires j < |contents|
  {
    PathFrom(Leaves(contents, salt), BranchCount(|contents|), BranchCount(|contents|) + j)
  }

  /** Completeness: the path of any entry folds to the root, and has at most as many hashes as the tree has levels. */
  lemma Completeness(contents: seq<Member>, salt: nat, j: nat)
    requires j < |contents|
    ensures Fold(HashLeaf(contents[j], salt), MemberPath(contents, salt, j)) == Root(contents, salt)
    ensures |MemberPath(contents, salt, j)| <= CeilLog2(LeafRoom(|contents|))
  {
    hide Node, PathFrom, CeilLog2, Pow2, Fold, AllLeafHashes;
    var leaves, k := Leaves(contents, salt), CeilLog2(LeafRoom(|contents|));
    LeavesAreLeafHashes(contents, salt);
    LeafNode(leaves, Pow2(k), j);
    PathLeadsToRoot(leaves, k, k, Pow2(k) + j);
  }

  lemma LeavesAreLeafHashes(contents: seq<Member>, salt: nat)
    ensures AllLeafHashes(Leaves(contents, salt))
  {
  }

  lemma LeafNode(leaves: seq<Digest>, branch: nat, j: nat)
    requires branch > 0 && j < |leaves|
    ensures Node(leaves, branch, branch + j) == Some(leaves[j])
  {
  }

  ghost predicate HasEntry(contents: seq<Member>, account: Address, balance: nat) {
    exists j :: 0 <= j < |contents| && contents[j].address == account && contents[j].earnings == balance
  }

  /** Soundness: whatever list of hashes, of whatever length, folds a leaf to the root, the leaf is an entry
      of the committed list with the committed salt. */
  lemma Soundness(contents: seq<Member>, salt: nat, account: Address, balance: nat, leafSalt: nat, others: seq<Digest>)
    requires contents != []
    requires Fold(LeafHash(account, balance, leafSalt), others) == Root(contents, salt)
    ensures leafSalt == salt && HasEntry(contents, account, balance)
  {
    var leaves, branch, x := Leaves(contents, salt), BranchCount(|contents|), LeafHash(account, balance, leafSalt);
    RootExists(leaves);
    FoldCoversLeaf(x, others);
    NodesCoverOnlyLeaves(leaves, branch, 1, x);
    var j :| 0 <= j < |leaves| && leaves[j] == x;
    assert contents[j].address == account;
  }

  /** A leaf can be proven against a root exactly when it is one of the entries the root was made of. */
  lemma ProvableExactlyIfEntry(contents: seq<Member>, salt: nat, account: Address, balance: nat, leafSalt: nat)
    requires contents != []
    ensures (exists others :: Fold(LeafHash(account, balance, leafSalt), others) == Root(contents, salt))
       <==> leafSalt == salt && HasEntry(contents, account, balance)
  {
    if leafSalt == salt && HasEntry(contents, account, balance) {
      var j :| 0 <= j < |contents| && contents[j].address == account && contents[j].earnings == balance;
      Completeness(contents, salt, j);
    }
    forall others | Fold(LeafHash(account, balance, leafSalt), others) == Root(contents, salt)
      ensures leafSalt == salt && HasEntry(contents, account, balance)
    {
      Soundness(contents, salt, account, balance, leafSalt, others);
    }
  }

  /** Two lists with the same root have the same salt and the same entries. */
  lemma RootBindsEntries(contents: seq<Member>, salt: nat, other: seq<Member>, otherSalt: nat, account: Address,
                         balance: nat)
    requires contents != [] && other != []
    requires Root(contents, salt) == Root(other, otherSalt)
    ensures salt == otherSalt
    ensures HasEntry(contents, account, balance) <==> HasEntry(other, account, balance)
  {
    Completeness(contents, salt, 0);
    Soundness(other, otherSalt, contents[0].address, contents[0].earnings, salt, MemberPath(contents, salt, 0));
    ProvableExactlyIfEntry(contents, salt, account, balance, salt);
    ProvableExactlyIfEntry(other, otherSalt, account, balance, salt);
  }

  /** The same path leads different leaves to different roots. */
  lemma {:induction false} FoldIsInjective(a: Digest, b: Digest, others: seq<Digest>)
    requires Fold(a, others) == Fold(b, others)
    ensures a == b
    decreases |others|
  {
    if others != [] {
      FoldIsInjective(HashCombined(a, others[0]), HashCombined(b, others[0]), others[1..]);
    }
  }
}
