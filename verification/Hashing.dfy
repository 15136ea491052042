/**
 An ideal keccak256. A digest is the term that was hashed, so two digests are equal only
 when their inputs are; leaf inputs (84 packed bytes) and branch inputs (64 packed bytes)
 are kept apart. `Unhashed` stands for the 32-byte values that are no hash of anything,
 which a caller may still put in a proof.
 */
module Hashing {

  import opened Members

  datatype Digest =
    | Zero
    | Unhashed(n: nat)
    | LeafHash(address: Address, balance: nat, salt: nat)
    | NodeHash(left: Digest, right: Digest)

  /** The order in which digests are sorted before they are hashed together. */
  predicate Less(a: Digest, b: Digest) {
    match a
    case Zero => b != Zero
    case Unhashed(n) => (b.Unhashed? && n < b.n) || b.LeafHash? || b.NodeHash?
    case LeafHash(u, e, s) =>
      || b.NodeHash?
      || (b.LeafHash? && (u < b.address || (u == b.address && (e < b.balance || (e == b.balance && s < b.salt)))))
    case NodeHash(l, r) => b.NodeHash? && (Less(l, b.left) || (l == b.left && Less(r, b.right)))
  }

  lemma {:induction false} LessIsStrictAndTotal(a: Digest, b: Digest)
    ensures Less(a, b) ==> !Less(b, a)
    ensures Less(a, b) || Less(b, a) || a == b
  {
    if a.NodeHash? && b.NodeHash? {
      LessIsStrictAndTotal(a.left, b.left);
      LessIsStrictAndTotal(a.right, b.right);
    }
  }

  function HashLeaf(m: Member, salt: nat): Digest {
    LeafHash(m.address, m.earnings, salt)
  }

  function HashCombined(data1: Digest, data2: Digest): Digest {
    if Less(data1, data2) then NodeHash(data1, data2) else NodeHash(data2, data1)
  }

  /** What is hashed together are the two, the lesser one first. */
  lemma CombinedIsSorted(a: Digest, b: Digest)
    ensures var h := HashCombined(a, b);
            h.NodeHash? && !Less(h.right, h.left) && multiset{h.left, h.right} == multiset{a, b}
  {
    LessIsStrictAndTotal(a, b);
  }

  lemma CombinedIgnoresOrder(a: Digest, b: Digest)
    ensures HashCombined(a, b) == HashCombined(b, a)
  {
    LessIsStrictAndTotal(a, b);
  }
}
