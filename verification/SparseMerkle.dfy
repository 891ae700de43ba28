/**
 * The 256-level sparse merkle tree: the digest of every node as a recursive function of the leaves,
 * and the fold of one leaf with its sibling digests that a verifier runs.
 *
 * A path lists the bits of a key from height 0 (the leaf level) upwards. The node at height k above
 * a leaf with path p is named by the remaining bits p[k..], so the root is named by [].
 */
module SparseMerkle {
  import opened ByteStrings
  import opened Hashing

  /** One level per key bit: 256. */
  const DEPTH: nat := 8 * |ZERO|

  type Path = p: seq<bool> | |p| == DEPTH witness seq(DEPTH, _ => false)

  // ----- keys and paths -----

  function BitOf(b: nat, j: nat): bool
    decreases j
  {
    if j == 0 then b % 2 == 1 else BitOf(b / 2, j - 1)
  }

  function PathOf(key: Digest): Path {
    seq(DEPTH, i requires 0 <= i < DEPTH => BitOf(key[i / 8], i % 8))
  }

  function Pow2(n: nat): nat { if n == 0 then 1 else 2 * Pow2(n - 1) }

  /** The number whose bits, lowest first, are `bits`. */
  function PackBits(bits: seq<bool>): (n: nat)
    ensures n < Pow2(|bits|)
  {
    if bits == [] then 0 else (if bits[0] then 1 else 0) + 2 * PackBits(bits[1..])
  }

  function PackByte(bits: seq<bool>): Byte
    requires |bits| == 8
  {
    assert Pow2(5) == 32;
    PackBits(bits)
  }

  function PackKey(p: Path): Digest {
    seq(|ZERO|, j requires 0 <= j < |ZERO| => PackByte(p[8 * j..8 * j + 8]))
  }

  lemma {:induction false} PackBitsOf(b: nat, bits: seq<bool>)
    requires b < Pow2(|bits|)
    requires forall j :: 0 <= j < |bits| ==> bits[j] == BitOf(b, j)
    ensures PackBits(bits) == b
  {
    if bits != [] {
      forall j | 0 <= j < |bits| - 1
        ensures bits[1..][j] == BitOf(b / 2, j)
      {
        assert bits[j + 1] == BitOf(b, j + 1);
      }
      PackBitsOf(b / 2, bits[1..]);
    }
  }

  /** A key can be read back from its path, so different keys have different paths. */
  lemma PathDeterminesKey(key: Digest)
    ensures PackKey(PathOf(key)) == key
  {
    var p := PathOf(key);
    forall j | 0 <= j < |ZERO|
      ensures PackByte(p[8 * j..8 * j + 8]) == key[j]
    {
      var bits := p[8 * j..8 * j + 8];
      forall i | 0 <= i < 8
        ensures bits[i] == BitOf(key[j], i)
      {
        assert bits[i] == p[8 * j + i];
        assert (8 * j + i) / 8 == j && (8 * j + i) % 8 == i;
      }
      assert Pow2(5) == 32;
      PackBitsOf(key[j], bits);
    }
  }

  lemma {:induction false} BitsOfPacked(bits: seq<bool>, j: nat)
    requires j < |bits|
    ensures BitOf(PackBits(bits), j) == bits[j]
  {
    if j > 0 {
      BitsOfPacked(bits[1..], j - 1);
    }
  }

  /** Every path is that of its packed key. */
  lemma PackedKeyHasPath(p: Path)
    ensures PathOf(PackKey(p)) == p
  {
    forall i | 0 <= i < DEPTH
      ensures PathOf(PackKey(p))[i] == p[i]
    {
      var byte := p[8 * (i / 8)..8 * (i / 8) + 8];
      BitsOfPacked(byte, i % 8);
      assert byte[i % 8] == p[i];
    }
  }

  // ----- merging -----

  /** The key of the node named `rest` at height `height + 1`: its path with the lower bits cleared. */
  function NodeKey(height: nat, rest: seq<bool>): Digest
    requires height + 1 + |rest| == DEPTH
  {
    PackKey(seq(height + 1, _ => false) + rest)
  }

  function BranchPreimage(height: nat, rest: seq<bool>, left: Digest, right: Digest): Bytes
    requires height + 1 + |rest| == DEPTH
  {
    [MERGE_NORMAL, height] + NodeKey(height, rest) + left + right
  }

  /** The digest over two children at `height`; two empty subtrees make an empty subtree. */
  function Merge(h: Hash, height: nat, rest: seq<bool>, left: Digest, right: Digest): Digest
    requires height + 1 + |rest| == DEPTH
  {
    if left == ZERO && right == ZERO then ZERO else h(BranchPreimage(height, rest, left, right))
  }

  function MergeQueries(height: nat, rest: seq<bool>, left: Digest, right: Digest): set<Bytes>
    requires height + 1 + |rest| == DEPTH
  {
    if left == ZERO && right == ZERO then {} else {BranchPreimage(height, rest, left, right)}
  }

  /** A node key names one node of its height. */
  lemma NodeKeyBinds(height: nat, rest1: seq<bool>, rest2: seq<bool>)
    requires height + 1 + |rest1| == DEPTH && |rest1| == |rest2|
    requires NodeKey(height, rest1) == NodeKey(height, rest2)
    ensures rest1 == rest2
  {
    var low := seq(height + 1, _ => false);
    PackedKeyHasPath(low + rest1);
    PackedKeyHasPath(low + rest2);
    assert (low + rest1)[height + 1..] == rest1;
    assert (low + rest2)[height + 1..] == rest2;
  }

  /** A branch input determines the node, by height and key, and both children. */
  lemma BranchPreimageBinds(
    height1: nat, rest1: seq<bool>, l1: Digest, r1: Digest, height2: nat, rest2: seq<bool>, l2: Digest, r2: Digest)
    requires height1 + 1 + |rest1| == DEPTH && height2 + 1 + |rest2| == DEPTH
    requires BranchPreimage(height1, rest1, l1, r1) == BranchPreimage(height2, rest2, l2, r2)
    ensures height1 == height2 && rest1 == rest2 && l1 == l2 && r1 == r2
  {
    var b1, b2 := BranchPreimage(height1, rest1, l1, r1), BranchPreimage(height2, rest2, l2, r2);
    assert b1[1] == height1 && b1[2..34] == NodeKey(height1, rest1) && b1[34..66] == l1 && b1[66..] == r1;
    assert b2[1] == height2 && b2[2..34] == NodeKey(height2, rest2) && b2[34..66] == l2 && b2[66..] == r2;
    NodeKeyBinds(height1, rest1, rest2);
  }

  /** Exactly when a leaf input is also a branch input. */
  lemma LeafMeetsBranch(key: Digest, encoded: Bytes, height: nat, rest: seq<bool>, left: Digest, right: Digest)
    requires height + 1 + |rest| == DEPTH
    ensures LeafPreimage(key, encoded) == BranchPreimage(height, rest, left, right) <==>
            && key[0] == height
            && key[1..] == NodeKey(height, rest)[..31]
            && encoded == [NodeKey(height, rest)[31]] + left + right
  {
    var nodeKey := NodeKey(height, rest);
    var leaf, branch := LeafPreimage(key, encoded), BranchPreimage(height, rest, left, right);
    assert nodeKey == nodeKey[..31] + [nodeKey[31]];
    assert branch == [LEAF_DOMAIN] + ([height] + nodeKey[..31]) + ([nodeKey[31]] + left + right);
    assert leaf[1..33] == key && leaf[33..] == encoded;
    assert branch[1..33] == [height] + nodeKey[..31] && branch[33..] == [nodeKey[31]] + left + right;
    assert key == [key[0]] + key[1..];
  }

  /** Equal merges of different children, at one node, break the hash on exactly those merges. */
  lemma MergeBinds(h: Hash, height: nat, rest: seq<bool>, l1: Digest, r1: Digest, l2: Digest, r2: Digest)
    requires height + 1 + |rest| == DEPTH
    requires Merge(h, height, rest, l1, r1) == Merge(h, height, rest, l2, r2)
    ensures (l1 == l2 && r1 == r2)
         || Broken(h, MergeQueries(height, rest, l1, r1) + MergeQueries(height, rest, l2, r2))
  {
    var b1, b2 := BranchPreimage(height, rest, l1, r1), BranchPreimage(height, rest, l2, r2);
    var q := MergeQueries(height, rest, l1, r1) + MergeQueries(height, rest, l2, r2);
    if l1 == ZERO && r1 == ZERO {
      assert l2 == r2 == ZERO || (b2 in q && HitsZero(h, b2));
    } else if l2 == ZERO && r2 == ZERO {
      assert b1 in q && HitsZero(h, b1);
    } else if b1 == b2 {
      BranchPreimageBinds(height, rest, l1, r1, height, rest, l2, r2);
    } else {
      assert b1 in q && b2 in q && Collides(h, b1, b2);
    }
  }

  /** `Merge` as the tree computes it, feeding the incremental hasher. */
  method MergeNodes(h: Hash, height: nat, rest: seq<bool>, left: Digest, right: Digest) returns (d: Digest)
    requires height + 1 + |rest| == DEPTH
    ensures d == Merge(h, height, rest, left, right)
    ensures left != ZERO || right != ZERO ==>
              d == h([0x01, height] + PackKey(seq(height + 1, _ => false) + rest) + left + right)
    ensures left == right == ZERO ==> d == ZERO
  {
    if left == ZERO && right == ZERO {
      return ZERO;
    }
    var hasher := new Sha256Hasher(h);
    hasher.WriteByte(MERGE_NORMAL);
    hasher.WriteByte(height);
    hasher.WriteH256(NodeKey(height, rest));
    hasher.WriteH256(left);
    hasher.WriteH256(right);
    assert hasher.inner == BranchPreimage(height, rest, left, right);
    d := hasher.Finish();
  }

  // ----- the tree as a function of its leaves -----

  /** A leaf: the slot key it is bound to and the encoded value. */
  datatype LeafValue = LeafValue(slotKey: Digest, encoded: Bytes) {
    function ToH256(h: Hash): Digest { LeafHash(h, slotKey, encoded) }
  }

  type Leaves = map<Path, LeafValue>

  function LeafDigest(h: Hash, leaves: Leaves, p: Path): Digest {
    if p in leaves then leaves[p].ToH256(h) else ZERO
  }

  /** The digest of the node at `height` named `rest`. */
  function NodeDigest(h: Hash, leaves: Leaves, height: nat, rest: seq<bool>): Digest
    requires height + |rest| == DEPTH
    decreases height, leaves
  {
    if height == 0 then LeafDigest(h, leaves, rest)
    else Merge(h, height - 1, rest,
               NodeDigest(h, leaves, height - 1, [false] + rest),
               NodeDigest(h, leaves, height - 1, [true] + rest))
  }

  /** The 32-byte commitment to a whole set of leaves. */
  function RootOf(h: Hash, leaves: Leaves): Digest {
    NodeDigest(h, leaves, DEPTH, [])
  }

  /** The other child of the node above height `i` on path `p`. */
  function Sibling(h: Hash, leaves: Leaves, p: Path, i: nat): Digest
    requires i < DEPTH
  {
    NodeDigest(h, leaves, i, [!p[i]] + p[i + 1..])
  }

  function Siblings(h: Hash, leaves: Leaves, p: Path): (s: seq<Digest>)
    ensures |s| == DEPTH
  {
    seq(DEPTH, i requires 0 <= i < DEPTH => Sibling(h, leaves, p, i))
  }

  // ----- the verifier's fold -----

  function MergeOnPath(h: Hash, p: Path, i: nat, current: Digest, sibling: Digest): Digest
    requires i < DEPTH
  {
    if p[i] then Merge(h, i, p[i + 1..], sibling, current) else Merge(h, i, p[i + 1..], current, sibling)
  }

  function MergeOnPathQueries(p: Path, i: nat, current: Digest, sibling: Digest): set<Bytes>
    requires i < DEPTH
  {
    if p[i] then MergeQueries(i, p[i + 1..], sibling, current) else MergeQueries(i, p[i + 1..], current, sibling)
  }

  /** Folds `current`, the node at height `i` on path `p`, with its siblings up to the root. */
  function Fold(h: Hash, p: Path, i: nat, current: Digest, siblings: seq<Digest>): Digest
    requires i <= DEPTH && |siblings| == DEPTH
    decreases DEPTH - i, p
  {
    if i == DEPTH then current
    else Fold(h, p, i + 1, MergeOnPath(h, p, i, current, siblings[i]), siblings)
  }

  /** Every input the fold hashes. */
  function FoldQueries(h: Hash, p: Path, i: nat, current: Digest, siblings: seq<Digest>): set<Bytes>
    requires i <= DEPTH && |siblings| == DEPTH
    decreases DEPTH - i, p
  {
    if i == DEPTH then {}
    else MergeOnPathQueries(p, i, current, siblings[i])
         + FoldQueries(h, p, i + 1, MergeOnPath(h, p, i, current, siblings[i]), siblings)
  }

  /** What two folds along one path hash at the first height where their digests meet. */
  function ExtractedInputs(
    h: Hash, p: Path, i: nat, c1: Digest, s1: seq<Digest>, c2: Digest, s2: seq<Digest>): (q: set<Bytes>)
    requires i <= DEPTH && |s1| == |s2| == DEPTH
    ensures |q| <= 2
    ensures q <= FoldQueries(h, p, i, c1, s1) + FoldQueries(h, p, i, c2, s2)
    decreases DEPTH - i, p
  {
    if i == DEPTH then {}
    else
      var m1, m2 := MergeOnPath(h, p, i, c1, s1[i]), MergeOnPath(h, p, i, c2, s2[i]);
      if m1 == m2 then MergeOnPathQueries(p, i, c1, s1[i]) + MergeOnPathQueries(p, i, c2, s2[i])
      else ExtractedInputs(h, p, i + 1, m1, s1, m2, s2)
  }

  /**
   * Two folds along one path from different digests reach different roots, or the hash broke on the at
   * most two inputs extracted from them. The two sides are compared only at equal heights, so the
   * argument never needs leaf and branch inputs to be told apart.
   */
  lemma {:induction false} FoldBinds(h: Hash, p: Path, i: nat, c1: Digest, s1: seq<Digest>, c2: Digest, s2: seq<Digest>)
    requires i <= DEPTH && |s1| == |s2| == DEPTH
    requires c1 != c2
    requires Fold(h, p, i, c1, s1) == Fold(h, p, i, c2, s2)
    ensures Broken(h, ExtractedInputs(h, p, i, c1, s1, c2, s2))
    decreases DEPTH - i
  {
    if i < DEPTH {
      var m1, m2 := MergeOnPath(h, p, i, c1, s1[i]), MergeOnPath(h, p, i, c2, s2[i]);
      if m1 != m2 {
        FoldBinds(h, p, i + 1, m1, s1, m2, s2);
      } else if p[i] {
        MergeBinds(h, i, p[i + 1..], s1[i], c1, s2[i], c2);
      } else {
        MergeBinds(h, i, p[i + 1..], c1, s1[i], c2, s2[i]);
      }
    }
  }

  // ----- folding the tree's own siblings -----

  /** One level of the tree along a path: a node and its sibling merge to their parent. */
  lemma ParentOnPath(h: Hash, leaves: Leaves, p: Path, i: nat)
    requires i < DEPTH
    ensures MergeOnPath(h, p, i, NodeDigest(h, leaves, i, p[i..]), Sibling(h, leaves, p, i))
         == NodeDigest(h, leaves, i + 1, p[i + 1..])
  {
    assert [p[i]] + p[i + 1..] == p[i..];
  }

  lemma {:induction false} FoldClimbs(h: Hash, leaves: Leaves, p: Path, i: nat)
    requires i <= DEPTH
    ensures Fold(h, p, i, NodeDigest(h, leaves, i, p[i..]), Siblings(h, leaves, p)) == RootOf(h, leaves)
    decreases DEPTH - i
  {
    if i < DEPTH {
      ParentOnPath(h, leaves, p, i);
      FoldClimbs(h, leaves, p, i + 1);
    } else {
      assert p[i..] == [];
    }
  }

  /** Folding any leaf of the tree with the tree's siblings gives the root, empty leaves included. */
  lemma FoldReachesRoot(h: Hash, leaves: Leaves, p: Path)
    ensures Fold(h, p, 0, LeafDigest(h, leaves, p), Siblings(h, leaves, p)) == RootOf(h, leaves)
  {
    assert p[0..] == p;
    FoldClimbs(h, leaves, p, 0);
  }

  // ----- locality and emptiness -----

  /** A change of one leaf leaves every node off its path alone. */
  lemma {:induction false} OffPathUnchanged(
    h: Hash, before: Leaves, after: Leaves, p: Path, height: nat, rest: seq<bool>)
    requires height + |rest| == DEPTH
    requires forall q: Path :: q != p ==> LeafDigest(h, before, q) == LeafDigest(h, after, q)
    requires p[height..] != rest
    ensures NodeDigest(h, before, height, rest) == NodeDigest(h, after, height, rest)
    decreases height
  {
    if height == 0 {
      assert p[0..] == p;
    } else {
      assert p[height - 1..][1..] == p[height..];
      assert ([false] + rest)[1..] == rest && ([true] + rest)[1..] == rest;
      OffPathUnchanged(h, before, after, p, height - 1, [false] + rest);
      OffPathUnchanged(h, before, after, p, height - 1, [true] + rest);
    }
  }

  lemma {:induction false} EmptySubtree(h: Hash, height: nat, rest: seq<bool>)
    requires height + |rest| == DEPTH
    ensures NodeDigest(h, map[], height, rest) == ZERO
    decreases height
  {
    if height > 0 {
      EmptySubtree(h, height - 1, [false] + rest);
      EmptySubtree(h, height - 1, [true] + rest);
    }
  }

  /** The empty tree has the all-zero root. */
  lemma EmptyRoot(h: Hash)
    ensures RootOf(h, map[]) == ZERO
  {
    EmptySubtree(h, DEPTH, []);
  }
}
