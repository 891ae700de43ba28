/**
 * The mutable profile tree: a store of leaves and branches that each write updates in place along one
 * path, from height 0 to the root. `Valid` says the store is that of the recursive tree over the leaves.
 */
module ProfileTrees {
  import opened ByteStrings
  import opened Hashing
  import opened ProofVerification
  import opened Slots
  import opened SparseMerkle
  import opened TreeRuns
  import opened Values

  /** A branch is named by its children's height and the path bits above it. */
  datatype BranchKey = BranchKey(height: nat, rest: seq<bool>)

  datatype BranchNode = BranchNode(left: Digest, right: Digest)

  type Branches = map<BranchKey, BranchNode>

  const NO_BRANCH := BranchNode(ZERO, ZERO)

  function BranchAt(branches: Branches, height: nat, rest: seq<bool>): BranchNode {
    var key := BranchKey(height, rest);
    if key in branches then branches[key] else NO_BRANCH
  }

  /** The children of a node of the recursive tree. */
  function ChildrenOf(h: Hash, leaves: Leaves, height: nat, rest: seq<bool>): BranchNode
    requires height + 1 + |rest| == DEPTH
  {
    BranchNode(NodeDigest(h, leaves, height, [false] + rest), NodeDigest(h, leaves, height, [true] + rest))
  }

  /** The branches below `done` are those of `after`, the others still those of `before`. */
  ghost predicate Climbed(h: Hash, before: Leaves, after: Leaves, branches: Branches, done: nat) {
    forall height: nat, rest :: height + 1 + |rest| == DEPTH ==>
      BranchAt(branches, height, rest) == ChildrenOf(h, if height < done then after else before, height, rest)
  }

  /** Only branches with a non-empty child are stored. */
  ghost predicate NoEmptyBranch(branches: Branches) {
    forall key :: key in branches ==> branches[key] != NO_BRANCH
  }

  ghost predicate DiffersOnlyAt(h: Hash, before: Leaves, after: Leaves, p: Path) {
    forall q: Path :: q != p ==> LeafDigest(h, before, q) == LeafDigest(h, after, q)
  }

  lemma PutDiffersOnlyThere(h: Hash, leaves: Leaves, leaf: LeafValue)
    ensures var after, p := PutLeaf(h, leaves, leaf), PathOf(leaf.slotKey);
            DiffersOnlyAt(h, leaves, after, p) && NodeDigest(h, after, 0, p[0..]) == leaf.ToH256(h)
  {
    var p := PathOf(leaf.slotKey);
    assert p[0..] == p;
  }

  lemma OffPathChildren(h: Hash, before: Leaves, after: Leaves, p: Path, height: nat, rest: seq<bool>)
    requires height + 1 + |rest| == DEPTH && rest != p[height + 1..]
    requires DiffersOnlyAt(h, before, after, p)
    ensures ChildrenOf(h, before, height, rest) == ChildrenOf(h, after, height, rest)
  {
    assert p[height..][1..] == p[height + 1..];
    assert ([false] + rest)[1..] == rest && ([true] + rest)[1..] == rest;
    OffPathUnchanged(h, before, after, p, height, [false] + rest);
    OffPathUnchanged(h, before, after, p, height, [true] + rest);
  }

  /** On the path, the sibling is still the old one and the node itself is the new one. */
  lemma OnPathChildren(h: Hash, before: Leaves, after: Leaves, p: Path, i: nat)
    requires i < DEPTH
    requires DiffersOnlyAt(h, before, after, p)
    ensures var was := ChildrenOf(h, before, i, p[i + 1..]);
            var current := NodeDigest(h, after, i, p[i..]);
            ChildrenOf(h, after, i, p[i + 1..]) ==
              if p[i] then BranchNode(was.left, current) else BranchNode(current, was.right)
  {
    assert [p[i]] + p[i + 1..] == p[i..];
    assert ([!p[i]] + p[i + 1..])[0] != p[i..][0];
    OffPathUnchanged(h, before, after, p, i, [!p[i]] + p[i + 1..]);
  }

  lemma SameBranchElsewhere(b1: Branches, b2: Branches, key: BranchKey, height: nat, rest: seq<bool>)
    requires b1 - {key} == b2 - {key}
    requires key != BranchKey(height, rest)
    ensures BranchAt(b1, height, rest) == BranchAt(b2, height, rest)
  {
    var other := BranchKey(height, rest);
    assert other in b1 <==> other in b1 - {key};
    assert other in b2 <==> other in b2 - {key};
  }

  /** Storing the new children of the path's branch at `i` completes that height. */
  lemma StoreBranch(h: Hash, before: Leaves, after: Leaves, branches: Branches, stored: Branches, p: Path, i: nat)
    requires i < DEPTH && Climbed(h, before, after, branches, i)
    requires DiffersOnlyAt(h, before, after, p)
    requires BranchAt(stored, i, p[i + 1..]) == ChildrenOf(h, after, i, p[i + 1..])
    requires stored - {BranchKey(i, p[i + 1..])} == branches - {BranchKey(i, p[i + 1..])}
    ensures Climbed(h, before, after, stored, i + 1)
  {
    forall height: nat, rest | height + 1 + |rest| == DEPTH
      ensures BranchAt(stored, height, rest) ==
              ChildrenOf(h, if height < i + 1 then after else before, height, rest)
    {
      assert BranchAt(branches, height, rest) ==
             ChildrenOf(h, if height < i then after else before, height, rest);
      if height != i || rest != p[i + 1..] {
        SameBranchElsewhere(branches, stored, BranchKey(i, p[i + 1..]), height, rest);
      }
      if height == i && rest != p[i + 1..] {
        OffPathChildren(h, before, after, p, height, rest);
      }
    }
  }

  lemma StartClimb(h: Hash, before: Leaves, after: Leaves, branches: Branches)
    requires Climbed(h, before, before, branches, 0)
    ensures Climbed(h, before, after, branches, 0)
  {
    forall height: nat, rest | height + 1 + |rest| == DEPTH
      ensures BranchAt(branches, height, rest) == ChildrenOf(h, before, height, rest)
    {}
  }

  /** Between updates every branch is that of the leaves. */
  lemma ClimbedAll(h: Hash, before: Leaves, after: Leaves, branches: Branches)
    requires Climbed(h, before, after, branches, DEPTH)
    ensures Climbed(h, after, after, branches, 0)
  {
    forall height: nat, rest | height + 1 + |rest| == DEPTH
      ensures BranchAt(branches, height, rest) == ChildrenOf(h, after, height, rest)
    {
      assert BranchAt(branches, height, rest) ==
             ChildrenOf(h, if height < DEPTH then after else before, height, rest);
    }
  }

  lemma SiblingIsStored(h: Hash, leaves: Leaves, branches: Branches, p: Path, i: nat)
    requires i < DEPTH && Climbed(h, leaves, leaves, branches, 0)
    ensures var node := BranchAt(branches, i, p[i + 1..]);
            Sibling(h, leaves, p, i) == if p[i] then node.left else node.right
  {
    assert BranchAt(branches, i, p[i + 1..]) == ChildrenOf(h, leaves, i, p[i + 1..]);
  }

  lemma SiblingsGrow(siblings: seq<Digest>, i: nat)
    requires i < |siblings|
    ensures siblings[..i + 1] == siblings[..i] + [siblings[i]]
  {}

  lemma EmptyStore(h: Hash)
    ensures Climbed(h, map[], map[], map[], 0)
  {
    forall height: nat, rest | height + 1 + |rest| == DEPTH
      ensures BranchAt(map[], height, rest) == ChildrenOf(h, map[], height, rest)
    {
      EmptySubtree(h, height, [false] + rest);
      EmptySubtree(h, height, [true] + rest);
    }
  }

  class ProfileTree {
    const h: Hash
    var leaves: Leaves
    var branches: Branches
    var root: Digest
    /** Every write since the tree was made, oldest first. */
    ghost var history: seq<Write>

    ghost predicate Valid()
      reads this
    {
      && leaves == Run(h, history)
      && Climbed(h, leaves, leaves, branches, 0)
      && NoEmptyBranch(branches)
      && root == RootOf(h, leaves)
    }

    constructor (h: Hash)
      ensures Valid() && this.h == h
      ensures history == [] && root == ZERO
    {
      this.h := h;
      leaves, branches, root := map[], map[], ZERO;
      history := [];
      EmptyStore(h);
      EmptyRoot(h);
    }

    /** Stores the new children of the branch at height `i` on the path and returns their parent. */
    method ClimbOne(p: Path, i: nat, current: Digest, ghost before: Leaves) returns (parent: Digest)
      requires i < DEPTH
      requires DiffersOnlyAt(h, before, leaves, p)
      requires Climbed(h, before, leaves, branches, i) && NoEmptyBranch(branches)
      requires current == NodeDigest(h, leaves, i, p[i..])
      modifies `branches
      ensures Climbed(h, before, leaves, branches, i + 1) && NoEmptyBranch(branches)
      ensures parent == NodeDigest(h, leaves, i + 1, p[i + 1..])
    {
      var rest := p[i + 1..];
      var key := BranchKey(i, rest);
      var stored := BranchAt(branches, i, rest);
      var node := if p[i] then BranchNode(stored.left, current) else BranchNode(current, stored.right);
      OnPathChildren(h, before, leaves, p, i);
      assert node == ChildrenOf(h, leaves, i, rest);
      ghost var was := branches;
      if node != NO_BRANCH {
        branches := branches[key := node];
      } else {
        branches := branches - {key};
      }
      StoreBranch(h, before, leaves, was, branches, p, i);
      parent := MergeNodes(h, i, rest, node.left, node.right);
    }

    /** Recomputes the branches on a path, bottom to top, and returns the new root. */
    method ClimbPath(p: Path, leaf: Digest, ghost before: Leaves) returns (top: Digest)
      requires DiffersOnlyAt(h, before, leaves, p)
      requires Climbed(h, before, leaves, branches, 0) && NoEmptyBranch(branches)
      requires leaf == NodeDigest(h, leaves, 0, p[0..])
      modifies `branches
      ensures Climbed(h, before, leaves, branches, DEPTH) && NoEmptyBranch(branches)
      ensures top == RootOf(h, leaves)
    {
      top := leaf;
      var i := 0;
      while i < DEPTH
        invariant 0 <= i <= DEPTH
        invariant top == NodeDigest(h, leaves, i, p[i..])
        invariant Climbed(h, before, leaves, branches, i) && NoEmptyBranch(branches)
      {
        top := ClimbOne(p, i, top, before);
        i := i + 1;
      }
      assert p[DEPTH..] == [];
    }

    /** Writes one leaf and brings the branches on its path and the root up to date. */
    method Update(leaf: LeafValue, ghost w: Write)
      requires Valid() && leaf == LeafOf(h, w)
      modifies this
      ensures Valid()
      ensures history == old(history) + [w]
      ensures leaves == PutLeaf(h, old(leaves), leaf)
    {
      ghost var before := leaves;
      var p := PathOf(leaf.slotKey);
      var digest := HashLeafValue(h, leaf.slotKey, leaf.encoded);
      if digest != ZERO {
        leaves := leaves[p := leaf];
      } else {
        leaves := leaves - {p};
      }
      PutDiffersOnlyThere(h, before, leaf);
      StartClimb(h, before, leaves, branches);
      root := ClimbPath(p, digest, before);
      history := history + [w];
      ClimbedAll(h, before, leaves, branches);
      RunAppend(h, old(history), w);
    }

    method SetEncoded(slot: SlotId, encoded: Bytes)
      requires Valid()
      modifies this
      ensures Valid()
      ensures history == old(history) + [Write(slot, encoded)]
    {
      var slotKey := Key(h, slot);
      Update(LeafValue(slotKey, encoded), Write(slot, encoded));
    }

    method Set(slot: SlotId, value: Value)
      requires Valid()
      modifies this
      ensures Valid()
      ensures history == old(history) + [Setting(slot, value)]
    {
      var encoded := EncodeInto(value);
      SetEncoded(slot, encoded);
    }

    method Remove(slot: SlotId)
      requires Valid()
      modifies this
      ensures Valid()
      ensures history == old(history) + [Removing(slot)]
    {
      SetEncoded(slot, []);
    }

    /** Reads the stored leaf, so the stored blob unless the slot is absent. */
    method GetEncoded(slot: SlotId) returns (r: Option<Bytes>)
      requires Valid()
      ensures r == GetEncodedIn(h, leaves, slot)
      ensures r == (if slot in Final(history) then Some(Final(history)[slot]) else None)
           || Broken(h, ReadQueries(h, history, slot))
    {
      var key := Key(h, slot);
      var p := PathOf(key);
      ReadAfterRun(h, history, slot);
      if p in leaves && leaves[p].encoded != [] {
        return Some(leaves[p].encoded);
      }
      return None;
    }

    method Get(slot: SlotId) returns (r: Result<Option<Value>, Error>)
      requires Valid()
      ensures r == GetIn(h, leaves, slot)
      ensures r == TypedRead(history, slot) || Broken(h, ReadQueries(h, history, slot))
    {
      ReadAfterRun(h, history, slot);
      var found := GetEncoded(slot);
      match found {
        case None => r := Ok(None);
        case Some(blob) =>
          var decoded := Decode(blob);
          match decoded {
            case Ok(v) => r := Ok(Some(v));
            case Err(e) => r := Err(e);
          }
      }
    }

    method Root() returns (r: Digest)
      requires Valid()
      ensures r == RootOf(h, Run(h, history))
    {
      r := root;
    }

    /** Collects the siblings along a path from the branch store. */
    method MerkleProof(p: Path) returns (proof: ProfileProof)
      requires Climbed(h, leaves, leaves, branches, 0)
      ensures proof == Siblings(h, leaves, p)
    {
      proof := [];
      var i := 0;
      while i < DEPTH
        invariant 0 <= i <= DEPTH && |proof| == i
        invariant proof == Siblings(h, leaves, p)[..i]
      {
        var node := BranchAt(branches, i, p[i + 1..]);
        SiblingIsStored(h, leaves, branches, p, i);
        SiblingsGrow(Siblings(h, leaves, p), i);
        proof := proof + [if p[i] then node.left else node.right];
        i := i + 1;
      }
    }

    method Prove(slot: SlotId) returns (proof: ProfileProof)
      requires Valid()
      ensures proof == ProofIn(h, leaves, slot)
    {
      var key := Key(h, slot);
      proof := MerkleProof(PathOf(key));
    }

    /** Succeeds exactly for a present slot, and then verifies for the value the slot is read with. */
    method ProveMembership(slot: SlotId) returns (r: Result<ProfileProof, Error>)
      requires Valid()
      ensures r == ProveMembershipIn(h, leaves, slot)
      ensures r.Ok? ==> VerifyBlob(h, root, slot, ReadBlob(h, leaves, slot), r.value) == Ok(true)
    {
      RunWellKeyed(h, history);
      ProofVerifiesRead(h, leaves, slot);
      var found := GetEncoded(slot);
      if found.None? {
        return Err(Smt);
      }
      var proof := Prove(slot);
      return Ok(proof);
    }

    /** Succeeds exactly for an absent slot, and then verifies as its absence. */
    method ProveNonMembership(slot: SlotId) returns (r: Result<ProfileProof, Error>)
      requires Valid()
      ensures r == ProveNonMembershipIn(h, leaves, slot)
      ensures r.Ok? ==> VerifyNonMembership(h, root, slot, r.value) == Ok(true)
    {
      RunWellKeyed(h, history);
      ProofVerifiesRead(h, leaves, slot);
      var found := GetEncoded(slot);
      if found.Some? {
        return Err(Smt);
      }
      var proof := Prove(slot);
      return Ok(proof);
    }
  }
}
