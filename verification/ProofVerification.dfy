/** Root-only verification of one slot: present with a value, or absent. */
module ProofVerification {
  import opened ByteStrings
  import opened Hashing
  import opened Slots
  import opened SparseMerkle
  import opened Values

  /** A proof for one slot: the sibling digest at each height. */
  type ProfileProof = seq<Digest>

  function SlotPath(h: Hash, slot: SlotId): Path {
    PathOf(SlotKey(h, slot))
  }

  /** Rebuilds the root from the slot's leaf and compares; a proof of another shape is an error. */
  function VerifyLeaf(h: Hash, root: Digest, slot: SlotId, leaf: Digest, proof: ProfileProof): (r: Result<bool, Error>)
    ensures r.Err? <==> |proof| != DEPTH
    ensures r.Err? ==> r.error == Smt
  {
    if |proof| != DEPTH then Err(Smt) else Ok(Fold(h, SlotPath(h, slot), 0, leaf, proof) == root)
  }

  function VerifyMembership(
    h: Hash, root: Digest, slot: SlotId, value: Value, proof: ProfileProof): Result<bool, Error> {
    VerifyLeaf(h, root, slot, LeafHash(h, SlotKey(h, slot), Encode(value)), proof)
  }

  function VerifyNonMembership(h: Hash, root: Digest, slot: SlotId, proof: ProfileProof): Result<bool, Error> {
    VerifyLeaf(h, root, slot, ZERO, proof)
  }

  /** The claim that `slot` holds the encoded value `blob`, or is absent when `blob` is empty. */
  function VerifyBlob(h: Hash, root: Digest, slot: SlotId, blob: Bytes, proof: ProfileProof): Result<bool, Error> {
    VerifyLeaf(h, root, slot, LeafHash(h, SlotKey(h, slot), blob), proof)
  }

  /** Every input hashed when verifying a claim about one slot. */
  function VerifyQueries(h: Hash, slot: SlotId, blob: Bytes, proof: ProfileProof): set<Bytes> {
    var key := SlotKey(h, slot);
    {SlotPreimage(slot)} + LeafQueries(key, blob)
    + (if |proof| != DEPTH then {} else FoldQueries(h, PathOf(key), 0, LeafHash(h, key, blob), proof))
  }

  /** What the verifications of two claims about one slot hash where they first meet. */
  function ConflictInputs(
    h: Hash, slot: SlotId, b1: Bytes, proof1: ProfileProof, b2: Bytes, proof2: ProfileProof): (q: set<Bytes>)
    requires |proof1| == |proof2| == DEPTH
    ensures |q| <= 2
    ensures q <= VerifyQueries(h, slot, b1, proof1) + VerifyQueries(h, slot, b2, proof2)
  {
    var key := SlotKey(h, slot);
    var l1, l2 := LeafHash(h, key, b1), LeafHash(h, key, b2);
    if l1 == l2 then LeafQueries(key, b1) + LeafQueries(key, b2)
    else ExtractedInputs(h, PathOf(key), 0, l1, proof1, l2, proof2)
  }

  /** No root accepts two different claims about one slot, unless the hash broke on at most two extracted inputs. */
  lemma RootFixesSlot(
    h: Hash, root: Digest, slot: SlotId, b1: Bytes, proof1: ProfileProof, b2: Bytes, proof2: ProfileProof)
    requires VerifyBlob(h, root, slot, b1, proof1) == Ok(true)
    requires VerifyBlob(h, root, slot, b2, proof2) == Ok(true)
    ensures b1 == b2 || Broken(h, ConflictInputs(h, slot, b1, proof1, b2, proof2))
  {
    var key := SlotKey(h, slot);
    var l1, l2 := LeafHash(h, key, b1), LeafHash(h, key, b2);
    if l1 == l2 {
      LeafHashBinds(h, key, b1, key, b2);
    } else {
      FoldBinds(h, PathOf(key), 0, l1, proof1, l2, proof2);
    }
  }

  /** For any root at all, two accepted values of one slot are the same value. */
  lemma RootFixesValue(
    h: Hash, root: Digest, slot: SlotId, v1: Value, proof1: ProfileProof, v2: Value, proof2: ProfileProof)
    requires VerifyMembership(h, root, slot, v1, proof1) == Ok(true)
    requires VerifyMembership(h, root, slot, v2, proof2) == Ok(true)
    ensures v1 == v2 || Broken(h, ConflictInputs(h, slot, Encode(v1), proof1, Encode(v2), proof2))
  {
    RootFixesSlot(h, root, slot, Encode(v1), proof1, Encode(v2), proof2);
    if Encode(v1) == Encode(v2) {
      EncodeInjective(v1, v2);
    }
  }

  /** For any root at all, one slot is not accepted both with a value and as absent. */
  lemma RootFixesPresence(h: Hash, root: Digest, slot: SlotId, v: Value, proof1: ProfileProof, proof2: ProfileProof)
    requires VerifyMembership(h, root, slot, v, proof1) == Ok(true)
    requires VerifyNonMembership(h, root, slot, proof2) == Ok(true)
    ensures Broken(h, ConflictInputs(h, slot, Encode(v), proof1, [], proof2))
  {
    RootFixesSlot(h, root, slot, Encode(v), proof1, [], proof2);
  }
}
