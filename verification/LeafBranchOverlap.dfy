/**
 * When the input hashed for a slot's leaf is also the input hashed for some branch. Binding the slot key
 * into leaves leaves such slots: which ones is decided here, for every hash, from the key alone.
 */
module LeafBranchOverlap {
  import opened ByteStrings
  import opened Hashing
  import opened Slots
  import opened SparseMerkle
  import opened Values

  /** A leaf and a branch that are hashed from one input. */
  ghost predicate Overlaps(key: Digest, v: Value, height: nat, rest: seq<bool>, left: Digest, right: Digest) {
    height + 1 + |rest| == DEPTH && LeafPreimage(key, Encode(v)) == BranchPreimage(height, rest, left, right)
  }

  /** With its first byte read as a height, the key's other bits up to that height are clear. */
  ghost predicate LowBitsClear(key: Digest) {
    forall i :: 8 <= i <= 8 + key[0] && i < DEPTH ==> !PathOf(key)[i]
  }

  /** The greatest height whose node keys can end in the tag of the value. */
  function TopHeight(v: Value): nat { if v.Utf8? then 247 else 248 }

  /** Dropping the first byte of a key moves its path bits down by eight. */
  lemma ShiftedPath(key: Digest, nodeKey: Digest)
    requires nodeKey[..31] == key[1..]
    ensures forall i :: 8 <= i < DEPTH ==> PathOf(key)[i] == PathOf(nodeKey)[i - 8]
    ensures forall i :: 0 <= i < 248 ==> PathOf(nodeKey)[i] == PathOf(key)[8 + i]
    ensures forall j :: 0 <= j < 8 ==> PathOf(nodeKey)[248 + j] == BitOf(nodeKey[31], j)
  {
    forall i | 0 <= i < 248
      ensures PathOf(nodeKey)[i] == PathOf(key)[8 + i]
    {
      assert nodeKey[i / 8] == nodeKey[..31][i / 8] == key[1 + i / 8];
      assert (8 + i) / 8 == 1 + i / 8 && (8 + i) % 8 == i % 8;
    }
  }

  /** The bits of the two tags that 60-byte payloads can carry. */
  lemma TagBits()
    ensures BitOf(1, 0) && !BitOf(2, 0) && BitOf(2, 1)
  {
    assert BitOf(2, 1) == BitOf(1, 0);
  }

  /** A key whose lower path bits are clear is the key of a node at that height. */
  lemma ClearedKeyIsNodeKey(nodeKey: Digest, height: nat) returns (rest: seq<bool>)
    requires height < DEPTH
    requires forall i :: 0 <= i <= height ==> !PathOf(nodeKey)[i]
    ensures height + 1 + |rest| == DEPTH && NodeKey(height, rest) == nodeKey
  {
    rest := PathOf(nodeKey)[height + 1..];
    assert seq(height + 1, _ => false) + rest == PathOf(nodeKey);
    PathDeterminesKey(nodeKey);
  }

  /** The bits of a node key below its height are clear. */
  lemma NodeKeyIsCleared(height: nat, rest: seq<bool>)
    requires height + 1 + |rest| == DEPTH
    ensures forall i :: 0 <= i <= height ==> !PathOf(NodeKey(height, rest))[i]
  {
    PackedKeyHasPath(seq(height + 1, _ => false) + rest);
  }

  lemma OverlapForces(key: Digest, v: Value, height: nat, rest: seq<bool>, left: Digest, right: Digest)
    requires Overlaps(key, v, height, rest, left, right)
    ensures |v.Payload()| == 60 && key[0] <= TopHeight(v) && LowBitsClear(key)
  {
    var nodeKey := NodeKey(height, rest);
    LeafMeetsBranch(key, Encode(v), height, rest, left, right);
    EncodingFields(v);
    assert v.Utf8? || v.Bytes?;
    assert nodeKey[31] == Encode(v)[0] == v.Tag().ToByte();
    ShiftedPath(key, nodeKey);
    NodeKeyIsCleared(height, rest);
    TagBits();
    if height > 247 {
      assert PathOf(nodeKey)[248 + 0] == BitOf(nodeKey[31], 0);
    }
    if height > 248 {
      assert PathOf(nodeKey)[248 + 1] == BitOf(nodeKey[31], 1);
    }
  }

  lemma OverlapExists(key: Digest, v: Value) returns (rest: seq<bool>, left: Digest, right: Digest)
    requires |v.Payload()| == 60 && key[0] <= TopHeight(v) && LowBitsClear(key)
    ensures Overlaps(key, v, key[0], rest, left, right)
  {
    var blob := Encode(v);
    EncodingFields(v);
    var nodeKey: Digest := key[1..] + [blob[0]];
    assert nodeKey[..31] == key[1..];
    left, right := blob[1..33], blob[33..];
    ShiftedPath(key, nodeKey);
    TagBits();
    assert key[0] == 248 ==> !PathOf(nodeKey)[248 + 0];
    rest := ClearedKeyIsNodeKey(nodeKey, key[0]);
    assert blob == [nodeKey[31]] + left + right;
    LeafMeetsBranch(key, blob, key[0], rest, left, right);
  }

  /**
   * A value's leaf input under a key is a branch input exactly when its payload has 60 bytes, the key's
   * first byte is at most 248 (247 for text), and the bits of the key below that height are clear.
   */
  lemma ValueOverlapsIff(key: Digest, v: Value)
    ensures (exists height: nat, rest, left, right :: Overlaps(key, v, height, rest, left, right)) <==>
            |v.Payload()| == 60 && key[0] <= TopHeight(v) && LowBitsClear(key)
  {
    if height: nat, rest, left, right :| Overlaps(key, v, height, rest, left, right) {
      OverlapForces(key, v, height, rest, left, right);
    }
    if |v.Payload()| == 60 && key[0] <= TopHeight(v) && LowBitsClear(key) {
      var rest, left, right := OverlapExists(key, v);
    }
  }

  /** For every hash and slot: some value of the slot has a branch input as leaf input iff its key allows it. */
  lemma SlotOverlapsIff(h: Hash, slot: SlotId)
    ensures (exists v, height: nat, rest, left, right ::
               Overlaps(SlotKey(h, slot), v, height, rest, left, right)) <==>
            SlotKey(h, slot)[0] <= 248 && LowBitsClear(SlotKey(h, slot))
  {
    var key := SlotKey(h, slot);
    if v, height: nat, rest, left, right :| Overlaps(key, v, height, rest, left, right) {
      OverlapForces(key, v, height, rest, left, right);
    }
    if key[0] <= 248 && LowBitsClear(key) {
      var rest, left, right := OverlapExists(key, Value.Bytes(Zeros(60)));
    }
  }

  /** The first two bytes decide for a key read at height 1: the second must be a multiple of four. */
  lemma ClearAtHeightOne(key: Digest)
    requires key[0] == 1
    ensures LowBitsClear(key) <==> key[1] % 4 == 0
  {
    assert PathOf(key)[8] == BitOf(key[1], 0);
    assert PathOf(key)[9] == BitOf(key[1], 1) == BitOf(key[1] / 2, 0);
  }

  /**
   * The sha256 digest of the key preimage of slot 0x0040 starts with the bytes 01 50. Under any hash for
   * which it does, every 60-byte opaque value of that slot has the leaf input of a branch at height 1.
   */
  lemma Slot0040Overlaps(h: Hash, payload: Bytes) returns (rest: seq<bool>, left: Digest, right: Digest)
    requires SlotKey(h, 0x0040)[0] == 0x01 && SlotKey(h, 0x0040)[1] == 0x50 && |payload| == 60
    ensures Overlaps(SlotKey(h, 0x0040), Value.Bytes(payload), 1, rest, left, right)
  {
    ClearAtHeightOne(SlotKey(h, 0x0040));
    rest, left, right := OverlapExists(SlotKey(h, 0x0040), Value.Bytes(payload));
  }
}
