/** Slot identifiers, the standard map and the slot-key derivation. */
module Slots {
  import opened ByteStrings
  import opened Hashing

  /** A 16-bit slot identifier. */
  type SlotId = x: int | 0 <= x < 0x1_0000

  /** The ASCII bytes of "dig-identity:slot:". */
  const SLOT_KEY_DOMAIN: Bytes := [
    0x64, 0x69, 0x67, 0x2D, 0x69, 0x64, 0x65, 0x6E, 0x74, 0x69, 0x74, 0x79, 0x3A,
    0x73, 0x6C, 0x6F, 0x74, 0x3A]

  const SCHEMA_VERSION: SlotId := 0x0000
  const DISPLAY_NAME: SlotId := 0x0001
  const BIO: SlotId := 0x0002
  const AVATAR: SlotId := 0x0003
  const BANNER: SlotId := 0x0004
  const PRONOUNS: SlotId := 0x0005
  const LOCATION: SlotId := 0x0006
  const LINKS: SlotId := 0x0007
  const XCH_ADDRESS: SlotId := 0x0008
  const BLS_G1_PUBLIC_KEY: SlotId := 0x0010
  const PEER_ID: SlotId := 0x0012
  const KEY_EPOCH: SlotId := 0x0013
  const UPDATED_AT: SlotId := 0x0018

  const STANDARD_SLOTS: set<SlotId> := {
    SCHEMA_VERSION, DISPLAY_NAME, BIO, AVATAR, BANNER, PRONOUNS, LOCATION, LINKS, XCH_ADDRESS,
    BLS_G1_PUBLIC_KEY, PEER_ID, KEY_EPOCH, UPDATED_AT}

  function SlotPreimage(slot: SlotId): Bytes {
    SLOT_KEY_DOMAIN + ToBigEndian(slot, 4)
  }

  /** The 256-bit tree key of a slot. */
  function SlotKey(h: Hash, slot: SlotId): Digest {
    h(SlotPreimage(slot))
  }

  /** The ids of the standard map. */
  lemma StandardMap()
    ensures STANDARD_SLOTS == {0, 1, 2, 3, 4, 5, 6, 7, 8, 0x10, 0x12, 0x13, 0x18}
  {}

  /** The key preimage: "dig-identity:slot:" and the id widened to four big-endian bytes, written out. */
  lemma PreimageBytes(slot: SlotId)
    ensures SlotPreimage(slot) == [
              0x64, 0x69, 0x67, 0x2D, 0x69, 0x64, 0x65, 0x6E, 0x74, 0x69, 0x74, 0x79, 0x3A,
              0x73, 0x6C, 0x6F, 0x74, 0x3A, 0, 0, slot / 0x100, slot % 0x100]
  {
    BigEndianBytes(slot);
  }

  /** `SlotKey` as the program computes it, appending to a buffer. */
  method Key(h: Hash, slot: SlotId) returns (key: Digest)
    ensures key == SlotKey(h, slot)
    ensures key == h([
              0x64, 0x69, 0x67, 0x2D, 0x69, 0x64, 0x65, 0x6E, 0x74, 0x69, 0x74, 0x79, 0x3A,
              0x73, 0x6C, 0x6F, 0x74, 0x3A, 0, 0, slot / 0x100, slot % 0x100])
  {
    PreimageBytes(slot);
    var preimage: Bytes := [];
    preimage := preimage + SLOT_KEY_DOMAIN;
    preimage := preimage + ToBigEndian(slot, 4);
    assert preimage == SlotPreimage(slot);
    key := h(preimage);
  }

  /** Different slots have different key preimages. */
  lemma SlotPreimagesDiffer(s: SlotId, t: SlotId)
    ensures SlotPreimage(s) == SlotPreimage(t) ==> s == t
  {
    FormatWidths();
    ReadBackBigEndian(s, 4);
    ReadBackBigEndian(t, 4);
    var n := |SLOT_KEY_DOMAIN|;
    assert SlotPreimage(s)[n..] == ToBigEndian(s, 4);
    assert SlotPreimage(t)[n..] == ToBigEndian(t, 4);
  }

  /** The key preimages of a set of slots. */
  function SlotQueries(slots: set<SlotId>): set<Bytes> {
    set s | s in slots :: SlotPreimage(s)
  }

  /** No two of the slots share a tree key. */
  ghost predicate DistinctKeys(h: Hash, slots: set<SlotId>) {
    forall s, t :: s in slots && t in slots && SlotKey(h, s) == SlotKey(h, t) ==> s == t
  }

  /** Slots share a tree key only when their preimages collide. */
  lemma KeysDistinctOrBroken(h: Hash, slots: set<SlotId>)
    ensures DistinctKeys(h, slots) || Broken(h, SlotQueries(slots))
  {
    if s, t :| s in slots && t in slots && SlotKey(h, s) == SlotKey(h, t) && s != t {
      SlotPreimagesDiffer(s, t);
      var q := SlotQueries(slots);
      assert SlotPreimage(s) in q && SlotPreimage(t) in q;
      assert Collides(h, SlotPreimage(s), SlotPreimage(t));
    }
  }
}
