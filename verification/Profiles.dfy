/** A profile: a map from slots to values, the tree and root it materializes into, and its typed readers. */
module Profiles {
  import opened Addresses
  import opened ByteStrings
  import opened Hashing
  import opened ProfileTrees
  import opened ProofVerification
  import opened Slots
  import SparseMerkle
  import opened TreeRuns
  import opened Unicode
  import opened Values

  type SlotMap = map<SlotId, Value>

  // ----- the writes a profile makes, in ascending slot order -----

  ghost predicate IsGreatest(slots: set<SlotId>, s: SlotId) {
    s in slots && forall t :: t in slots ==> t <= s
  }

  ghost predicate IsLeast(slots: set<SlotId>, s: SlotId) {
    s in slots && forall t :: t in slots ==> s <= t
  }

  lemma {:induction false} FindGreatest(slots: set<SlotId>) returns (s: SlotId)
    requires slots != {}
    ensures IsGreatest(slots, s)
  {
    s :| s in slots;
    var others := slots - {s};
    assert forall t :: t in slots ==> t == s || t in others;
    if others != {} {
      var m := FindGreatest(others);
      s := if m < s then s else m;
    }
  }

  lemma {:induction false} FindLeast(slots: set<SlotId>) returns (s: SlotId)
    requires slots != {}
    ensures IsLeast(slots, s)
  {
    s :| s in slots;
    var others := slots - {s};
    assert forall t :: t in slots ==> t == s || t in others;
    if others != {} {
      var m := FindLeast(others);
      s := if s < m then s else m;
    }
  }

  lemma HasGreatest(slots: set<SlotId>)
    requires slots != {}
    ensures exists s :: IsGreatest(slots, s)
  {
    var s := FindGreatest(slots);
  }

  ghost function Greatest(slots: set<SlotId>): (s: SlotId)
    requires slots != {}
    ensures IsGreatest(slots, s)
  {
    HasGreatest(slots);
    var s :| IsGreatest(slots, s);
    s
  }

  ghost function WritesOf(m: SlotMap): seq<Write>
    decreases |m|
  {
    if m == map[] then []
    else
      var last := Greatest(m.Keys);
      WritesOf(m - {last}) + [Setting(last, m[last])]
  }

  function Encoded(m: SlotMap): map<SlotId, Bytes> {
    map s | s in m :: Encode(m[s])
  }

  lemma {:induction false} WritesTouchProfile(m: SlotMap)
    ensures Touched(WritesOf(m)) == m.Keys
    decreases |m|
  {
    if m != map[] {
      var last := Greatest(m.Keys);
      var front := m - {last};
      WritesTouchProfile(front);
      RunAppend(_ => ZERO, WritesOf(front), Setting(last, m[last]));
      assert front.Keys + {last} == m.Keys;
    }
  }

  lemma {:induction false} WritesEndInProfile(m: SlotMap)
    ensures Final(WritesOf(m)) == Encoded(m)
    decreases |m|
  {
    if m != map[] {
      var last := Greatest(m.Keys);
      var front, w := m - {last}, Setting(last, m[last]);
      WritesEndInProfile(front);
      assert Final(WritesOf(front) + [w]) == Overwrite(Encoded(front), w) by {
        RunAppend(_ => ZERO, WritesOf(front), w);
      }
      EncodedGrows(m, last);
    }
  }

  lemma WritesOfProfile(m: SlotMap)
    ensures Final(WritesOf(m)) == Encoded(m)
    ensures Touched(WritesOf(m)) == m.Keys
  {
    WritesEndInProfile(m);
    WritesTouchProfile(m);
  }

  lemma EncodedGrows(m: SlotMap, last: SlotId)
    requires last in m
    ensures Overwrite(Encoded(m - {last}), Setting(last, m[last])) == Encoded(m)
  {}

  lemma EncodedInjective(m1: SlotMap, m2: SlotMap)
    requires Encoded(m1) == Encoded(m2)
    ensures m1 == m2
  {
    assert Encoded(m1).Keys == m1.Keys && Encoded(m2).Keys == m2.Keys;
    forall s | s in m1
      ensures s in m2 && m1[s] == m2[s]
    {
      assert s in Encoded(m1) && Encoded(m2)[s] == Encode(m1[s]);
      EncodeInjective(m1[s], m2[s]);
    }
  }

  // ----- the profile's root -----

  ghost function ProfileLeaves(h: Hash, m: SlotMap): SparseMerkle.Leaves { Run(h, WritesOf(m)) }

  ghost function ProfileRoot(h: Hash, m: SlotMap): Digest { SparseMerkle.RootOf(h, ProfileLeaves(h, m)) }

  ghost function ProfileQueries(h: Hash, m1: SlotMap, m2: SlotMap): set<Bytes> {
    BindingQueries(h, WritesOf(m1), WritesOf(m2))
  }

  /** Two profiles have one root exactly when they are one slot map, unless the hash broke while auditing them. */
  lemma RootBindsProfile(h: Hash, m1: SlotMap, m2: SlotMap)
    ensures (ProfileRoot(h, m1) == ProfileRoot(h, m2) <==> m1 == m2) || Broken(h, ProfileQueries(h, m1, m2))
  {
    if ProfileRoot(h, m1) == ProfileRoot(h, m2) {
      WritesOfProfile(m1);
      WritesOfProfile(m2);
      RootBindsContents(h, WritesOf(m1), WritesOf(m2));
      if Encoded(m1) == Encoded(m2) {
        EncodedInjective(m1, m2);
      }
    }
  }

  /** Any writes that end in a profile's values, in any order and over any earlier values, have its root. */
  lemma AnyHistoryHasProfileRoot(h: Hash, ws: seq<Write>, m: SlotMap)
    requires Final(ws) == Encoded(m)
    ensures SparseMerkle.RootOf(h, Run(h, ws)) == ProfileRoot(h, m) || Broken(h, SlotQueries(Touched(ws) + m.Keys))
  {
    WritesOfProfile(m);
    HistoryIndependent(h, ws, WritesOf(m));
  }

  // ----- proofs of a profile's fields -----

  function ClaimBlob(m: SlotMap, slot: SlotId): Bytes {
    if slot in m then Encode(m[slot]) else []
  }

  ghost function FieldProof(h: Hash, m: SlotMap, slot: SlotId): ProfileProof {
    ProofIn(h, ProfileLeaves(h, m), slot)
  }

  ghost function FieldQueries(h: Hash, m: SlotMap, slot: SlotId): set<Bytes> {
    SlotQueries(m.Keys + {slot}) + LeafQueries(SlotKey(h, slot), ClaimBlob(m, slot))
  }

  /** A profile's tree holds at each slot what the profile holds there. */
  lemma TreeHoldsProfile(h: Hash, m: SlotMap, slot: SlotId)
    ensures ReadBlob(h, ProfileLeaves(h, m), slot) == ClaimBlob(m, slot) || Broken(h, FieldQueries(h, m, slot))
  {
    WritesOfProfile(m);
    ReadAfterRun(h, WritesOf(m), slot);
    assert slot in m ==> Encoded(m)[slot] == Encode(m[slot]);
  }

  /**
   * Every set field is proved present with its value and every unset one absent, against the profile's
   * root; the other prover refuses.
   */
  lemma FieldIsProvable(h: Hash, m: SlotMap, slot: SlotId)
    ensures
      || Broken(h, FieldQueries(h, m, slot))
      || (var leaves, proof := ProfileLeaves(h, m), FieldProof(h, m, slot);
          && VerifyBlob(h, ProfileRoot(h, m), slot, ClaimBlob(m, slot), proof) == Ok(true)
          && ProveMembershipIn(h, leaves, slot) == (if slot in m then Ok(proof) else Err(Smt))
          && ProveNonMembershipIn(h, leaves, slot) == (if slot in m then Err(Smt) else Ok(proof)))
  {
    TreeHoldsProfile(h, m, slot);
    RunWellKeyed(h, WritesOf(m));
    ProofVerifiesRead(h, ProfileLeaves(h, m), slot);
  }

  /** The inputs that matter when a profile's own proof meets another accepted claim. */
  ghost function RivalQueries(h: Hash, m: SlotMap, slot: SlotId, blob: Bytes, proof: ProfileProof): set<Bytes> {
    FieldQueries(h, m, slot) + VerifyQueries(h, slot, ClaimBlob(m, slot), FieldProof(h, m, slot))
    + VerifyQueries(h, slot, blob, proof)
  }

  /** Nothing but a profile's own field is accepted against its root. */
  lemma OnlyFieldIsProvable(h: Hash, m: SlotMap, slot: SlotId, blob: Bytes, proof: ProfileProof)
    requires VerifyBlob(h, ProfileRoot(h, m), slot, blob, proof) == Ok(true)
    ensures blob == ClaimBlob(m, slot) || Broken(h, RivalQueries(h, m, slot, blob, proof))
  {
    var q := RivalQueries(h, m, slot, blob, proof);
    TreeHoldsProfile(h, m, slot);
    BrokenGrows(h, FieldQueries(h, m, slot), q);
    if ReadBlob(h, ProfileLeaves(h, m), slot) == ClaimBlob(m, slot) {
      RunWellKeyed(h, WritesOf(m));
      OnlyReadIsProvable(h, ProfileLeaves(h, m), slot, blob, proof);
      BrokenGrows(h, ConflictInputs(h, slot, ClaimBlob(m, slot), FieldProof(h, m, slot), blob, proof), q);
    }
  }

  // ----- typed readers -----

  datatype DidKeys = DidKeys(blsG1PublicKey: Option<Bytes>, peerId: Option<Bytes>, keyEpoch: Option<U32>)

  function SchemaVersionOf(m: SlotMap): Option<U16> {
    if SCHEMA_VERSION in m && m[SCHEMA_VERSION].U16? then Some(m[SCHEMA_VERSION].n16) else None
  }

  function Utf8At(m: SlotMap, slot: SlotId): Option<Bytes> {
    if slot in m && m[slot].Utf8? then Some(m[slot].text) else None
  }

  /** An opaque value of exactly `width` bytes; any other length reads as absent. */
  function BytesAt(m: SlotMap, slot: SlotId, width: nat): Option<Bytes> {
    if slot in m && m[slot].Bytes? && |m[slot].bytes| == width then Some(m[slot].bytes) else None
  }

  function XchAddressOf(codec: Codec, m: SlotMap): Option<Bytes> {
    var raw := Utf8At(m, XCH_ADDRESS);
    if raw.Some? && IsValidXchAddress(codec, raw.value) then raw else None
  }

  function ResolveKeys(m: SlotMap): DidKeys {
    DidKeys(
      BytesAt(m, BLS_G1_PUBLIC_KEY, 48),
      BytesAt(m, PEER_ID, 32),
      if KEY_EPOCH in m && m[KEY_EPOCH].U32? then Some(m[KEY_EPOCH].n32) else None)
  }

  /** Everything the typed readers report of a profile. */
  datatype Reading = Reading(
    schemaVersion: Option<U16>, displayName: Option<Bytes>, bio: Option<Bytes>,
    xchAddress: Option<Bytes>, keys: DidKeys)

  function ReadProfile(codec: Codec, m: SlotMap): Reading {
    Reading(SchemaVersionOf(m), Utf8At(m, DISPLAY_NAME), Utf8At(m, BIO), XchAddressOf(codec, m), ResolveKeys(m))
  }

  /** What the key readers must report, by slot id, value type and width. */
  ghost predicate KeysAreThoseOf(m: SlotMap, keys: DidKeys) {
    && (forall key: Bytes :: keys.blsG1PublicKey == Some(key) <==>
          0x0010 in m && m[0x0010] == Value.Bytes(key) && |key| == 48)
    && (forall id: Bytes :: keys.peerId == Some(id) <==>
          0x0012 in m && m[0x0012] == Value.Bytes(id) && |id| == 32)
    && (forall epoch: U32 :: keys.keyEpoch == Some(epoch) <==> 0x0013 in m && m[0x0013] == Value.U32(epoch))
  }

  lemma KeysAreExact(m: SlotMap, keys: DidKeys)
    ensures ResolveKeys(m) == keys <==> KeysAreThoseOf(m, keys)
  {
    KeysReported(m);
    if KeysAreThoseOf(m, keys) {
      SameKeys(m, keys, ResolveKeys(m));
    }
  }

  lemma KeysReported(m: SlotMap)
    ensures KeysAreThoseOf(m, ResolveKeys(m))
  {}

  lemma SameKeys(m: SlotMap, k1: DidKeys, k2: DidKeys)
    requires KeysAreThoseOf(m, k1) && KeysAreThoseOf(m, k2)
    ensures k1 == k2
  {
    assert k1.blsG1PublicKey.Some? ==> k2.blsG1PublicKey == Some(k1.blsG1PublicKey.value);
    assert k2.blsG1PublicKey.Some? ==> k1.blsG1PublicKey == Some(k2.blsG1PublicKey.value);
    assert k1.peerId.Some? ==> k2.peerId == Some(k1.peerId.value);
    assert k2.peerId.Some? ==> k1.peerId == Some(k2.peerId.value);
    assert k1.keyEpoch.Some? ==> k2.keyEpoch == Some(k1.keyEpoch.value);
    assert k2.keyEpoch.Some? ==> k1.keyEpoch == Some(k2.keyEpoch.value);
  }

  /** Every typed reading, by slot id and value type; the keys are those of `KeysAreThoseOf`. */
  lemma ReadersAreExact(codec: Codec, m: SlotMap, version: U16, text: Utf8Text)
    ensures ReadProfile(codec, m).schemaVersion == Some(version) <==> 0x0000 in m && m[0x0000] == Value.U16(version)
    ensures ReadProfile(codec, m).displayName == Some(text) <==> 0x0001 in m && m[0x0001] == Value.Utf8(text)
    ensures ReadProfile(codec, m).bio == Some(text) <==> 0x0002 in m && m[0x0002] == Value.Utf8(text)
    ensures ReadProfile(codec, m).xchAddress == XchAddressOf(codec, m)
    ensures KeysAreThoseOf(m, ReadProfile(codec, m).keys)
  {
    KeysReported(m);
  }

  lemma AddressSlot(m: SlotMap, text: Utf8Text)
    ensures Utf8At(m, XCH_ADDRESS) == Some(text) <==> 0x0008 in m && m[0x0008] == Value.Utf8(text)
  {}

  /** The address reader: the text of slot 0x0008 when, trimmed, it decodes under the prefix "xch". */
  lemma XchReaderIsExact(codec: Codec, m: SlotMap, text: Utf8Text)
    ensures XchAddressOf(codec, m) == Some(text) <==>
            && 0x0008 in m && m[0x0008] == Value.Utf8(text)
            && exists puzzleHash :: codec(Trim(text)) == Some(Address([0x78, 0x63, 0x68], puzzleHash))
  {
    AddressSlot(m, text);
    XchIsExact(codec, text, Trim(text));
    assert IsValidXchAddress(codec, text) <==> ParseXchAddress(codec, text) == Some(Trim(text));
  }

  /**
   * A reader ignores slots it does not know: setting any slots outside the standard map leaves every
   * typed reading unchanged, and each of them is itself provable against the new root.
   */
  lemma UnknownSlotsAreIgnoredAndProvable(h: Hash, codec: Codec, m: SlotMap, extra: SlotMap, slot: SlotId)
    requires extra.Keys !! STANDARD_SLOTS
    ensures ReadProfile(codec, m + extra) == ReadProfile(codec, m)
    ensures slot in extra ==>
              VerifyMembership(h, ProfileRoot(h, m + extra), slot, extra[slot], FieldProof(h, m + extra, slot))
                == Ok(true)
              || Broken(h, FieldQueries(h, m + extra, slot))
  {
    SameStandardReading(codec, m, m + extra);
    FieldIsProvable(h, m + extra, slot);
  }

  lemma SameStandardReading(codec: Codec, m1: SlotMap, m2: SlotMap)
    requires forall s :: s in STANDARD_SLOTS ==> (s in m1 <==> s in m2) && (s in m1 ==> m1[s] == m2[s])
    ensures ReadProfile(codec, m1) == ReadProfile(codec, m2)
  {
    assert {SCHEMA_VERSION, DISPLAY_NAME, BIO, XCH_ADDRESS, BLS_G1_PUBLIC_KEY, PEER_ID, KEY_EPOCH} <= STANDARD_SLOTS;
  }

  /**
   * The payment-address reader validates the trimmed string but returns the stored one: what it returns
   * is the validated address exactly when the stored string carries no surrounding white space.
   */
  lemma XchAddressIsValidatedIffTrimmed(codec: Codec, m: SlotMap)
    requires XchAddressOf(codec, m).Some?
    ensures var raw := XchAddressOf(codec, m).value;
            && ParseXchAddress(codec, raw) == Some(Trim(raw))
            && (ParseXchAddress(codec, raw) == XchAddressOf(codec, m) <==> SpaceAtStart(raw) == SpaceAtEnd(raw) == 0)
  {
    var raw := XchAddressOf(codec, m).value;
    TrimIsIdempotent(raw);
  }

  /** The slots still to be written are the greatest ones. */
  ghost predicate AscendingRest(m: SlotMap, rest: set<SlotId>) {
    && rest <= m.Keys
    && forall s, t :: s in m.Keys - rest && t in rest ==> s < t
  }

  lemma WritesStart(m: SlotMap)
    ensures AscendingRest(m, m.Keys)
    ensures WritesOf(m - m.Keys) == []
  {
    assert m - m.Keys == map[];
  }

  lemma WritesGrow(m: SlotMap, rest: set<SlotId>, slot: SlotId)
    requires AscendingRest(m, rest) && IsLeast(rest, slot)
    ensures AscendingRest(m, rest - {slot})
    ensures WritesOf(m - (rest - {slot})) == WritesOf(m - rest) + [Setting(slot, m[slot])]
  {
    var next := m - (rest - {slot});
    assert slot in next;
    assert IsGreatest(next.Keys, slot) by {
      forall t | t in next
        ensures t <= slot
      {
        assert t == slot || t in m.Keys - rest;
      }
    }
    assert Greatest(next.Keys) == slot;
    assert next - {slot} == m - rest;
  }

  /** The next slot in ascending order. */
  method NextSlot(rest: set<SlotId>) returns (slot: SlotId)
    requires rest != {}
    ensures IsLeast(rest, slot)
  {
    ghost var least := FindLeast(rest);
    slot :| slot in rest && forall t :: t in rest ==> slot <= t;
  }

  lemma PaddingIsValid(text: Utf8Text, padded: Bytes)
    requires padded == [0x20] + text
    ensures ValidUtf8(padded)
  {
    assert LeadLength(padded) == 1 && padded[1..] == text;
  }

  /** Any valid address stored behind a blank is returned with the blank, not as the validated address. */
  lemma PaddedAddressIsReturned(codec: Codec, m: SlotMap, address: Utf8Text, padded: Bytes)
    requires padded == [0x20] + address && ParseXchAddress(codec, address) == Some(address)
    ensures ValidUtf8(padded)
    ensures XchAddressOf(codec, m[XCH_ADDRESS := Utf8(padded)]) == Some(padded)
    ensures ParseXchAddress(codec, padded) == Some(address)
  {
    PaddingIsValid(address, padded);
    PaddingIsTrimmed(address, padded);
    XchIsExact(codec, address, address);
    XchIsExact(codec, padded, address);
    XchReaderIsExact(codec, m[XCH_ADDRESS := Utf8(padded)], padded);
  }

  lemma PaddingIsTrimmed(s: Bytes, padded: Bytes)
    requires padded == [0x20] + s
    ensures Trim(padded) == Trim(s)
  {
    assert padded[..1] == [0x20] && IsWhiteSpace(padded[..1]);
    assert SpaceAtStart(padded) == 1 && padded[1..] == s;
  }

  class Profile {
    var slots: SlotMap

    constructor ()
      ensures slots == map[]
    {
      slots := map[];
    }

    constructor From(m: SlotMap)
      ensures slots == m
    {
      slots := m;
    }

    constructor WithSchemaV2()
      ensures slots == map[0x0000 := Value.U16(2)]
      ensures SchemaVersionOf(slots) == Some(2)
    {
      slots := map[SCHEMA_VERSION := U16(2)];
    }

    method Set(slot: SlotId, value: Value)
      modifies this
      ensures slots == old(slots)[slot := value]
    {
      slots := slots[slot := value];
    }

    /** Materializes the profile, writing its slots in ascending order. */
    method BuildTree(h: Hash) returns (tree: ProfileTree)
      ensures fresh(tree) && tree.Valid() && tree.h == h
      ensures tree.history == WritesOf(slots)
    {
      tree := new ProfileTree(h);
      var m := slots;
      var rest := m.Keys;
      WritesStart(m);
      while rest != {}
        invariant fresh(tree) && tree.Valid() && tree.h == h
        invariant AscendingRest(m, rest)
        invariant tree.history == WritesOf(m - rest)
        decreases rest
      {
        var slot := NextSlot(rest);
        WritesGrow(m, rest, slot);
        tree.Set(slot, m[slot]);
        rest := rest - {slot};
      }
      assert m - {} == m;
    }

    method BuildRoot(h: Hash) returns (root: Digest)
      ensures root == ProfileRoot(h, slots)
    {
      var tree := BuildTree(h);
      root := tree.Root();
    }
  }
}
