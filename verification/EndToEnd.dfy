/** From a DID string to one key: what a resolved key means against the on-chain root. */
module EndToEnd {
  import opened Addresses
  import opened ByteStrings
  import opened ChainRuns
  import opened Hashing
  import opened IdentityProfiles
  import Pairing
  import opened Profiles
  import opened ProofVerification
  import opened Resolution
  import opened Slots
  import opened Values

  /** `value` and nothing else is accepted for `slot` against `root`, unless the hash broke on what was hashed. */
  ghost predicate CommitsExactly(h: Hash, root: Digest, m: SlotMap, slot: SlotId, value: Value) {
    && (VerifyMembership(h, root, slot, value, FieldProof(h, m, slot)) == Ok(true)
        || Broken(h, FieldQueries(h, m, slot)))
    && (forall other, proof :: VerifyMembership(h, root, slot, other, proof) == Ok(true) ==>
          other == value || Broken(h, RivalQueries(h, m, slot, Encode(other), proof)))
    && (forall proof :: VerifyNonMembership(h, root, slot, proof) == Ok(true) ==>
          Broken(h, RivalQueries(h, m, slot, [], proof)))
  }

  /** A profile's root commits exactly to each of its fields. */
  lemma ProfileCommitsExactly(h: Hash, m: SlotMap, slot: SlotId)
    requires slot in m
    ensures CommitsExactly(h, ProfileRoot(h, m), m, slot, m[slot])
  {
    FieldIsProvable(h, m, slot);
    forall other, proof | VerifyMembership(h, ProfileRoot(h, m), slot, other, proof) == Ok(true)
      ensures other == m[slot] || Broken(h, RivalQueries(h, m, slot, Encode(other), proof))
    {
      OnlyFieldIsProvable(h, m, slot, Encode(other), proof);
      if Encode(other) == Encode(m[slot]) {
        EncodeInjective(other, m[slot]);
      }
    }
    forall proof | VerifyNonMembership(h, ProfileRoot(h, m), slot, proof) == Ok(true)
      ensures Broken(h, RivalQueries(h, m, slot, [], proof))
    {
      OnlyFieldIsProvable(h, m, slot, [], proof);
    }
  }

  /**
   * A key that resolution returns is the 48-byte value that slot 0x0010 is provably committed to by the
   * root of the one authoritative candidate, and no other value of the slot, nor its absence, verifies.
   */
  lemma ResolvedKeyIsTheCommittedKey(h: Hash, parse: DidParser, uri: Bytes, source: ChainSource, key: Bytes)
    returns (p: IdentityState, cs: Candidates, i: nat)
    requires BlsKeyOf(h, parse, uri, source) == Ok(key)
    ensures ResolvesTo(h, parse, uri, source, p, cs, i)
    ensures |key| == 48
    ensures CommitsExactly(h, cs[i].rootHash, p.metadata, BLS_G1_PUBLIC_KEY, Value.Bytes(key))
  {
    p := ResolutionOf(h, parse, uri, source).value;
    cs, i := ResolvedOnlyIf(h, parse, uri, source, p);
    ProfileCommitsExactly(h, p.metadata, BLS_G1_PUBLIC_KEY);
  }

  /**
   * When resolution reports that no key is published, no 48-byte value whatever verifies in slot 0x0010
   * against the root of the one authoritative candidate.
   */
  lemma NoKeyMeansNoneVerifies(h: Hash, parse: DidParser, uri: Bytes, source: ChainSource)
    returns (p: IdentityState, cs: Candidates, i: nat)
    requires BlsKeyOf(h, parse, uri, source) == Err(NoIdentityKey)
    ensures ResolvesTo(h, parse, uri, source, p, cs, i)
    ensures forall key: Bytes, proof ::
              |key| == 48
              && VerifyMembership(h, cs[i].rootHash, BLS_G1_PUBLIC_KEY, Value.Bytes(key), proof) == Ok(true) ==>
                Broken(h, RivalQueries(h, p.metadata, BLS_G1_PUBLIC_KEY, Encode(Value.Bytes(key)), proof))
  {
    p := ResolutionOf(h, parse, uri, source).value;
    cs, i := ResolvedOnlyIf(h, parse, uri, source, p);
    forall key: Bytes, proof |
      |key| == 48 && VerifyMembership(h, cs[i].rootHash, BLS_G1_PUBLIC_KEY, Value.Bytes(key), proof) == Ok(true)
      ensures Broken(h, RivalQueries(h, p.metadata, BLS_G1_PUBLIC_KEY, Encode(Value.Bytes(key)), proof))
    {
      UnpublishedKeyFails(h, p.metadata, key, proof);
    }
  }

  lemma UnpublishedKeyFails(h: Hash, m: SlotMap, key: Bytes, proof: ProfileProof)
    requires ResolveKeys(m).blsG1PublicKey.None? && |key| == 48
    requires VerifyMembership(h, ProfileRoot(h, m), BLS_G1_PUBLIC_KEY, Value.Bytes(key), proof) == Ok(true)
    ensures Broken(h, RivalQueries(h, m, BLS_G1_PUBLIC_KEY, Encode(Value.Bytes(key)), proof))
  {
    OnlyFieldIsProvable(h, m, BLS_G1_PUBLIC_KEY, Encode(Value.Bytes(key)), proof);
    if BLS_G1_PUBLIC_KEY in m && Encode(m[BLS_G1_PUBLIC_KEY]) == Encode(Value.Bytes(key)) {
      EncodeInjective(m[BLS_G1_PUBLIC_KEY], Value.Bytes(key));
      assert false;
    }
  }

  /**
   * The same in every state of every chain run read honestly: the DID is alive, the key is committed to
   * by the current root of its one live profile store, and that store was launched by the DID itself.
   */
  lemma ResolvedKeyOverRun(
    h: Hash, parse: DidParser, uri: Bytes, did: Did, first: Digest, steps: seq<Step>, c: ChainState,
    source: ChainSource, order: seq<nat>, key: Bytes)
    returns (i: nat, m: SlotMap)
    requires parse(uri) == Some(did) && did.launcherId != first
    requires IsRun(Genesis(did.launcherId, first), steps, c) && Honest(parse, c, did, source, order)
    requires BlsKeyOf(h, parse, uri, source) == Ok(key)
    ensures c.live && IsOnlyProfileStore(parse, c, Launches(steps), did, i)
    ensures source.fetchProfile(c.stores[i].record, c.stores[i].root) == Ok(m)
    ensures c.stores[i].root == ProfileRoot(h, m)
    ensures CommitsExactly(h, c.stores[i].root, m, BLS_G1_PUBLIC_KEY, Value.Bytes(key))
  {
    ResolutionOverRun(h, parse, uri, did, first, steps, c, source, order);
    i := OnlyStoreOfSuccess(h, parse, c, Launches(steps), did, source, ResolutionOf(h, parse, uri, source));
    m := ResolutionOf(h, parse, uri, source).value.metadata;
    ProfileCommitsExactly(h, m, BLS_G1_PUBLIC_KEY);
  }

  lemma OnlyStoreOfSuccess(
    h: Hash, parse: DidParser, c: ChainState, launches: seq<Step>, did: Did, source: ChainSource,
    r: Result<IdentityState, ResolveError>)
    returns (i: nat)
    requires c.walk != [] && ExpectedChoice(h, parse, c, launches, did, source, r) && r.Ok?
    ensures IsOnlyProfileStore(parse, c, launches, did, i)
    ensures r == BindRoot(h, Pairing.IdentitySingleton(did, c.Lineage()), StateOf(c.stores[i]), source)
  {
    NoneOnlyOrSeveral(parse, c, launches, did);
    i :| IsOnlyProfileStore(parse, c, launches, did, i);
  }
}
