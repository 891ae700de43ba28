/** Composed verification: a field, or its absence, belongs to a DID. */
module FieldVerification {
  import Addresses
  import opened ByteStrings
  import opened Hashing
  import opened Pairing
  import opened ProofVerification
  import Slots
  import opened Values

  /** What a composed verification must answer, given its two independent checks. */
  predicate AcceptsOnlyWhenBothHold(paired: bool, proved: Result<bool, Error>, answer: Result<bool, Error>) {
    && answer != Ok(false)
    && (answer == Ok(true) <==> paired && proved == Ok(true))
    && (answer == Err(NotAuthoritativeProfile) <==> !paired)
    && (answer == Err(FieldProofRejected) <==> paired && proved == Ok(false))
    && (answer == Err(Smt) <==> paired && proved.Err?)
  }

  /** Accept-only: never `Ok(false)`, and accepting needs both links and the proof. */
  function VerifyProfileFieldForDid(
    h: Hash, parse: Addresses.DidParser, singleton: IdentitySingleton, store: StoreRecord, root: Digest,
    slot: Slots.SlotId, value: Value, proof: ProfileProof): (r: Result<bool, Error>)
    ensures AcceptsOnlyWhenBothHold(StoreBelongsToDid(parse, store, singleton),
                                    VerifyMembership(h, root, slot, value, proof), r)
  {
    if !StoreBelongsToDid(parse, store, singleton) then Err(NotAuthoritativeProfile)
    else
      match VerifyMembership(h, root, slot, value, proof)
      case Err(e) => Err(e)
      case Ok(accepted) => if !accepted then Err(FieldProofRejected) else Ok(true)
  }

  /** The same for the absence of a slot. */
  function VerifyProfileFieldAbsentForDid(
    h: Hash, parse: Addresses.DidParser, singleton: IdentitySingleton, store: StoreRecord, root: Digest,
    slot: Slots.SlotId, proof: ProfileProof): (r: Result<bool, Error>)
    ensures AcceptsOnlyWhenBothHold(StoreBelongsToDid(parse, store, singleton),
                                    VerifyNonMembership(h, root, slot, proof), r)
  {
    if !StoreBelongsToDid(parse, store, singleton) then Err(NotAuthoritativeProfile)
    else
      match VerifyNonMembership(h, root, slot, proof)
      case Err(e) => Err(e)
      case Ok(accepted) => if !accepted then Err(FieldProofRejected) else Ok(true)
  }

  /** For one DID, store, root and slot the accepted answers agree, or the hash broke on at most two inputs. */
  lemma AcceptedAnswersAgree(
    h: Hash, parse: Addresses.DidParser, singleton: IdentitySingleton, store: StoreRecord, root: Digest,
    slot: Slots.SlotId, v1: Value, proof1: ProfileProof, v2: Value, proof2: ProfileProof)
    requires VerifyProfileFieldForDid(h, parse, singleton, store, root, slot, v1, proof1) == Ok(true)
    ensures VerifyProfileFieldForDid(h, parse, singleton, store, root, slot, v2, proof2) == Ok(true) ==>
              v1 == v2 || Broken(h, ConflictInputs(h, slot, Encode(v1), proof1, Encode(v2), proof2))
    ensures VerifyProfileFieldAbsentForDid(h, parse, singleton, store, root, slot, proof2) == Ok(true) ==>
              Broken(h, ConflictInputs(h, slot, Encode(v1), proof1, [], proof2))
  {
    if VerifyProfileFieldForDid(h, parse, singleton, store, root, slot, v2, proof2) == Ok(true) {
      RootFixesValue(h, root, slot, v1, proof1, v2, proof2);
    }
    if VerifyProfileFieldAbsentForDid(h, parse, singleton, store, root, slot, proof2) == Ok(true) {
      RootFixesPresence(h, root, slot, v1, proof1, proof2);
    }
  }
}
