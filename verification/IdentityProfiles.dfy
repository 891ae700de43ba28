/**
 * The managed identity profile: a paired store, pending metadata and a committed root, driven by
 * resolve, set, commit and prove.
 */
module IdentityProfiles {
  import opened Addresses
  import opened ByteStrings
  import opened Hashing
  import opened Pairing
  import opened Profiles
  import opened ProofVerification
  import opened Slots
  import TreeRuns
  import Values

  datatype IdentityState = IdentityState(
    singleton: IdentitySingleton, store: StoreRecord, metadata: SlotMap, root: Digest)

  /** Resolving caller-supplied records: refused unless the store is paired with the singleton. */
  ghost function ResolvedState(
    h: Hash, parse: DidParser, singleton: IdentitySingleton, store: StoreRecord, metadata: SlotMap)
    : (r: Result<IdentityState, Error>)
    ensures r.Ok? <==>
            && parse(store.description) == Some(singleton.did)
            && store.launcherCoin.parentCoinInfo in singleton.lineage.members
    ensures r.Err? ==> r.error == NotAuthoritativeProfile
  {
    if !StoreBelongsToDid(parse, store, singleton) then Err(NotAuthoritativeProfile)
    else Ok(IdentityState(singleton, store, metadata, ProfileRoot(h, metadata)))
  }

  datatype Edit = SetField(slot: SlotId, value: Values.Value) | CommitRoot

  ghost function Apply(h: Hash, st: IdentityState, e: Edit): IdentityState {
    match e
    case SetField(slot, value) => st.(metadata := st.metadata[slot := value])
    case CommitRoot => st.(root := ProfileRoot(h, st.metadata))
  }

  ghost function After(h: Hash, st: IdentityState, es: seq<Edit>): IdentityState {
    if es == [] then st else Apply(h, After(h, st, es[..|es| - 1]), es[|es| - 1])
  }

  // ----- what a run of edits should leave, said without running it -----

  /** The value of a slot: that of the last edit that set it, or the original one. */
  function LastValue(m0: SlotMap, es: seq<Edit>, slot: SlotId): Option<Values.Value> {
    if es == [] then if slot in m0 then Some(m0[slot]) else None
    else if es[|es| - 1].SetField? && es[|es| - 1].slot == slot then Some(es[|es| - 1].value)
    else LastValue(m0, es[..|es| - 1], slot)
  }

  /** How many edits the last commit has behind it, itself included. */
  function LastCommit(es: seq<Edit>): (n: nat)
    ensures n <= |es|
  {
    if es == [] || es[|es| - 1].CommitRoot? then |es| else LastCommit(es[..|es| - 1])
  }

  ghost predicate HoldsLastValues(m: SlotMap, m0: SlotMap, es: seq<Edit>) {
    forall s: SlotId :: LastValue(m0, es, s) == if s in m then Some(m[s]) else None
  }

  /** The metadata at the last commit, or at resolve when nothing was committed. */
  ghost function Snapshot(h: Hash, st: IdentityState, es: seq<Edit>): SlotMap {
    After(h, st, es[..LastCommit(es)]).metadata
  }

  lemma {:induction false} AfterHoldsLastValues(h: Hash, st: IdentityState, es: seq<Edit>)
    ensures HoldsLastValues(After(h, st, es).metadata, st.metadata, es)
  {
    if es != [] {
      AfterHoldsLastValues(h, st, es[..|es| - 1]);
    }
  }

  lemma {:induction false} RootIsLastSnapshot(h: Hash, st: IdentityState, es: seq<Edit>)
    requires st.root == ProfileRoot(h, st.metadata)
    ensures After(h, st, es).root == ProfileRoot(h, Snapshot(h, st, es))
  {
    if es == [] {
    } else if es[|es| - 1].CommitRoot? {
      assert es[..LastCommit(es)] == es;
    } else {
      var front := es[..|es| - 1];
      RootIsLastSnapshot(h, st, front);
      assert es[..LastCommit(es)] == front[..LastCommit(front)];
    }
  }

  lemma {:induction false} RecordsNeverChange(h: Hash, st: IdentityState, es: seq<Edit>)
    ensures After(h, st, es).singleton == st.singleton && After(h, st, es).store == st.store
  {
    if es != [] {
      RecordsNeverChange(h, st, es[..|es| - 1]);
    }
  }

  /**
   * After resolving and any edits the store is still paired, the pending metadata holds the last value
   * set for every slot, and the committed root is that of the metadata at the last commit.
   */
  lemma LifecycleInvariant(
    h: Hash, parse: DidParser, singleton: IdentitySingleton, store: StoreRecord, m0: SlotMap, es: seq<Edit>)
    requires ResolvedState(h, parse, singleton, store, m0).Ok?
    ensures var st := ResolvedState(h, parse, singleton, store, m0).value;
            var now := After(h, st, es);
            && StoreBelongsToDid(parse, now.store, now.singleton)
            && now.singleton == singleton && now.store == store
            && HoldsLastValues(now.metadata, m0, es)
            && now.root == ProfileRoot(h, Snapshot(h, st, es))
            && HoldsLastValues(Snapshot(h, st, es), m0, es[..LastCommit(es)])
  {
    var st := ResolvedState(h, parse, singleton, store, m0).value;
    RecordsNeverChange(h, st, es);
    AfterHoldsLastValues(h, st, es);
    AfterHoldsLastValues(h, st, es[..LastCommit(es)]);
    RootIsLastSnapshot(h, st, es);
  }

  /** What is hashed when the pending field proof is checked and the two roots are audited. */
  ghost function CommitQueries(h: Hash, pending: SlotMap, committed: SlotMap, slot: SlotId): set<Bytes> {
    FieldQueries(h, pending, slot) + ProfileQueries(h, pending, committed)
  }

  /**
   * In every reachable state the proof of any slot, present or absent, verifies against the pending root;
   * and it verifies against the committed root exactly when the pending metadata equals the committed
   * snapshot, so undoing an edit makes it valid again.
   */
  lemma ProofMeetsCommittedRootIffSynced(h: Hash, st: IdentityState, es: seq<Edit>, slot: SlotId)
    requires st.root == ProfileRoot(h, st.metadata)
    ensures var now, snapshot := After(h, st, es), Snapshot(h, st, es);
            var blob, proof := ClaimBlob(now.metadata, slot), FieldProof(h, now.metadata, slot);
            || Broken(h, CommitQueries(h, now.metadata, snapshot, slot))
            || (&& VerifyBlob(h, ProfileRoot(h, now.metadata), slot, blob, proof) == Ok(true)
                && VerifyBlob(h, now.root, slot, blob, proof) == Ok(now.metadata == snapshot))
  {
    var now, snapshot := After(h, st, es), Snapshot(h, st, es);
    var q := CommitQueries(h, now.metadata, snapshot, slot);
    RootIsLastSnapshot(h, st, es);
    FieldIsProvable(h, now.metadata, slot);
    RootBindsProfile(h, now.metadata, snapshot);
    BrokenGrows(h, FieldQueries(h, now.metadata, slot), q);
    BrokenGrows(h, ProfileQueries(h, now.metadata, snapshot), q);
  }

  lemma AfterAppend(h: Hash, st: IdentityState, es: seq<Edit>, e: Edit)
    ensures After(h, st, es + [e]) == Apply(h, After(h, st, es), e)
  {
    assert (es + [e])[..|es|] == es;
  }

  /** A presence proof is given exactly for a set slot, and then verifies against the pending root. */
  ghost predicate AnswersPresence(h: Hash, m: SlotMap, slot: SlotId, r: Result<ProfileProof, Error>) {
    || Broken(h, FieldQueries(h, m, slot))
    || (if slot in m then r.Ok? && VerifyMembership(h, ProfileRoot(h, m), slot, m[slot], r.value) == Ok(true)
        else r == Err(Smt))
  }

  /** An absence proof is given exactly for an unset slot, and then verifies against the pending root. */
  ghost predicate AnswersAbsence(h: Hash, m: SlotMap, slot: SlotId, r: Result<ProfileProof, Error>) {
    || Broken(h, FieldQueries(h, m, slot))
    || (if slot in m then r == Err(Smt)
        else r.Ok? && VerifyNonMembership(h, ProfileRoot(h, m), slot, r.value) == Ok(true))
  }

  class IdentityProfile {
    const h: Hash
    const parse: DidParser
    const singleton: IdentitySingleton
    const store: StoreRecord
    const metadata: Profile
    var root: Digest
    /** The state as resolved, and every edit since, oldest first. */
    ghost const initial: IdentityState
    ghost var edits: seq<Edit>

    ghost function View(): IdentityState
      reads this, metadata
    {
      IdentityState(singleton, store, metadata.slots, root)
    }

    /** The object is what its edits make of a paired store resolved with the root of its metadata. */
    ghost predicate Valid()
      reads this, metadata
    {
      && StoreBelongsToDid(parse, initial.store, initial.singleton)
      && initial.root == ProfileRoot(h, initial.metadata)
      && View() == After(h, initial, edits)
    }

    constructor Paired(
      h: Hash, parse: DidParser, singleton: IdentitySingleton, store: StoreRecord, metadata: Profile, root: Digest)
      requires StoreBelongsToDid(parse, store, singleton) && root == ProfileRoot(h, metadata.slots)
      ensures Valid() && edits == [] && this.h == h && this.parse == parse && this.metadata == metadata
      ensures View() == initial == IdentityState(singleton, store, metadata.slots, root)
    {
      this.h, this.parse := h, parse;
      this.singleton, this.store := singleton, store;
      this.metadata, this.root := metadata, root;
      initial, edits := IdentityState(singleton, store, metadata.slots, root), [];
    }

    /** Takes the metadata by value: the object's `Profile` is its own. */
    static method Resolve(
      h: Hash, parse: DidParser, singleton: IdentitySingleton, store: StoreRecord, metadata: SlotMap)
      returns (r: Result<IdentityProfile, Error>)
      ensures match ResolvedState(h, parse, singleton, store, metadata)
              case Err(e) => r == Err(e)
              case Ok(st) => r.Ok? && fresh(r.value) && fresh(r.value.metadata)
                             && r.value.Valid() && r.value.h == h && r.value.parse == parse
                             && r.value.View() == r.value.initial == st && r.value.edits == []
    {
      if !StoreBelongsToDid(parse, store, singleton) {
        return Err(NotAuthoritativeProfile);
      }
      var own := new Profile.From(metadata);
      var root := own.BuildRoot(h);
      var profile := new IdentityProfile.Paired(h, parse, singleton, store, own, root);
      return Ok(profile);
    }

    /** Edits the pending metadata and returns its root; the committed root stays. */
    method Set(slot: SlotId, value: Values.Value) returns (pending: Digest)
      requires Valid()
      modifies this`edits, metadata
      ensures Valid() && edits == old(edits) + [SetField(slot, value)]
      ensures View() == Apply(h, old(View()), SetField(slot, value))
      ensures pending == ProfileRoot(h, View().metadata)
    {
      metadata.Set(slot, value);
      edits := edits + [SetField(slot, value)];
      AfterAppend(h, initial, old(edits), SetField(slot, value));
      pending := metadata.BuildRoot(h);
    }

    /** Promotes the pending metadata to the committed root. */
    method CommitRoot() returns (committed: Digest)
      requires Valid()
      modifies this`root, this`edits
      ensures Valid() && edits == old(edits) + [Edit.CommitRoot]
      ensures View() == Apply(h, old(View()), Edit.CommitRoot)
      ensures committed == root == ProfileRoot(h, View().metadata)
    {
      root := metadata.BuildRoot(h);
      edits := edits + [Edit.CommitRoot];
      AfterAppend(h, initial, old(edits), Edit.CommitRoot);
      committed := root;
    }

    /** The committed root is that of the metadata at the last commit, or at resolve. */
    method Root() returns (r: Digest)
      requires Valid()
      ensures r == ProfileRoot(h, Snapshot(h, initial, edits))
    {
      RootIsLastSnapshot(h, initial, edits);
      r := root;
    }

    /** Re-checking the pairing never fails. */
    method BelongsToDid() returns (b: bool)
      requires Valid()
      ensures b
    {
      RecordsNeverChange(h, initial, edits);
      b := StoreBelongsToDid(parse, store, singleton);
    }

    /** The proof also verifies against the committed root exactly when nothing is pending. */
    method ProveField(slot: SlotId) returns (r: Result<ProfileProof, Error>)
      requires Valid()
      ensures r == TreeRuns.ProveMembershipIn(h, ProfileLeaves(h, View().metadata), slot)
      ensures AnswersPresence(h, View().metadata, slot, r)
      ensures slot in View().metadata && r.Ok? ==>
                || VerifyMembership(h, root, slot, View().metadata[slot], r.value)
                     == Ok(View().metadata == Snapshot(h, initial, edits))
                || Broken(h, CommitQueries(h, View().metadata, Snapshot(h, initial, edits), slot))
    {
      FieldIsProvable(h, metadata.slots, slot);
      ProofMeetsCommittedRootIffSynced(h, initial, edits, slot);
      var tree := metadata.BuildTree(h);
      r := tree.ProveMembership(slot);
    }

    method ProveFieldAbsent(slot: SlotId) returns (r: Result<ProfileProof, Error>)
      requires Valid()
      ensures r == TreeRuns.ProveNonMembershipIn(h, ProfileLeaves(h, View().metadata), slot)
      ensures AnswersAbsence(h, View().metadata, slot, r)
      ensures slot !in View().metadata && r.Ok? ==>
                || VerifyNonMembership(h, root, slot, r.value) == Ok(View().metadata == Snapshot(h, initial, edits))
                || Broken(h, CommitQueries(h, View().metadata, Snapshot(h, initial, edits), slot))
    {
      FieldIsProvable(h, metadata.slots, slot);
      ProofMeetsCommittedRootIffSynced(h, initial, edits, slot);
      var tree := metadata.BuildTree(h);
      r := tree.ProveNonMembership(slot);
    }

    function Keys(): (keys: DidKeys)
      reads metadata
      ensures keys == ResolveKeys(metadata.slots) && KeysAreThoseOf(metadata.slots, keys)
    {
      KeysReported(metadata.slots);
      ResolveKeys(metadata.slots)
    }
  }
}
