/**
 * What a sequence of writes leaves in a profile tree, and what its root then says: the contents and the
 * root depend only on the last write to each slot, and the root determines those contents.
 */
module TreeRuns {
  import opened ByteStrings
  import opened Hashing
  import opened ProofVerification
  import opened Slots
  import opened SparseMerkle
  import opened Values

  /** One update of the tree. Setting a value writes its encoding, removing a slot writes the empty blob. */
  datatype Write = Write(slot: SlotId, blob: Bytes)

  function Setting(slot: SlotId, value: Value): Write { Write(slot, Encode(value)) }

  function Removing(slot: SlotId): Write { Write(slot, []) }

  function LeafOf(h: Hash, w: Write): LeafValue { LeafValue(SlotKey(h, w.slot), w.blob) }

  /** Updating one leaf; a leaf with the zero digest is no leaf. */
  function PutLeaf(h: Hash, leaves: Leaves, leaf: LeafValue): Leaves {
    var p := PathOf(leaf.slotKey);
    if leaf.ToH256(h) == ZERO then leaves - {p} else leaves[p := leaf]
  }

  /** The leaves after a sequence of writes to the empty tree. */
  function Run(h: Hash, ws: seq<Write>): Leaves {
    if ws == [] then map[] else PutLeaf(h, Run(h, ws[..|ws| - 1]), LeafOf(h, ws[|ws| - 1]))
  }

  /** The effect of one write on the last blobs. */
  function Overwrite(blobs: map<SlotId, Bytes>, w: Write): map<SlotId, Bytes> {
    if w.blob == [] then blobs - {w.slot} else blobs[w.slot := w.blob]
  }

  /** The last blob written to each slot, without the slots removed last. */
  function Final(ws: seq<Write>): map<SlotId, Bytes> {
    if ws == [] then map[]
    else Overwrite(Final(ws[..|ws| - 1]), ws[|ws| - 1])
  }

  function Touched(ws: seq<Write>): set<SlotId> {
    set w | w in ws :: w.slot
  }

  function BlobAt(blobs: map<SlotId, Bytes>, slot: SlotId): Bytes {
    if slot in blobs then blobs[slot] else []
  }

  lemma RunAppend(h: Hash, ws: seq<Write>, w: Write)
    ensures Run(h, ws + [w]) == PutLeaf(h, Run(h, ws), LeafOf(h, w))
    ensures Final(ws + [w]) == Overwrite(Final(ws), w)
    ensures Touched(ws + [w]) == Touched(ws) + {w.slot}
  {
    assert (ws + [w])[..|ws|] == ws;
    assert Touched(ws + [w]) == Touched(ws) + {w.slot} by {
      assert (ws + [w])[|ws|] == w;
      forall s | s in Touched(ws)
        ensures s in Touched(ws + [w])
      {
        var x :| x in ws && x.slot == s;
        assert x in ws + [w];
      }
    }
  }

  lemma {:induction false} FinalIsNonEmptyAndTouched(ws: seq<Write>)
    ensures forall s :: s in Final(ws) ==> Final(ws)[s] != [] && s in Touched(ws)
  {
    if ws != [] {
      var front, last := ws[..|ws| - 1], ws[|ws| - 1];
      FinalIsNonEmptyAndTouched(front);
      RunAppend(_ => ZERO, front, last);
      assert front + [last] == ws;
    }
  }

  // ----- contents against the last writes -----

  function LeafAt(leaves: Leaves, p: Path): Option<LeafValue> {
    if p in leaves then Some(leaves[p]) else None
  }

  /** The leaf a slot should have: bound to its key, and live only when its digest is not zero. */
  function ExpectedLeaf(h: Hash, blobs: map<SlotId, Bytes>, slot: SlotId): Option<LeafValue> {
    var key := SlotKey(h, slot);
    if LeafHash(h, key, BlobAt(blobs, slot)) == ZERO then None else Some(LeafValue(key, BlobAt(blobs, slot)))
  }

  /** Over the given slots the leaves are those of `blobs`, and there are no other leaves. */
  ghost predicate Represents(h: Hash, leaves: Leaves, blobs: map<SlotId, Bytes>, slots: set<SlotId>) {
    && (forall s :: s in slots ==> LeafAt(leaves, SlotPath(h, s)) == ExpectedLeaf(h, blobs, s))
    && (forall p :: p in leaves ==> exists s :: s in slots && SlotPath(h, s) == p)
  }

  lemma DistinctPaths(h: Hash, slots: set<SlotId>, s: SlotId, t: SlotId)
    requires DistinctKeys(h, slots) && s in slots && t in slots
    ensures SlotPath(h, s) == SlotPath(h, t) ==> s == t
  {
    PathDeterminesKey(SlotKey(h, s));
    PathDeterminesKey(SlotKey(h, t));
  }

  lemma PutRepresents(h: Hash, leaves: Leaves, blobs: map<SlotId, Bytes>, w: Write, slots: set<SlotId>)
    requires w.slot in slots && DistinctKeys(h, slots)
    requires Represents(h, leaves, blobs, slots)
    ensures Represents(h, PutLeaf(h, leaves, LeafOf(h, w)), Overwrite(blobs, w), slots)
  {
    var after := PutLeaf(h, leaves, LeafOf(h, w));
    forall s | s in slots
      ensures LeafAt(after, SlotPath(h, s)) == ExpectedLeaf(h, Overwrite(blobs, w), s)
    {
      assert LeafAt(leaves, SlotPath(h, s)) == ExpectedLeaf(h, blobs, s);
      if s == w.slot {
        assert BlobAt(Overwrite(blobs, w), s) == w.blob;
      } else {
        DistinctPaths(h, slots, s, w.slot);
        assert BlobAt(Overwrite(blobs, w), s) == BlobAt(blobs, s);
      }
    }
    forall p | p in after
      ensures exists s :: s in slots && SlotPath(h, s) == p
    {
      assert p in leaves || p == SlotPath(h, w.slot);
    }
  }

  lemma {:induction false} RunRepresents(h: Hash, ws: seq<Write>, slots: set<SlotId>)
    requires Touched(ws) <= slots && DistinctKeys(h, slots)
    ensures Represents(h, Run(h, ws), Final(ws), slots)
  {
    if ws != [] {
      var front, last := ws[..|ws| - 1], ws[|ws| - 1];
      RunAppend(h, front, last);
      assert front + [last] == ws;
      RunRepresents(h, front, slots);
      PutRepresents(h, Run(h, front), Final(front), last, slots);
    }
  }

  lemma RepresentationUnique(h: Hash, l1: Leaves, l2: Leaves, blobs: map<SlotId, Bytes>, slots: set<SlotId>)
    requires Represents(h, l1, blobs, slots) && Represents(h, l2, blobs, slots)
    ensures l1 == l2
  {
    forall p: Path
      ensures LeafAt(l1, p) == LeafAt(l2, p)
    {
      if s :| s in slots && SlotPath(h, s) == p {
        assert LeafAt(l1, SlotPath(h, s)) == LeafAt(l2, SlotPath(h, s));
      }
    }
    forall p | p in l1 || p in l2
      ensures p in l1 && p in l2 && l1[p] == l2[p]
    {
      assert LeafAt(l1, p) == LeafAt(l2, p);
    }
  }

  /** Order and overwritten values do not matter: equal final contents give equal leaves and roots. */
  lemma HistoryIndependent(h: Hash, ws1: seq<Write>, ws2: seq<Write>)
    requires Final(ws1) == Final(ws2)
    ensures (Run(h, ws1) == Run(h, ws2) && RootOf(h, Run(h, ws1)) == RootOf(h, Run(h, ws2)))
         || Broken(h, SlotQueries(Touched(ws1) + Touched(ws2)))
  {
    var slots := Touched(ws1) + Touched(ws2);
    KeysDistinctOrBroken(h, slots);
    if DistinctKeys(h, slots) {
      RunRepresents(h, ws1, slots);
      RunRepresents(h, ws2, slots);
      RepresentationUnique(h, Run(h, ws1), Run(h, ws2), Final(ws1), slots);
    }
  }

  /** Removing a slot restores the root of the tree without it. */
  lemma RemoveRestores(h: Hash, ws: seq<Write>, slot: SlotId, blob: Bytes)
    requires slot !in Final(ws)
    ensures RootOf(h, Run(h, ws + [Write(slot, blob)] + [Removing(slot)])) == RootOf(h, Run(h, ws))
         || Broken(h, SlotQueries(Touched(ws) + {slot}))
  {
    var once := ws + [Write(slot, blob)];
    RunAppend(h, ws, Write(slot, blob));
    RunAppend(h, once, Removing(slot));
    assert Touched(once + [Removing(slot)]) + Touched(ws) == Touched(ws) + {slot};
    HistoryIndependent(h, once + [Removing(slot)], ws);
  }

  /** A tree whose every slot was removed has the all-zero root. */
  lemma EmptiedTreeHasZeroRoot(h: Hash, ws: seq<Write>)
    requires Final(ws) == map[]
    ensures RootOf(h, Run(h, ws)) == ZERO || Broken(h, SlotQueries(Touched(ws)))
  {
    assert Touched(ws) + Touched([]) == Touched(ws);
    HistoryIndependent(h, ws, []);
    EmptyRoot(h);
  }

  // ----- reading -----

  /** The encoded value at a slot, or `None` when absent. */
  function GetEncodedIn(h: Hash, leaves: Leaves, slot: SlotId): Option<Bytes> {
    var p := SlotPath(h, slot);
    if p in leaves && leaves[p].encoded != [] then Some(leaves[p].encoded) else None
  }

  function GetIn(h: Hash, leaves: Leaves, slot: SlotId): Result<Option<Value>, Error> {
    match GetEncodedIn(h, leaves, slot)
    case None => Ok(None)
    case Some(blob) =>
      match Decode(blob)
      case Ok(v) => Ok(Some(v))
      case Err(e) => Err(e)
  }

  /** The inputs hashed to place the written slots and to hash the blob `slot` ends with. */
  function ReadQueries(h: Hash, ws: seq<Write>, slot: SlotId): set<Bytes> {
    SlotQueries(Touched(ws) + {slot}) + LeafQueries(SlotKey(h, slot), BlobAt(Final(ws), slot))
  }

  /** Reading a slot gives the last blob written to it, whatever was written to other slots. */
  lemma ReadAfterRun(h: Hash, ws: seq<Write>, slot: SlotId)
    ensures GetEncodedIn(h, Run(h, ws), slot) == (if slot in Final(ws) then Some(Final(ws)[slot]) else None)
         || Broken(h, ReadQueries(h, ws, slot))
  {
    var slots, q := Touched(ws) + {slot}, ReadQueries(h, ws, slot);
    KeysDistinctOrBroken(h, slots);
    BrokenGrows(h, SlotQueries(slots), q);
    if DistinctKeys(h, slots) {
      RunRepresents(h, ws, slots);
      FinalIsNonEmptyAndTouched(ws);
      var key, blob := SlotKey(h, slot), BlobAt(Final(ws), slot);
      assert LeafAt(Run(h, ws), SlotPath(h, slot)) == ExpectedLeaf(h, Final(ws), slot);
      if blob != [] && LeafHash(h, key, blob) == ZERO {
        assert LeafPreimage(key, blob) in q && HitsZero(h, LeafPreimage(key, blob));
      }
    }
  }

  lemma {:induction false} UntouchedKeepsBlob(ws: seq<Write>, later: seq<Write>, slot: SlotId)
    requires slot !in Touched(later)
    ensures slot in Final(ws + later) <==> slot in Final(ws)
    ensures BlobAt(Final(ws + later), slot) == BlobAt(Final(ws), slot)
  {
    if later == [] {
      assert ws + later == ws;
    } else {
      var front, last := later[..|later| - 1], later[|later| - 1];
      assert front + [last] == later && ws + later == (ws + front) + [last];
      RunAppend(_ => ZERO, front, last);
      UntouchedKeepsBlob(ws, front, slot);
      RunAppend(_ => ZERO, ws + front, last);
    }
  }

  /** What a typed read should report, from the writes alone: absence, or the last blob decoded. */
  function TypedRead(ws: seq<Write>, slot: SlotId): Result<Option<Value>, Error> {
    if slot !in Final(ws) then Ok(None)
    else
      match Decode(Final(ws)[slot])
      case Ok(v) => Ok(Some(v))
      case Err(e) => Err(e)
  }

  /**
   * After setting a value and any writes to other slots, a typed read gives the value back, or the
   * length mismatch its too long payload causes.
   */
  lemma TypedReadAfterSet(h: Hash, ws: seq<Write>, slot: SlotId, v: Value, later: seq<Write>)
    requires slot !in Touched(later)
    ensures var run := ws + [Setting(slot, v)] + later;
            GetIn(h, Run(h, run), slot) ==
              (if |v.Payload()| < LENGTH_LIMIT then Ok(Some(v))
               else Err(LengthMismatch(|v.Payload()| % LENGTH_LIMIT, |v.Payload()|)))
            || Broken(h, ReadQueries(h, run, slot))
  {
    var run := ws + [Setting(slot, v)] + later;
    RunAppend(h, ws, Setting(slot, v));
    UntouchedKeepsBlob(ws + [Setting(slot, v)], later, slot);
    ReadAfterRun(h, run, slot);
    DecodeEncode(v);
  }

  /** After removing a slot and any writes to other slots, a typed read finds nothing. */
  lemma TypedReadAfterRemove(h: Hash, ws: seq<Write>, slot: SlotId, later: seq<Write>)
    requires slot !in Touched(later)
    ensures var run := ws + [Removing(slot)] + later;
            GetIn(h, Run(h, run), slot) == Ok(None) || Broken(h, ReadQueries(h, run, slot))
  {
    RunAppend(h, ws, Removing(slot));
    UntouchedKeepsBlob(ws + [Removing(slot)], later, slot);
    ReadAfterRun(h, ws + [Removing(slot)] + later, slot);
  }

  // ----- proving -----

  function ProofIn(h: Hash, leaves: Leaves, slot: SlotId): ProfileProof {
    Siblings(h, leaves, SlotPath(h, slot))
  }

  /** The blob a slot is read with, empty when absent. */
  function ReadBlob(h: Hash, leaves: Leaves, slot: SlotId): Bytes {
    match GetEncodedIn(h, leaves, slot)
    case None => []
    case Some(blob) => blob
  }

  /** Every leaf lies at the path of the key it is bound to and is live. */
  ghost predicate WellKeyed(h: Hash, leaves: Leaves) {
    forall p :: p in leaves ==> PathOf(leaves[p].slotKey) == p && leaves[p].ToH256(h) != ZERO
  }

  lemma {:induction false} RunWellKeyed(h: Hash, ws: seq<Write>)
    ensures WellKeyed(h, Run(h, ws))
  {
    if ws != [] {
      RunWellKeyed(h, ws[..|ws| - 1]);
    }
  }

  lemma LeafIsReadBlob(h: Hash, leaves: Leaves, slot: SlotId)
    requires WellKeyed(h, leaves)
    ensures LeafDigest(h, leaves, SlotPath(h, slot)) == LeafHash(h, SlotKey(h, slot), ReadBlob(h, leaves, slot))
  {
    var p := SlotPath(h, slot);
    if p in leaves {
      PathDeterminesKey(leaves[p].slotKey);
      PathDeterminesKey(SlotKey(h, slot));
    }
  }

  /** The tree's proof for a slot verifies for exactly what reading the slot reports, with no exception. */
  lemma ProofVerifiesRead(h: Hash, leaves: Leaves, slot: SlotId)
    requires WellKeyed(h, leaves)
    ensures VerifyBlob(h, RootOf(h, leaves), slot, ReadBlob(h, leaves, slot), ProofIn(h, leaves, slot)) == Ok(true)
  {
    LeafIsReadBlob(h, leaves, slot);
    FoldReachesRoot(h, leaves, SlotPath(h, slot));
  }

  /** Any other claim about the slot that the root accepts, with any proof, breaks the hash. */
  lemma OnlyReadIsProvable(h: Hash, leaves: Leaves, slot: SlotId, blob: Bytes, proof: ProfileProof)
    requires WellKeyed(h, leaves)
    requires VerifyBlob(h, RootOf(h, leaves), slot, blob, proof) == Ok(true)
    ensures blob == ReadBlob(h, leaves, slot)
         || Broken(h, ConflictInputs(h, slot, ReadBlob(h, leaves, slot), ProofIn(h, leaves, slot), blob, proof))
  {
    ProofVerifiesRead(h, leaves, slot);
    RootFixesSlot(h, RootOf(h, leaves), slot, ReadBlob(h, leaves, slot), ProofIn(h, leaves, slot), blob, proof);
  }

  function ProveMembershipIn(h: Hash, leaves: Leaves, slot: SlotId): Result<ProfileProof, Error> {
    if GetEncodedIn(h, leaves, slot).Some? then Ok(ProofIn(h, leaves, slot)) else Err(Smt)
  }

  function ProveNonMembershipIn(h: Hash, leaves: Leaves, slot: SlotId): Result<ProfileProof, Error> {
    if GetEncodedIn(h, leaves, slot).None? then Ok(ProofIn(h, leaves, slot)) else Err(Smt)
  }

  /** In every reachable tree and for every slot exactly one prover succeeds, and its proof verifies. */
  lemma ExactlyOneProver(h: Hash, ws: seq<Write>, slot: SlotId)
    ensures var leaves := Run(h, ws);
            var present, absent := ProveMembershipIn(h, leaves, slot), ProveNonMembershipIn(h, leaves, slot);
            && (present.Ok? <==> absent.Err?)
            && (present.Ok? ==>
                  VerifyBlob(h, RootOf(h, leaves), slot, ReadBlob(h, leaves, slot), present.value) == Ok(true))
            && (absent.Ok? ==> VerifyNonMembership(h, RootOf(h, leaves), slot, absent.value) == Ok(true))
  {
    RunWellKeyed(h, ws);
    ProvedAsRead(h, Run(h, ws), RootOf(h, Run(h, ws)), slot);
  }

  lemma ProvedAsRead(h: Hash, leaves: Leaves, root: Digest, slot: SlotId)
    requires WellKeyed(h, leaves) && root == RootOf(h, leaves)
    ensures VerifyBlob(h, root, slot, ReadBlob(h, leaves, slot), ProofIn(h, leaves, slot)) == Ok(true)
    ensures ReadBlob(h, leaves, slot) == [] ==> VerifyNonMembership(h, root, slot, ProofIn(h, leaves, slot)) == Ok(true)
  {
    ProofVerifiesRead(h, leaves, slot);
  }

  /** Where one prover succeeds, no proof whatever of the opposite claim verifies, or the hash broke. */
  lemma OppositeClaimRejected(h: Hash, ws: seq<Write>, slot: SlotId, blob: Bytes, proof: ProfileProof)
    requires ProveMembershipIn(h, Run(h, ws), slot).Ok? <==> blob == []
    requires VerifyBlob(h, RootOf(h, Run(h, ws)), slot, blob, proof) == Ok(true)
    ensures Broken(h, ConflictInputs(h, slot, ReadBlob(h, Run(h, ws), slot), ProofIn(h, Run(h, ws), slot), blob, proof))
  {
    RunWellKeyed(h, ws);
    OnlyReadIsProvable(h, Run(h, ws), slot, blob, proof);
  }

  // ----- the root determines the contents -----

  /** What verifying the tree's own proof for `slot` hashes. */
  function AuditQueries(h: Hash, ws: seq<Write>, slot: SlotId): set<Bytes> {
    VerifyQueries(h, slot, BlobAt(Final(ws), slot), ProofIn(h, Run(h, ws), slot))
  }

  /** The audits of every written slot, for both of two runs. */
  function BindingQueries(h: Hash, ws1: seq<Write>, ws2: seq<Write>): set<Bytes> {
    UnionOver(Touched(ws1) + Touched(ws2), (s: SlotId) => AuditQueries(h, ws1, s) + AuditQueries(h, ws2, s))
  }

  function UnionOver(slots: set<SlotId>, queries: SlotId -> set<Bytes>): set<Bytes> {
    set s, b | s in slots && b in queries(s) :: b
  }

  lemma InUnion(slots: set<SlotId>, queries: SlotId -> set<Bytes>, slot: SlotId)
    requires slot in slots
    ensures queries(slot) <= UnionOver(slots, queries)
  {}

  /** Over inputs on which the hash holds, a slot is read, and proved, as it was last written. */
  lemma AuditVerifies(h: Hash, ws: seq<Write>, slot: SlotId, q: set<Bytes>)
    requires SlotQueries(Touched(ws) + {slot}) <= q && AuditQueries(h, ws, slot) <= q
    requires !Broken(h, q)
    ensures ReadBlob(h, Run(h, ws), slot) == BlobAt(Final(ws), slot)
    ensures var leaves := Run(h, ws);
            VerifyBlob(h, RootOf(h, leaves), slot, BlobAt(Final(ws), slot), ProofIn(h, leaves, slot)) == Ok(true)
  {
    BrokenGrows(h, ReadQueries(h, ws, slot), q);
    ReadAfterRun(h, ws, slot);
    RunWellKeyed(h, ws);
    ProofVerifiesRead(h, Run(h, ws), slot);
  }

  lemma AuditsInBinding(h: Hash, ws1: seq<Write>, ws2: seq<Write>, slot: SlotId)
    requires slot in Touched(ws1) + Touched(ws2)
    ensures AuditQueries(h, ws1, slot) <= BindingQueries(h, ws1, ws2)
    ensures AuditQueries(h, ws2, slot) <= BindingQueries(h, ws1, ws2)
  {
    var audits := (s: SlotId) => AuditQueries(h, ws1, s) + AuditQueries(h, ws2, s);
    InUnion(Touched(ws1) + Touched(ws2), audits, slot);
    assert audits(slot) == AuditQueries(h, ws1, slot) + AuditQueries(h, ws2, slot);
  }

  lemma SlotsInBinding(h: Hash, ws1: seq<Write>, ws2: seq<Write>)
    ensures SlotQueries(Touched(ws1) + Touched(ws2)) <= BindingQueries(h, ws1, ws2)
  {
    forall s | s in Touched(ws1) + Touched(ws2)
      ensures SlotPreimage(s) in BindingQueries(h, ws1, ws2)
    {
      assert SlotPreimage(s) in AuditQueries(h, ws1, s);
      AuditsInBinding(h, ws1, ws2, s);
    }
  }

  lemma SameBlob(h: Hash, ws1: seq<Write>, ws2: seq<Write>, s: SlotId, q: set<Bytes>)
    requires RootOf(h, Run(h, ws1)) == RootOf(h, Run(h, ws2))
    requires SlotQueries(Touched(ws1) + {s}) <= q && SlotQueries(Touched(ws2) + {s}) <= q
    requires AuditQueries(h, ws1, s) <= q && AuditQueries(h, ws2, s) <= q
    requires !Broken(h, q)
    ensures BlobAt(Final(ws1), s) == BlobAt(Final(ws2), s)
  {
    var b1, b2 := BlobAt(Final(ws1), s), BlobAt(Final(ws2), s);
    var proof1, proof2 := ProofIn(h, Run(h, ws1), s), ProofIn(h, Run(h, ws2), s);
    AuditVerifies(h, ws1, s, q);
    AuditVerifies(h, ws2, s, q);
    RootFixesSlot(h, RootOf(h, Run(h, ws1)), s, b1, proof1, b2, proof2);
    BrokenGrows(h, ConflictInputs(h, s, b1, proof1, b2, proof2), q);
  }

  lemma SameBlobsSameFinal(ws1: seq<Write>, ws2: seq<Write>)
    requires forall s :: s in Touched(ws1) + Touched(ws2) ==> BlobAt(Final(ws1), s) == BlobAt(Final(ws2), s)
    ensures Final(ws1) == Final(ws2)
  {
    FinalIsNonEmptyAndTouched(ws1);
    FinalIsNonEmptyAndTouched(ws2);
    assert forall s :: s in Final(ws1) || s in Final(ws2) ==> BlobAt(Final(ws1), s) == BlobAt(Final(ws2), s);
  }

  lemma SameBlobInBinding(h: Hash, ws1: seq<Write>, ws2: seq<Write>, s: SlotId)
    requires RootOf(h, Run(h, ws1)) == RootOf(h, Run(h, ws2))
    requires s in Touched(ws1) + Touched(ws2)
    requires !Broken(h, BindingQueries(h, ws1, ws2))
    ensures BlobAt(Final(ws1), s) == BlobAt(Final(ws2), s)
  {
    SlotsInBinding(h, ws1, ws2);
    AuditsInBinding(h, ws1, ws2, s);
    SameBlob(h, ws1, ws2, s, BindingQueries(h, ws1, ws2));
  }

  /** Two runs with one root wrote the same final contents, or the hash broke while auditing them. */
  lemma RootBindsContents(h: Hash, ws1: seq<Write>, ws2: seq<Write>)
    requires RootOf(h, Run(h, ws1)) == RootOf(h, Run(h, ws2))
    ensures Final(ws1) == Final(ws2) || Broken(h, BindingQueries(h, ws1, ws2))
  {
    if !Broken(h, BindingQueries(h, ws1, ws2)) {
      forall s | s in Touched(ws1) + Touched(ws2)
        ensures BlobAt(Final(ws1), s) == BlobAt(Final(ws2), s)
      {
        SameBlobInBinding(h, ws1, ws2, s);
      }
      SameBlobsSameFinal(ws1, ws2);
    }
  }
}
