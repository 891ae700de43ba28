# dig-identity: a verified model

dig-identity defines a *profile*, a map from 16-bit slot ids to typed values, and commits to it with one
32-byte sparse-merkle root. Single fields are proved present or absent against that root alone, and a DID
is resolved to the one on-chain store that is its authoritative profile. This project models that crate
and proves what the commitment binds, what a proof means, what the managed profile object keeps over its
whole life, what resolution returns over every run of the chain, and who may advance a store's root.

## How the claims about hashing are stated

sha256 is a parameter `h`, an arbitrary function from byte strings to 32-byte strings. Nothing is assumed
about it, so every theorem holds of every such function. A theorem that a cryptographer would state "for a
collision-resistant hash" is stated here as

    the claim holds, or Broken(h, q)

`Broken(h, q)` says that among the inputs in the finite set `q` two different ones have one digest, or a
non-empty one has the all-zero digest (which stands for "no leaf"). A collision of some kind always exists
somewhere, so what gives these statements content is `q`: it is always the set of inputs hashed by the
very computations the theorem speaks of (`VerifyQueries`, `ReadQueries`, `FieldQueries`, ...). For two
conflicting proofs the function `ConflictInputs` computes the at most two inputs on which the hash broke.

## The parts

- `ByteStrings`, `Unicode`, `Values`: big-endian integers, UTF-8 and the `tag, length, payload` codec, down to
  the literal bytes.
- `Hashing`, `Slots`: leaf hashing, the incremental hasher, slot keys.
- `SparseMerkle`: the 256-level tree as a recursive function of its leaves, and the verifier's fold.
- `ProofVerification`: root-only verification, for any root at all. `LeafBranchOverlap`: when a leaf and a
  branch are hashed from one input.
- `TreeRuns`: what a sequence of writes leaves, reads and proves; `ProfileTrees`: the mutable tree, whose
  branch store is updated in place along one path and is proved to be the recursive tree.
- `Profiles`: the slot map, its root and its typed readers. `IdentityProfiles`: resolve, set, commit, prove.
- `Trimming`, `Addresses`, `Pairing`: DID and address strings over an abstract bech32m codec, and the pairing predicate.
- `Filtering`, `Resolution`: resolving a DID; `ChainRuns`: the chain behind an honest reader as a
  transition system; `EndToEnd`: what a resolved key means against the on-chain root; `Publishing`: what is
  written on chain is what every honest reader resolves.
- `FieldVerification`: the composed per-field check. `UpdateAuthority`: delegations over runs.

The tree crate itself is not part of this model. It is taken to meet the contract the source states:
a leaf is folded from height 0 to 256, a zero leaf is no leaf, a branch hash covers a prefix, the height,
the node key and both child digests, and the empty tree has the zero root. Two empty children merge to an
empty node; any other pair is hashed, once per level.

## Where code and documentation disagree

- `Profile::xch_address` is documented to return a canonical address that is safe to pay to
  (`src/profile.rs:74-78`). It validates the trimmed string but returns the stored one.
  `Profiles.XchAddressIsValidatedIffTrimmed` gives the exact condition under which the returned string is
  the validated address, `Profiles.PaddedAddressIsReturned` a family of stored strings for which it is not.
- `src/hash.rs:21-24` says that no branch input carries a slot key, so binding the key separates leaf from
  branch inputs by itself. It does not for every slot. `LeafBranchOverlap.SlotOverlapsIff` says, for every
  hash and slot, exactly when some value of the slot has a branch input as its leaf input: the first byte of
  the slot key is at most 248 and the key's other bits up to that height are clear. Under sha256 there are
  262 such slots, none of them standard; the first is 0x0040, whose key starts with the bytes 01 50
  (`LeafBranchOverlap.Slot0040Overlaps`). `LeafBranchOverlap.ValueOverlapsIff` says which values: those of
  exactly 60 payload bytes. Soundness does not rest on the separation: inputs are only ever compared at
  equal heights.

## Model

| member | source | states |
|---|---|---|
| ByteStrings.ReadBackBigEndian | src/value.rs:79-91 | a number that fits its field is read back from its big-endian bytes |
| ByteStrings.WriteBackBigEndian | src/value.rs:94-127 | big-endian bytes of any length are the ones written back from the number they read as |
| Values.TagFromByte | src/value.rs:22-48 | each of the bytes 01 to 05 parses to its own tag and every other byte is reported as unknown |
| Values.EncodeInto | src/value.rs:78-91 | the buffer filled field by field is the documented byte string |
| Values.EncodeIsWireFormat | src/value.rs:8-15 | every value is encoded in the documented bytes, written out: tag value, four length bytes, payload, numbers most significant byte first |
| Values.EncodeInjective | src/value.rs:78-91 | different values never share an encoding, also where the 32-bit length field wraps |
| Values.DecodeEncode | src/value.rs:94-127 | decoding an encoding gives the value back when its payload is below 2^32 bytes, and exactly otherwise the length mismatch with the wrapped length |
| Values.DecodeAcceptsExactlyEncodings | src/value.rs:94-127 | decoding accepts a blob as a value iff the blob is that value's encoding and the payload fits the field |
| Values.DecodeRefusesExactly | src/value.rs:93-127 | each error of decoding is returned exactly for the bytes it describes, in the order of the checks |
| Unicode.ValidIffEncodesPoints | src/value.rs:114-117 | the bytes accepted as text are exactly the UTF-8 encodings of sequences of code points other than surrogates |
| Slots.Key | src/slot.rs:38-46 | the key is the digest of the 18 domain bytes and of the id widened to four bytes, written out |
| Slots.StandardMap | src/slot.rs:69-113 | the ids of the standard map |
| Slots.KeysDistinctOrBroken | src/slot.rs:37-46 | any set of slots has pairwise different tree keys, or two slot preimages collide |
| Hashing.HashLeafValue | src/hash.rs:52-61 | the digest of the byte 01, the slot key and the blob; 32 zero bytes for the empty blob |
| Hashing.LeafHashBinds | src/hash.rs:47-61 | equal leaf digests mean equal blobs and, unless absent, equal slot keys, or the hash broke on the two leaf inputs |
| SparseMerkle.PathDeterminesKey | src/slot.rs:3-6 | a 256-bit key can be read back from its path, so different keys have different positions |
| SparseMerkle.BranchPreimageBinds | src/hash.rs:63-85 | a branch input determines the node (height and key) and both children |
| LeafBranchOverlap.ValueOverlapsIff | src/hash.rs:13-24 | a value's leaf input under a key is some branch's input iff its payload has 60 bytes, the key's first byte is at most 248 (247 for text) and its other bits up to that height are clear |
| LeafBranchOverlap.SlotOverlapsIff | src/hash.rs:13-24 | for every hash and slot, some value of the slot overlaps with a branch iff the slot's key satisfies that condition |
| SparseMerkle.MergeNodes | src/hash.rs:63-85 | the digest of the byte 01, the height, the node key and both children, left first; zero for two empty children |
| SparseMerkle.FoldBinds | src/hash.rs:18-21 | two folds along one path from different digests end at different roots, or the hash broke on at most two inputs found at one height |
| SparseMerkle.FoldReachesRoot | src/proof.rs:59-71 | folding any leaf, empty ones included, with the tree's own siblings gives the tree's root |
| SparseMerkle.OffPathUnchanged | src/tree.rs:64-71 | changing one leaf changes no node digest off its path |
| SparseMerkle.EmptyRoot | src/tree.rs:54-57 | the empty tree has the all-zero root |
| ProofVerification.RootFixesValue | src/proof.rs:35-48 | for any root whatever, two accepted values of one slot are equal, or at most two computed inputs break the hash |
| ProofVerification.RootFixesPresence | src/proof.rs:50-57 | for any root whatever, a slot accepted with a value and as absent breaks the hash on at most two computed inputs |
| LeafBranchOverlap.Slot0040Overlaps | src/hash.rs:21-24 | a slot for which the documented separation fails: with the first two bytes of its sha256 key, every 60-byte opaque value there overlaps with a branch at height 1 |
| TreeRuns.HistoryIndependent | src/tree.rs:59-76 | runs of set, set_encoded and remove that end in the same contents give the same leaves and root |
| TreeRuns.RemoveRestores | src/tree.rs:73-76 | setting and removing a slot that was absent restores the root |
| TreeRuns.EmptiedTreeHasZeroRoot | src/tree.rs:54-76 | a tree whose every slot was removed has the zero root |
| TreeRuns.ReadAfterRun | src/tree.rs:78-89 | after any run a slot reads as the blob last written to it, or as absent |
| TreeRuns.TypedReadAfterSet | src/tree.rs:91-97 | a set value is read back after any writes to other slots, or as the length mismatch of a payload of 2^32 bytes or more |
| TreeRuns.TypedReadAfterRemove | src/tree.rs:91-97 | a removed slot reads as absent after any writes to other slots |
| TreeRuns.ExactlyOneProver | src/tree.rs:106-132 | in every reachable tree exactly one of the two provers succeeds for a slot, and its proof verifies against the root |
| TreeRuns.OppositeClaimRejected | src/tree.rs:106-132 | where one prover succeeds, no proof of the opposite claim verifies, or the hash broke |
| TreeRuns.RootBindsContents | src/tree.rs:99-104 | runs with equal roots end in equal contents, or the hash broke while auditing the written slots |
| ProfileTrees.ProfileTree.constructor | src/tree.rs:53-57 | a new tree has no writes and the zero root |
| ProfileTrees.ProfileTree.ClimbPath | src/tree.rs:64-71 | the bottom-to-top loop leaves every branch of the store as the recursive tree has it and returns its root |
| ProfileTrees.ProfileTree.SetEncoded | src/tree.rs:64-71 | the in-place update keeps leaves, branch store and root those of the writes so far plus this one |
| ProfileTrees.ProfileTree.Set | src/tree.rs:59-62 | setting a value is the write of its encoding |
| ProfileTrees.ProfileTree.Remove | src/tree.rs:73-76 | removing a slot is the write of the empty blob |
| ProfileTrees.ProfileTree.GetEncoded | src/tree.rs:78-89 | the stored blob, which is the last one written or none |
| ProfileTrees.ProfileTree.Get | src/tree.rs:91-97 | the typed read: the last blob written to the slot, decoded, or none when absent, or the hash broke |
| ProfileTrees.ProfileTree.Root | src/tree.rs:99-104 | the maintained root is the recursive root of all writes so far |
| ProfileTrees.ProfileTree.MerkleProof | src/tree.rs:134-144 | the siblings collected from the branch store are those of the recursive tree |
| ProfileTrees.ProfileTree.ProveMembership | src/tree.rs:106-118 | refuses an absent slot; otherwise the proof verifies for the stored blob against the root |
| ProfileTrees.ProfileTree.ProveNonMembership | src/tree.rs:120-132 | refuses a present slot; otherwise the proof verifies as absence against the root |
| Profiles.RootBindsProfile | src/profile.rs:96-108 | two profiles have equal roots iff they are the same slot map, or the hash broke while auditing their slots |
| Profiles.AnyHistoryHasProfileRoot | src/profile.rs:96-108 | any incremental edits that end in a profile's values reach the root that rebuilding it gives |
| Profiles.FieldIsProvable | src/profile.rs:96-103 | each set field is provable present with its value, each unset one absent, and the other prover refuses |
| Profiles.OnlyFieldIsProvable | src/proof.rs:35-57 | no claim about a slot but the profile's own verifies against its root, with any proof |
| Profiles.UnknownSlotsAreIgnoredAndProvable | src/slot.rs:8-13 | slots outside the standard map change no typed reading, yet each is provable against the new root |
| Profiles.KeysAreExact | src/profile.rs:84-94 | the key view reports slot 0x0010 as 48 opaque bytes, 0x0012 as 32 opaque bytes and 0x0013 as a 32-bit number, and nothing else |
| Profiles.ReadersAreExact | src/profile.rs:56-72 | version, display name and bio are reported iff slots 0x0000, 0x0001 and 0x0002 hold values of the right type; address and keys are those of the two rows beside |
| Profiles.XchReaderIsExact | src/profile.rs:72-82 | an address is reported iff slot 0x0008 holds text that, trimmed, decodes under the prefix "xch" |
| Profiles.XchAddressIsValidatedIffTrimmed | src/profile.rs:72-82 | the returned address is the validated one iff the stored string has no surrounding white space |
| Profiles.PaddedAddressIsReturned | src/profile.rs:72-82 | every valid address stored behind a blank is returned with the blank |
| Profiles.Profile.BuildTree | src/profile.rs:96-103 | the loop over the slots yields a valid tree holding the profile's writes in ascending slot order |
| Profiles.Profile.BuildRoot | src/profile.rs:105-108 | the computed root is the root of the slot map |
| Addresses.TrimIsIdempotent | src/did.rs:51-57 | trimming leaves nothing more to trim, and changes a string iff white space surrounds it |
| Addresses.TrimDropsExactlyWhiteSpace | src/did.rs:51-57 | trimming drops white-space characters at both ends, all of them and nothing else |
| Addresses.WhiteSpaceIsEncodedPoint | src/did.rs:51-57 | the byte strings trimmed are exactly the encodings of the white-space code points |
| Addresses.DidIsExact | src/did.rs:51-66 | a string is a DID iff, trimmed, it decodes under the nine bytes "did:chia:"; the DID keeps that text and that id |
| Addresses.DidTextRoundTrips | src/did.rs:56-66 | a parsed DID's text parses back to it, and a description names it iff it trims to that text |
| Addresses.XchIsExact | src/xch.rs:18-37 | a string is a payment address iff, trimmed, it decodes under the three bytes "xch"; the address is that text |
| Addresses.NoDidIsAnXchAddress | src/did.rs:59-62 | no string is both a DID and a payment address |
| Pairing.EvaluatePairing | src/pairing.rs:138-149 | each link is reported on its own: the description names the DID; the launcher's parent is a lineage member |
| IdentityProfiles.LifecycleInvariant | src/identity_profile.rs:73-88 | after resolve and any edits the pairing holds, the pending metadata has the last value set for each slot, and the committed root is that of the metadata at the last commit |
| IdentityProfiles.ProofMeetsCommittedRootIffSynced | src/identity_profile.rs:146-166 | a field proof verifies against the pending root, and against the committed root iff pending metadata equals the committed snapshot |
| IdentityProfiles.IdentityProfile.Resolve | src/identity_profile.rs:63-88 | constructed only for a paired store, valid, unedited, owning its metadata, with the metadata's root committed |
| IdentityProfiles.IdentityProfile.Set | src/identity_profile.rs:117-126 | the object stays what its edits make of it; one slot changes, the pending root is returned, the committed root stays |
| IdentityProfiles.IdentityProfile.CommitRoot | src/identity_profile.rs:128-135 | the object stays what its edits make of it; the pending metadata's root is committed and nothing else changes |
| IdentityProfiles.IdentityProfile.Root | src/identity_profile.rs:188-191 | for every object and history the stored root is that of the metadata at the last commit, or at resolve |
| IdentityProfiles.IdentityProfile.BelongsToDid | src/identity_profile.rs:137-144 | re-checking the pairing succeeds for every resolved object after any edits |
| IdentityProfiles.IdentityProfile.ProveField | src/identity_profile.rs:146-156 | refuses exactly an unset slot; otherwise the proof verifies against the pending root, and against the committed root iff nothing is pending, modulo the hash |
| IdentityProfiles.IdentityProfile.ProveFieldAbsent | src/identity_profile.rs:158-166 | refuses exactly a set slot; otherwise the proof verifies as absence against the pending root, and against the committed root iff nothing is pending, modulo the hash |
| Resolution.CandidatesDecide | src/resolve.rs:168-181 | no authoritative position gives no profile, two give ambiguity, a sole one is bound to its root |
| Resolution.ResolutionIsExact | src/resolve.rs:147-194 | resolution yields a profile iff the string parses, the lineage exists, one position alone satisfies both links and the fetched body hashes to its root |
| Resolution.ErrorsMarkFirstFailure | src/resolve.rs:107-145 | each error is returned exactly when it marks the first failing step |
| Resolution.ResolutionIgnoresOrderAndSpoofs | src/resolve.rs:89-94 | the result depends only on how often each candidate authoritative for the resolved singleton occurs, so not on order and not on any other candidate |
| Resolution.SpoofsChangeNothing | src/resolve.rs:89-94 | putting any candidates anywhere into the list changes nothing when none is authoritative for the resolved singleton, whatever DID they name |
| Resolution.DuplicateIsAmbiguous | src/resolve.rs:453-463 | a whole resolution whose scan holds an authoritative candidate twice is ambiguous |
| Resolution.NextAuthentic | src/resolve.rs:168-181 | the filtering iterator stops at the first authoritative position and nowhere before |
| Resolution.ResolveIdentityProfile | src/resolve.rs:154-194 | the program, with its iterator and early returns, carries out the specified decision |
| Resolution.ResolveDidKeys | src/resolve.rs:195-206 | the program, passing every failure through, carries out the specified key resolution |
| Resolution.ResolveBlsPublicKey | src/resolve.rs:216-223 | the key of the resolved profile, or a missing-key error |
| Resolution.DidKeysAreExact | src/resolve.rs:195-206 | keys are returned iff the string resolves to a profile that publishes exactly them |
| Resolution.BlsKeyIsExact | src/resolve.rs:207-223 | a key is returned iff the string resolves to a profile whose slot 0x0010 holds it as 48 opaque bytes |
| Resolution.MissingKeyIsExact | src/resolve.rs:207-223 | a missing key is reported iff the string resolves and slot 0x0010 holds no 48 opaque bytes |
| Resolution.KeyErrorsMarkFirstFailure | src/resolve.rs:195-223 | every other error of the key entry points is the first failing step of the resolution, unchanged |
| ChainRuns.AuthorityIsDidLaunch | src/pairing.rs:10-20 | over every run a store's parent is in the lineage iff the DID launched it, whatever is spent or launched later |
| ChainRuns.TipRuleRejectsEveryLaunch | src/pairing.rs:12-17 | a tip-equality rule rejects each DID-launched store in the state its launch produces and in all later ones |
| ChainRuns.ResolutionOverRun | src/resolve.rs:67-105 | over every run and scan order: a melted DID has no identity, a living one resolves to its one live profile store bound to its current root, or to the error for none or several |
| EndToEnd.ProfileCommitsExactly | src/proof.rs:35-57 | a profile's root accepts each field's value, no other value and no absence, or the hash broke |
| EndToEnd.ResolvedKeyIsTheCommittedKey | src/resolve.rs:205-223 | a returned key is the 48-byte value slot 0x0010 is committed to by the chosen store's on-chain root, and nothing else verifies there |
| EndToEnd.ResolvedKeyOverRun | src/resolve.rs:205-223 | the same over every chain run: the root is the current one of the DID's only live profile store |
| EndToEnd.NoKeyMeansNoneVerifies | src/resolve.rs:216-223 | when resolution reports no key, no 48-byte value verifies in slot 0x0010 against the chosen store's root, or the hash broke |
| Publishing.LaunchThenResolve | src/resolve.rs:433-451 | a DID without a profile that launches a store naming it resolves, in the very next state, to that store and the committed body, through every honest reader that is served that body |
| Publishing.OnlyCommittedEditsResolve | src/resolve.rs:183-190 | after any edits, once the committed root is on chain, whatever body is served, what resolves is exactly the last values set before the last commit, or nothing, or the hash broke |
| Publishing.EditCommitUpdateResolve | src/identity_profile.rs:117-135 | its liveness half: a reader that is served the committed body does resolve to it |
| Publishing.HonestReadersAgree | src/resolve.rs:67-105 | two honest readers of one chain state never resolve a DID to different profiles, whatever order and bodies they see, or the hash broke |
| Publishing.OtherBodyIsStale | src/resolve.rs:183-190 | a served body is refused as stale iff it is not the one the on-chain root was computed from, or the hash broke |
| Publishing.ForeignStepsChangeNothing | src/pairing.rs:10-20 | any number of foreign launches, under any description, and of updates and melts of foreign stores leave every honest resolution as it was |
| FieldVerification.VerifyProfileFieldForDid | src/verify.rs:27-57 | accept-only: never a silent false, accepting iff both links and the proof hold, each refusal with its own error |
| FieldVerification.VerifyProfileFieldAbsentForDid | src/verify.rs:59-78 | the same for the absence of a slot |
| FieldVerification.AcceptedAnswersAgree | src/verify.rs:27-78 | for one DID, store, root and slot no two accepted answers conflict, or the hash broke on at most two inputs |
| UpdateAuthority.AuthorizedAfterAnyRun | src/authority.rs:79-86 | who is authorised after any run at all: the owner, and a delegate with a writer or admin entry that, since the last grant to it if any, was not revoked and is below its expiry at the end |
| UpdateAuthority.AuthorizedAfterGrant | src/authority.rs:79-86 | with one entry per delegate, after its last grant a non-owner is authorised iff that delegation is a writer or admin one, unrevoked when granted and since, and unexpired at the final height |
| UpdateAuthority.AuthorizedAfterRun | src/authority.rs:79-86 | the case of runs that grant the caller nothing |
| UpdateAuthority.ExpiryIsStrict | src/authority.rs:70-86 | a live write delegation with an expiry authorises its delegate at the heights below it and at no other |
| UpdateAuthority.ExpiredNeverReturns | src/authority.rs:70-86 | once its expiries are reached a delegate stays out of every later run until a new grant |
| UpdateAuthority.OracleNeverUpdates | src/authority.rs:43-53 | a non-owner that only ever holds oracle delegations is never authorised in any run |
| UpdateAuthority.AuthorityOnlyShrinks | src/authority.rs:121-128 | without new grants authority once lost never returns, and the owner never drops out |
| UpdateAuthority.RevokeRemovesExactlyOne | src/authority.rs:66-86 | with one entry per delegate a revocation takes authority from exactly that delegate |
| UpdateAuthority.RevokedNeverReturns | src/authority.rs:66-86 | a revoked delegate stays out over every later run that grants it nothing |
| UpdateAuthority.TombstoneChangesNothing | src/authority.rs:121-128 | a revocation recorded by appending an entry leaves the delegate authorised |
| UpdateAuthority.OnePerDelegateIsKept | src/authority.rs:92-101 | in-place grants and revocations keep one entry per delegate |

## Left out

- The internals of the sparse-merkle-tree crate: compiled proof bytes, its compressed form of runs of
  empty siblings, and its shortcut for reads of an empty tree. A proof is one sibling digest per height,
  and a proof of another shape is the crate's error.
- sha256 itself, and with it golden test vectors: every statement is about an arbitrary hash.
- bech32m coding of DIDs and addresses: an arbitrary partial function on strings; most theorems hold for
  an arbitrary DID parser, of which `Addresses.Parser` is the program's.
- `Coin::coin_id()`: coin ids are 32-byte values. Only the chain model needs them distinct, and says so by
  letting a new DID coin take an id not seen before.
- A dishonest chain reader: the source assumes an honest one, and `ChainRuns.Honest` states what that means.
- Key derivation, signatures and curve arithmetic (`src/bls.rs`): calls into other libraries.
- Minting (`mint_from_did`): always an error.
- `StoreOwnershipProof` (a pair on which the pairing predicate is run again), the reserved slot ranges, and the
  accessors that only return a field.
- Error message strings: errors carry the data that tells them apart; the reader's own message is kept.
- Failures of the tree store: the in-memory store does not fail, so set, remove and root have no error.
- Moves of values: where the program moves a `Profile` into an `IdentityProfile`, the model copies the slot map
  into a `Profile` object of its own. Ghost fields record the writes of a tree and the edits of a profile.
