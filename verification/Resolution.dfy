/** Resolving a DID string to its chain-authenticated profile through an honest reader of chain state. */
module Resolution {
  import opened Addresses
  import opened ByteStrings
  import opened Filtering
  import opened Hashing
  import opened IdentityProfiles
  import opened Pairing
  import opened Profiles
  import Values

  datatype ChainStoreState = ChainStoreState(store: StoreRecord, rootHash: Digest)

  type Candidates = seq<ChainStoreState>

  /** What the caller's chain reader answers to the three questions it is asked. */
  datatype ChainSource = ChainSource(
    resolveSingletonLineage: Digest -> Result<Option<SingletonLineage>, string>,
    findStoresForDid: Did -> Result<Candidates, string>,
    fetchProfile: (StoreRecord, Digest) -> Result<SlotMap, string>)

  datatype ResolveError =
    | InvalidDid
    | NoIdentitySingleton
    | NoProfile
    | AmbiguousProfile
    | StaleOrTamperedRoot
    | NoIdentityKey
    | Format(error: Error)
    | Chain(message: string)

  // ----- the decision -----

  /** The filter of the candidate scan: both pairing links hold. */
  function Authentic(parse: DidParser, singleton: IdentitySingleton): ChainStoreState -> bool {
    (c: ChainStoreState) => IsAuthoritativeProfile(parse, c.store, singleton)
  }

  /** Binds the body of the chosen store to its on-chain root. */
  ghost function BindRoot(h: Hash, singleton: IdentitySingleton, chosen: ChainStoreState, source: ChainSource)
    : Result<IdentityState, ResolveError>
  {
    match source.fetchProfile(chosen.store, chosen.rootHash)
    case Err(message) => Err(Chain(message))
    case Ok(content) =>
      if ProfileRoot(h, content) != chosen.rootHash then Err(StaleOrTamperedRoot)
      else Ok(IdentityState(singleton, chosen.store, content, chosen.rootHash))
  }

  ghost function Choose(h: Hash, parse: DidParser, singleton: IdentitySingleton, cs: Candidates, source: ChainSource)
    : Result<IdentityState, ResolveError>
  {
    var authentic := Filter(Authentic(parse, singleton), cs);
    if authentic == [] then Err(NoProfile)
    else if |authentic| > 1 then Err(AmbiguousProfile)
    else BindRoot(h, singleton, authentic[0], source)
  }

  /** The whole decision; a format error cannot arise, and a missing key is its caller's to report. */
  ghost function ResolutionOf(
    h: Hash, parse: DidParser, uri: Bytes, source: ChainSource): (r: Result<IdentityState, ResolveError>)
    ensures r.Err? ==> !r.error.Format? && r.error != NoIdentityKey
  {
    match parse(uri)
    case None => Err(InvalidDid)
    case Some(did) =>
      match source.resolveSingletonLineage(did.launcherId)
      case Err(message) => Err(Chain(message))
      case Ok(None) => Err(NoIdentitySingleton)
      case Ok(Some(lineage)) =>
        match source.findStoresForDid(did)
        case Err(message) => Err(Chain(message))
        case Ok(cs) => Choose(h, parse, IdentitySingleton(did, lineage), cs, source)
  }

  ghost function DidKeysOf(h: Hash, parse: DidParser, uri: Bytes, source: ChainSource): Result<DidKeys, ResolveError> {
    match ResolutionOf(h, parse, uri, source)
    case Err(e) => Err(e)
    case Ok(p) => Ok(ResolveKeys(p.metadata))
  }

  ghost function BlsKeyOf(h: Hash, parse: DidParser, uri: Bytes, source: ChainSource): Result<Bytes, ResolveError> {
    match DidKeysOf(h, parse, uri, source)
    case Err(e) => Err(e)
    case Ok(keys) =>
      match keys.blsG1PublicKey
      case None => Err(NoIdentityKey)
      case Some(key) => Ok(key)
  }

  // ----- the exact characterisation -----

  /** Everything a successful resolution rests on. */
  ghost predicate ResolvesTo(
    h: Hash, parse: DidParser, uri: Bytes, source: ChainSource, p: IdentityState, cs: Candidates, i: nat) {
    && parse(uri) == Some(p.singleton.did)
    && source.resolveSingletonLineage(p.singleton.did.launcherId) == Ok(Some(p.singleton.lineage))
    && source.findStoresForDid(p.singleton.did) == Ok(cs)
    && SolePass(Authentic(parse, p.singleton), cs, i)
    && p.store == cs[i].store
    && source.fetchProfile(p.store, p.root) == Ok(p.metadata)
    && p.root == cs[i].rootHash == ProfileRoot(h, p.metadata)
  }

  /** How the candidate list decides the outcome once the DID and its lineage are read. */
  lemma CandidatesDecide(h: Hash, parse: DidParser, singleton: IdentitySingleton, cs: Candidates, source: ChainSource)
    ensures var keep, r := Authentic(parse, singleton), Choose(h, parse, singleton, cs, source);
            && (r == Err(NoProfile) <==> NonePass(keep, cs))
            && (r == Err(AmbiguousProfile) <==> exists i: nat, j: nat :: TwoPass(keep, cs, i, j))
            && (forall i: nat :: SolePass(keep, cs, i) ==> r == BindRoot(h, singleton, cs[i], source))
  {
    FilterCounts(Authentic(parse, singleton), cs);
  }

  lemma ChosenOnlyIf(
    h: Hash, parse: DidParser, singleton: IdentitySingleton, cs: Candidates, source: ChainSource) returns (i: nat)
    requires Choose(h, parse, singleton, cs, source).Ok?
    ensures SolePass(Authentic(parse, singleton), cs, i)
    ensures Choose(h, parse, singleton, cs, source) == BindRoot(h, singleton, cs[i], source)
  {
    CandidatesDecide(h, parse, singleton, cs, source);
    NoneSoleOrTwo(Authentic(parse, singleton), cs);
    i :| SolePass(Authentic(parse, singleton), cs, i);
  }

  lemma ResolvedOnlyIf(
    h: Hash, parse: DidParser, uri: Bytes, source: ChainSource, p: IdentityState) returns (cs: Candidates, i: nat)
    requires ResolutionOf(h, parse, uri, source) == Ok(p)
    ensures ResolvesTo(h, parse, uri, source, p, cs, i)
  {
    var did := parse(uri).value;
    var lineage := source.resolveSingletonLineage(did.launcherId).value.value;
    cs := source.findStoresForDid(did).value;
    i := ChosenOnlyIf(h, parse, IdentitySingleton(did, lineage), cs, source);
  }

  lemma ResolvedIf(h: Hash, parse: DidParser, uri: Bytes, source: ChainSource, p: IdentityState, cs: Candidates, i: nat)
    requires ResolvesTo(h, parse, uri, source, p, cs, i)
    ensures ResolutionOf(h, parse, uri, source) == Ok(p)
  {
    CandidatesDecide(h, parse, p.singleton, cs, source);
  }

  /**
   * Resolution yields `p` exactly when the string parses, the lineage exists, one candidate position and
   * no other satisfies both links, and the fetched body hashes to that candidate's root.
   */
  lemma ResolutionIsExact(h: Hash, parse: DidParser, uri: Bytes, source: ChainSource, p: IdentityState)
    ensures ResolutionOf(h, parse, uri, source) == Ok(p) <==>
            exists cs, i: nat :: ResolvesTo(h, parse, uri, source, p, cs, i)
  {
    if ResolutionOf(h, parse, uri, source) == Ok(p) {
      var cs, i := ResolvedOnlyIf(h, parse, uri, source, p);
    }
    if cs, i: nat :| ResolvesTo(h, parse, uri, source, p, cs, i) {
      ResolvedIf(h, parse, uri, source, p, cs, i);
    }
  }

  /** The singleton the source resolves the string to. */
  ghost predicate ResolvedSingleton(parse: DidParser, uri: Bytes, source: ChainSource, singleton: IdentitySingleton) {
    && parse(uri) == Some(singleton.did)
    && source.resolveSingletonLineage(singleton.did.launcherId) == Ok(Some(singleton.lineage))
  }

  /** The DID parses, its lineage is read and its stores are scanned. */
  ghost predicate Scanned(
    parse: DidParser, uri: Bytes, source: ChainSource, singleton: IdentitySingleton, cs: Candidates) {
    && ResolvedSingleton(parse, uri, source, singleton)
    && source.findStoresForDid(singleton.did) == Ok(cs)
  }

  /** The scan has one authoritative candidate, at position `i`. */
  ghost predicate Chosen(
    parse: DidParser, uri: Bytes, source: ChainSource, singleton: IdentitySingleton, cs: Candidates, i: nat) {
    Scanned(parse, uri, source, singleton, cs) && SolePass(Authentic(parse, singleton), cs, i)
  }

  /** Each error marks the first step that fails, the steps before it having succeeded. */
  ghost predicate FirstFailure(h: Hash, parse: DidParser, uri: Bytes, source: ChainSource, e: ResolveError) {
    match e
    case InvalidDid => parse(uri) == None
    case NoIdentitySingleton =>
      parse(uri).Some? && source.resolveSingletonLineage(parse(uri).value.launcherId) == Ok(None)
    case NoProfile =>
      exists singleton, cs :: Scanned(parse, uri, source, singleton, cs) && NonePass(Authentic(parse, singleton), cs)
    case AmbiguousProfile =>
      exists singleton, cs, i: nat, j: nat ::
        Scanned(parse, uri, source, singleton, cs) && TwoPass(Authentic(parse, singleton), cs, i, j)
    case StaleOrTamperedRoot =>
      exists singleton, cs: Candidates, i: nat ::
        && Chosen(parse, uri, source, singleton, cs, i)
        && source.fetchProfile(cs[i].store, cs[i].rootHash).Ok?
        && ProfileRoot(h, source.fetchProfile(cs[i].store, cs[i].rootHash).value) != cs[i].rootHash
    case Chain(message) =>
      || (parse(uri).Some?
          && (var lineage := source.resolveSingletonLineage(parse(uri).value.launcherId);
              || lineage == Err(message)
              || (lineage.Ok? && lineage.value.Some? && source.findStoresForDid(parse(uri).value) == Err(message))))
      || (exists singleton, cs: Candidates, i: nat ::
            && Chosen(parse, uri, source, singleton, cs, i)
            && source.fetchProfile(cs[i].store, cs[i].rootHash) == Err(message))
    case _ => false
  }

  lemma ScannedChooses(
    h: Hash, parse: DidParser, uri: Bytes, source: ChainSource, singleton: IdentitySingleton, cs: Candidates)
    requires Scanned(parse, uri, source, singleton, cs)
    ensures ResolutionOf(h, parse, uri, source) == Choose(h, parse, singleton, cs, source)
  {}

  lemma ScanFails(
    h: Hash, parse: DidParser, singleton: IdentitySingleton, cs: Candidates, source: ChainSource, uri: Bytes)
    requires Scanned(parse, uri, source, singleton, cs) && Choose(h, parse, singleton, cs, source).Err?
    ensures FirstFailure(h, parse, uri, source, Choose(h, parse, singleton, cs, source).error)
  {
    CandidatesDecide(h, parse, singleton, cs, source);
    NoneSoleOrTwo(Authentic(parse, singleton), cs);
    if i: nat :| SolePass(Authentic(parse, singleton), cs, i) {
      assert Chosen(parse, uri, source, singleton, cs, i);
      assert Choose(h, parse, singleton, cs, source) == BindRoot(h, singleton, cs[i], source);
    }
  }

  /** An error is returned exactly when it marks the first failing step. */
  lemma ErrorsMarkFirstFailure(h: Hash, parse: DidParser, uri: Bytes, source: ChainSource, e: ResolveError)
    ensures ResolutionOf(h, parse, uri, source) == Err(e) <==> FirstFailure(h, parse, uri, source, e)
  {
    if ResolutionOf(h, parse, uri, source) == Err(e) {
      ErrorIsFirstFailure(h, parse, uri, source, e);
    }
    if FirstFailure(h, parse, uri, source, e) {
      FirstFailureIsReturned(h, parse, uri, source, e);
    }
  }

  lemma ErrorIsFirstFailure(h: Hash, parse: DidParser, uri: Bytes, source: ChainSource, e: ResolveError)
    requires ResolutionOf(h, parse, uri, source) == Err(e)
    ensures FirstFailure(h, parse, uri, source, e)
  {
    if singleton, cs :| Scanned(parse, uri, source, singleton, cs) {
      ScannedChooses(h, parse, uri, source, singleton, cs);
      ScanFails(h, parse, singleton, cs, source, uri);
    } else if parse(uri).Some? {
      var did := parse(uri).value;
      var lineage := source.resolveSingletonLineage(did.launcherId);
      if lineage.Ok? && lineage.value.Some? && source.findStoresForDid(did).Ok? {
        var singleton := IdentitySingleton(did, lineage.value.value);
        assert Scanned(parse, uri, source, singleton, source.findStoresForDid(did).value);
      }
    }
  }

  lemma FirstFailureIsReturned(h: Hash, parse: DidParser, uri: Bytes, source: ChainSource, e: ResolveError)
    requires FirstFailure(h, parse, uri, source, e)
    ensures ResolutionOf(h, parse, uri, source) == Err(e)
  {
    if singleton, cs :| Scanned(parse, uri, source, singleton, cs) {
      ScannedChooses(h, parse, uri, source, singleton, cs);
      CandidatesDecide(h, parse, singleton, cs, source);
    }
  }

  // ----- the resolved keys -----

  /** Keys resolve exactly as a profile does, to the fields its three key slots publish. */
  lemma DidKeysAreExact(h: Hash, parse: DidParser, uri: Bytes, source: ChainSource, keys: DidKeys)
    ensures DidKeysOf(h, parse, uri, source) == Ok(keys) <==>
            exists p, cs, i: nat :: ResolvesTo(h, parse, uri, source, p, cs, i) && KeysAreThoseOf(p.metadata, keys)
  {
    if ResolutionOf(h, parse, uri, source).Ok? {
      var p := ResolutionOf(h, parse, uri, source).value;
      var cs, i := ResolvedOnlyIf(h, parse, uri, source, p);
      KeysAreExact(p.metadata, keys);
    }
    forall p, cs, i: nat | ResolvesTo(h, parse, uri, source, p, cs, i)
      ensures ResolutionOf(h, parse, uri, source) == Ok(p)
    {
      ResolvedIf(h, parse, uri, source, p, cs, i);
    }
  }

  /** A key is returned exactly when the string resolves to a profile with that 48-byte value in slot 0x0010. */
  lemma BlsKeyIsExact(h: Hash, parse: DidParser, uri: Bytes, source: ChainSource, key: Bytes)
    ensures BlsKeyOf(h, parse, uri, source) == Ok(key) <==>
            exists p, cs, i: nat ::
              && ResolvesTo(h, parse, uri, source, p, cs, i)
              && 0x0010 in p.metadata && p.metadata[0x0010] == Values.Value.Bytes(key) && |key| == 48
  {
    if ResolutionOf(h, parse, uri, source).Ok? {
      var p := ResolutionOf(h, parse, uri, source).value;
      var cs, i := ResolvedOnlyIf(h, parse, uri, source, p);
      KeysReported(p.metadata);
    }
    forall p, cs, i: nat | ResolvesTo(h, parse, uri, source, p, cs, i)
      ensures ResolutionOf(h, parse, uri, source) == Ok(p)
    {
      ResolvedIf(h, parse, uri, source, p, cs, i);
    }
  }

  /** A missing key is reported exactly when the string resolves and slot 0x0010 holds no 48-byte opaque value. */
  lemma MissingKeyIsExact(h: Hash, parse: DidParser, uri: Bytes, source: ChainSource)
    ensures BlsKeyOf(h, parse, uri, source) == Err(NoIdentityKey) <==>
            exists p, cs, i: nat ::
              && ResolvesTo(h, parse, uri, source, p, cs, i)
              && !(0x0010 in p.metadata && p.metadata[0x0010].Bytes? && |p.metadata[0x0010].bytes| == 48)
  {
    if ResolutionOf(h, parse, uri, source).Ok? {
      var p := ResolutionOf(h, parse, uri, source).value;
      var cs, i := ResolvedOnlyIf(h, parse, uri, source, p);
    }
    forall p, cs, i: nat | ResolvesTo(h, parse, uri, source, p, cs, i)
      ensures ResolutionOf(h, parse, uri, source) == Ok(p)
    {
      ResolvedIf(h, parse, uri, source, p, cs, i);
    }
  }

  /** Every other error of the key entry points is the first failing step of the resolution, unchanged. */
  lemma KeyErrorsMarkFirstFailure(h: Hash, parse: DidParser, uri: Bytes, source: ChainSource, e: ResolveError)
    ensures DidKeysOf(h, parse, uri, source) == Err(e) <==> FirstFailure(h, parse, uri, source, e)
    ensures e != NoIdentityKey ==>
              (BlsKeyOf(h, parse, uri, source) == Err(e) <==> FirstFailure(h, parse, uri, source, e))
  {
    ErrorsMarkFirstFailure(h, parse, uri, source, e);
  }

  // ----- which candidate lists are alike -----

  /**
   * Permuting the candidates and inserting or deleting any number of non-authoritative ones does not
   * change the outcome: only how often each authoritative candidate occurs does.
   */
  lemma OutcomeIgnoresOrderAndSpoofs(
    h: Hash, parse: DidParser, singleton: IdentitySingleton, cs1: Candidates, cs2: Candidates, source: ChainSource)
    requires SamePassing(Authentic(parse, singleton), cs1, cs2)
    ensures Choose(h, parse, singleton, cs1, source) == Choose(h, parse, singleton, cs2, source)
  {
    var keep := Authentic(parse, singleton);
    SamePassingSameFilter(keep, cs1, cs2);
    SameElements(Filter(keep, cs1), Filter(keep, cs2));
  }

  /** The same source with another answer to the store scan. */
  function Rescanned(source: ChainSource, cs: Candidates): ChainSource {
    source.(findStoresForDid := (did: Did) => Ok(cs))
  }

  /**
   * The same, for whole resolutions whose sources differ only in the scanned list. Only what is
   * authoritative for the singleton the source itself resolves has to occur equally often.
   */
  lemma ResolutionIgnoresOrderAndSpoofs(
    h: Hash, parse: DidParser, uri: Bytes, source: ChainSource, cs1: Candidates, cs2: Candidates)
    requires forall singleton :: ResolvedSingleton(parse, uri, source, singleton) ==>
               SamePassing(Authentic(parse, singleton), cs1, cs2)
    ensures ResolutionOf(h, parse, uri, Rescanned(source, cs1)) == ResolutionOf(h, parse, uri, Rescanned(source, cs2))
  {
    var s1, s2 := Rescanned(source, cs1), Rescanned(source, cs2);
    var did := parse(uri);
    if did.Some? {
      var lineage := source.resolveSingletonLineage(did.value.launcherId);
      if lineage.Ok? && lineage.value.Some? {
        var singleton := IdentitySingleton(did.value, lineage.value.value);
        assert ResolvedSingleton(parse, uri, source, singleton);
        OutcomeIgnoresOrderAndSpoofs(h, parse, singleton, cs1, cs2, s1);
      }
    }
  }

  /**
   * Putting any candidates anywhere into the list changes nothing when none of them is authoritative for
   * the resolved singleton, whatever DID they name and whatever other lineage they were launched from.
   */
  lemma SpoofsChangeNothing(
    h: Hash, parse: DidParser, uri: Bytes, source: ChainSource,
    before: Candidates, spoofs: Candidates, after: Candidates)
    requires forall singleton, c :: ResolvedSingleton(parse, uri, source, singleton) && c in spoofs ==>
               !Authentic(parse, singleton)(c)
    ensures ResolutionOf(h, parse, uri, Rescanned(source, before + spoofs + after))
         == ResolutionOf(h, parse, uri, Rescanned(source, before + after))
  {
    forall singleton | ResolvedSingleton(parse, uri, source, singleton)
      ensures SamePassing(Authentic(parse, singleton), before + spoofs + after, before + after)
    {
      forall c | Authentic(parse, singleton)(c)
        ensures multiset(before + spoofs + after)[c] == multiset(before + after)[c]
      {
        assert c !in spoofs && multiset(spoofs)[c] == 0;
      }
    }
    ResolutionIgnoresOrderAndSpoofs(h, parse, uri, source, before + spoofs + after, before + after);
  }

  lemma DuplicateIsNotChosen(
    h: Hash, parse: DidParser, singleton: IdentitySingleton, cs: Candidates, c: ChainStoreState,
    source: ChainSource)
    requires Authentic(parse, singleton)(c) && multiset(cs)[c] > 1
    ensures Choose(h, parse, singleton, cs, source) == Err(AmbiguousProfile)
  {
    var authentic := Filter(Authentic(parse, singleton), cs);
    FilterMultiplicity(Authentic(parse, singleton), cs, c);
    MultiplicityBoundsLength(authentic, c);
  }

  /** A duplicated authoritative candidate makes the resolution ambiguous, whatever else is on the list. */
  lemma DuplicateIsAmbiguous(
    h: Hash, parse: DidParser, uri: Bytes, source: ChainSource, singleton: IdentitySingleton, cs: Candidates,
    c: ChainStoreState)
    requires Scanned(parse, uri, source, singleton, cs)
    requires Authentic(parse, singleton)(c) && multiset(cs)[c] > 1
    ensures ResolutionOf(h, parse, uri, source) == Err(AmbiguousProfile)
  {
    ScannedChooses(h, parse, uri, source, singleton, cs);
    DuplicateIsNotChosen(h, parse, singleton, cs, c, source);
  }

  lemma {:induction false} MultiplicityBoundsLength(cs: Candidates, c: ChainStoreState)
    ensures multiset(cs)[c] <= |cs|
  {
    if cs != [] {
      var front, last := cs[..|cs| - 1], cs[|cs| - 1];
      MultiplicityBoundsLength(front, c);
      assert cs == front + [last];
    }
  }

  // ----- the program -----

  /** The filtering iterator: the first authentic position from `start` on, or the end of the list. */
  method NextAuthentic(parse: DidParser, singleton: IdentitySingleton, cs: Candidates, start: nat) returns (pos: nat)
    requires start <= |cs|
    ensures start <= pos <= |cs|
    ensures pos < |cs| ==> Authentic(parse, singleton)(cs[pos])
    ensures forall i :: start <= i < pos ==> !Authentic(parse, singleton)(cs[i])
  {
    var keep := Authentic(parse, singleton);
    pos := start;
    while pos < |cs|
      invariant start <= pos <= |cs|
      invariant forall i :: start <= i < pos ==> !keep(cs[i])
    {
      if keep(cs[pos]) {
        return;
      }
      pos := pos + 1;
    }
  }

  /** What a program result says, against the decision it should carry out. */
  ghost predicate CarriesOut(
    h: Hash, parse: DidParser, r: Result<IdentityProfile, ResolveError>,
    decision: Result<IdentityState, ResolveError>)
    reads if r.Ok? then {r.value, r.value.metadata} else {}
  {
    match decision
    case Err(e) => r == Err(e)
    case Ok(p) => r.Ok? && r.value.Valid() && r.value.h == h && r.value.parse == parse && r.value.View() == p
  }

  method BindContent(
    h: Hash, parse: DidParser, singleton: IdentitySingleton, chosen: ChainStoreState, source: ChainSource)
    returns (r: Result<IdentityProfile, ResolveError>)
    requires Authentic(parse, singleton)(chosen)
    ensures CarriesOut(h, parse, r, BindRoot(h, singleton, chosen, source))
  {
    var fetched := source.fetchProfile(chosen.store, chosen.rootHash);
    if fetched.Err? {
      return Err(Chain(fetched.error));
    }
    var content := new Profile.From(fetched.value);
    var root := content.BuildRoot(h);
    if root != chosen.rootHash {
      return Err(StaleOrTamperedRoot);
    }
    // The pairing predicate holds of the chosen store, so constructing the profile cannot be refused.
    var resolved := IdentityProfile.Resolve(h, parse, singleton, chosen.store, fetched.value);
    return Ok(resolved.value);
  }

  method ChooseCandidate(h: Hash, parse: DidParser, singleton: IdentitySingleton, cs: Candidates, source: ChainSource)
    returns (r: Result<IdentityProfile, ResolveError>)
    ensures CarriesOut(h, parse, r, Choose(h, parse, singleton, cs, source))
  {
    CandidatesDecide(h, parse, singleton, cs, source);
    var first := NextAuthentic(parse, singleton, cs, 0);
    if first == |cs| {
      return Err(NoProfile);
    }
    var second := NextAuthentic(parse, singleton, cs, first + 1);
    if second < |cs| {
      assert TwoPass(Authentic(parse, singleton), cs, first, second);
      return Err(AmbiguousProfile);
    }
    assert SolePass(Authentic(parse, singleton), cs, first);
    r := BindContent(h, parse, singleton, cs[first], source);
  }

  method ResolveIdentityProfile(h: Hash, parse: DidParser, uri: Bytes, source: ChainSource)
    returns (r: Result<IdentityProfile, ResolveError>)
    ensures CarriesOut(h, parse, r, ResolutionOf(h, parse, uri, source))
  {
    var parsed := parse(uri);
    if parsed.None? {
      return Err(InvalidDid);
    }
    var did := parsed.value;
    var lineage := source.resolveSingletonLineage(did.launcherId);
    if lineage.Err? {
      return Err(Chain(lineage.error));
    }
    if lineage.value.None? {
      return Err(NoIdentitySingleton);
    }
    var scanned := source.findStoresForDid(did);
    if scanned.Err? {
      return Err(Chain(scanned.error));
    }
    r := ChooseCandidate(h, parse, IdentitySingleton(did, lineage.value.value), scanned.value, source);
  }

  method ResolveDidKeys(h: Hash, parse: DidParser, uri: Bytes, source: ChainSource)
    returns (r: Result<DidKeys, ResolveError>)
    ensures r == DidKeysOf(h, parse, uri, source)
  {
    var resolved := ResolveIdentityProfile(h, parse, uri, source);
    if resolved.Err? {
      return Err(resolved.error);
    }
    var keys := resolved.value.Keys();
    return Ok(keys);
  }

  method ResolveBlsPublicKey(h: Hash, parse: DidParser, uri: Bytes, source: ChainSource)
    returns (r: Result<Bytes, ResolveError>)
    ensures r == BlsKeyOf(h, parse, uri, source)
  {
    var keys := ResolveDidKeys(h, parse, uri, source);
    if keys.Err? {
      return Err(keys.error);
    }
    if keys.value.blsG1PublicKey.None? {
      return Err(NoIdentityKey);
    }
    return Ok(keys.value.blsG1PublicKey.value);
  }
}
