/**
 * The chain behind an honest reader, as a transition system over one DID: the DID is spent, launches
 * stores in such spends and is melted; foreign stores are launched; stores change and are melted.
 */
module ChainRuns {
  import opened Addresses
  import opened ByteStrings
  import Filtering
  import opened Hashing
  import opened IdentityProfiles
  import opened Pairing
  import opened Resolution

  datatype ChainStore = ChainStore(record: StoreRecord, root: Digest, live: bool)

  /** `walk` lists the DID's coins from its launcher to its tip; `used` holds every coin id seen so far. */
  datatype ChainState = ChainState(
    launcherId: Digest, walk: seq<Digest>, live: bool, used: set<Digest>, stores: seq<ChainStore>)
  {
    function Tip(): Digest
      requires walk != []
    {
      walk[|walk| - 1]
    }

    function Lineage(): SingletonLineage
      requires walk != []
    {
      NewLineage(Tip(), walk)
    }
  }

  datatype Step =
    | SpendDid(next: Digest)
    | LaunchFromDid(next: Digest, puzzleHash: Digest, amount: nat, description: Bytes, root: Digest)
    | ForeignLaunch(launcherCoin: Coin, description: Bytes, root: Digest)
    | UpdateStore(index: nat, description: Bytes, root: Digest)
    | MeltStore(index: nat)
    | MeltDid

  /** A DID just launched: its launcher coin and its first singleton coin. */
  function Genesis(launcherId: Digest, first: Digest): ChainState {
    ChainState(launcherId, [launcherId, first], true, {launcherId, first}, [])
  }

  /** New DID coins have new ids, and a foreign store is launched from a coin outside the lineage. */
  predicate Enabled(c: ChainState, s: Step) {
    match s
    case SpendDid(next) => c.live && next !in c.used
    case LaunchFromDid(next, _, _, _, _) => c.live && next !in c.used
    case ForeignLaunch(coin, _, _) => coin.parentCoinInfo !in c.walk
    case UpdateStore(i, _, _) => i < |c.stores| && c.stores[i].live
    case MeltStore(i) => i < |c.stores| && c.stores[i].live
    case MeltDid => c.live
  }

  function Next(c: ChainState, s: Step): ChainState
    requires c.walk != [] && Enabled(c, s)
  {
    match s
    case SpendDid(next) => c.(walk := c.walk + [next], used := c.used + {next})
    case LaunchFromDid(next, puzzleHash, amount, description, root) =>
      var record := StoreRecord(description, Coin(c.Tip(), puzzleHash, amount));
      c.(walk := c.walk + [next], used := c.used + {next}, stores := c.stores + [ChainStore(record, root, true)])
    case ForeignLaunch(coin, description, root) =>
      c.(used := c.used + {coin.parentCoinInfo},
         stores := c.stores + [ChainStore(StoreRecord(description, coin), root, true)])
    case UpdateStore(i, description, root) =>
      var record := c.stores[i].record.(description := description);
      c.(stores := c.stores[i := ChainStore(record, root, true)])
    case MeltStore(i) => c.(stores := c.stores[i := c.stores[i].(live := false)])
    case MeltDid => c.(live := false)
  }

  ghost predicate IsRun(c0: ChainState, steps: seq<Step>, c: ChainState)
    decreases |steps|
  {
    if steps == [] then c == c0
    else exists before :: Leads(c0, steps, before, c)
  }

  ghost predicate Leads(c0: ChainState, steps: seq<Step>, before: ChainState, c: ChainState)
    requires steps != []
    decreases |steps|, 0
  {
    var last := steps[|steps| - 1];
    IsRun(c0, steps[..|steps| - 1], before) && before.walk != [] && Enabled(before, last) && c == Next(before, last)
  }

  predicate IsLaunch(s: Step) { s.LaunchFromDid? || s.ForeignLaunch? }

  /** The launching steps of a run; the i-th one made the i-th store. */
  function Launches(steps: seq<Step>): seq<Step> {
    if steps == [] then []
    else
      Launches(steps[..|steps| - 1]) + (if IsLaunch(steps[|steps| - 1]) then [steps[|steps| - 1]] else [])
  }

  /** What every step keeps: ids are not reused, and parents lie where their launches put them. */
  ghost predicate Sound(c: ChainState, launches: seq<Step>) {
    && c.walk != []
    && (forall k :: 0 <= k < |c.walk| ==> c.walk[k] in c.used)
    && (forall k :: 0 <= k < |c.walk| - 1 ==> c.walk[k] != c.Tip())
    && |launches| == |c.stores|
    && forall i :: 0 <= i < |c.stores| ==> CoinPlaced(c, launches[i], c.stores[i].record.launcherCoin)
  }

  /** The store's launcher coin is the one its launch made. */
  predicate MadeBy(launch: Step, coin: Coin) {
    match launch
    case LaunchFromDid(_, puzzleHash, amount, _, _) => coin.puzzleHash == puzzleHash && coin.amount == amount
    case ForeignLaunch(launcherCoin, _, _) => coin == launcherCoin
    case _ => false
  }

  /** A store the DID launched has a past coin of the DID as parent; any other has no DID coin at all. */
  ghost predicate CoinPlaced(c: ChainState, launch: Step, coin: Coin)
    requires c.walk != []
  {
    && MadeBy(launch, coin)
    && coin.parentCoinInfo in c.used
    && (if launch.LaunchFromDid? then coin.parentCoinInfo in c.walk[..|c.walk| - 1] else coin.parentCoinInfo !in c.walk)
  }

  lemma ExtendedWalk(c: ChainState, next: Digest)
    requires c.walk != [] && next !in c.used
    requires forall k :: 0 <= k < |c.walk| ==> c.walk[k] in c.used
    ensures var w := c.walk + [next];
            && w[..|w| - 1] == c.walk
            && (forall k :: 0 <= k < |w| - 1 ==> w[k] != next)
            && (forall p :: p in c.walk[..|c.walk| - 1] ==> p in c.walk)
            && (forall p :: p in w <==> p in c.walk || p == next)
  {}

  lemma StepKeepsSound(c: ChainState, launches: seq<Step>, s: Step)
    requires Sound(c, launches) && Enabled(c, s)
    ensures Sound(Next(c, s), launches + (if IsLaunch(s) then [s] else []))
  {
    var d := Next(c, s);
    var ls := launches + (if IsLaunch(s) then [s] else []);
    if s.SpendDid? || s.LaunchFromDid? {
      ExtendedWalk(c, s.next);
    }
    forall i | 0 <= i < |d.stores|
      ensures CoinPlaced(d, ls[i], d.stores[i].record.launcherCoin)
    {
      if i < |c.stores| {
        assert CoinPlaced(c, launches[i], c.stores[i].record.launcherCoin);
      }
    }
  }

  lemma {:induction false} RunIsSound(launcherId: Digest, first: Digest, steps: seq<Step>, c: ChainState)
    requires launcherId != first && IsRun(Genesis(launcherId, first), steps, c)
    ensures Sound(c, Launches(steps)) && c.launcherId == launcherId
    decreases |steps|
  {
    if steps != [] {
      var front, last := steps[..|steps| - 1], steps[|steps| - 1];
      var before :| Leads(Genesis(launcherId, first), steps, before, c);
      RunIsSound(launcherId, first, front, before);
      StepKeepsSound(before, Launches(front), last);
    }
  }

  /**
   * In every state of every run a store's parent is in the DID's lineage exactly when the DID launched
   * the store: all later DID spends keep it authoritative, and a foreign store never becomes so.
   */
  lemma AuthorityIsDidLaunch(launcherId: Digest, first: Digest, steps: seq<Step>, c: ChainState, i: nat)
    requires launcherId != first && IsRun(Genesis(launcherId, first), steps, c) && i < |c.stores|
    ensures c.walk != [] && i < |Launches(steps)|
    ensures MadeBy(Launches(steps)[i], c.stores[i].record.launcherCoin)
    ensures c.Lineage().Contains(c.stores[i].record.launcherCoin.parentCoinInfo) <==> Launches(steps)[i].LaunchFromDid?
  {
    RunIsSound(launcherId, first, steps, c);
    assert CoinPlaced(c, Launches(steps)[i], c.stores[i].record.launcherCoin);
  }

  /** A rule that asked for the tip itself rejects every store the DID launched, at its launch and ever after. */
  lemma TipRuleRejectsEveryLaunch(launcherId: Digest, first: Digest, steps: seq<Step>, c: ChainState, i: nat)
    requires launcherId != first && IsRun(Genesis(launcherId, first), steps, c)
    requires i < |c.stores| && i < |Launches(steps)| && Launches(steps)[i].LaunchFromDid?
    ensures c.walk != [] && c.stores[i].record.launcherCoin.parentCoinInfo != c.Lineage().tip
  {
    RunIsSound(launcherId, first, steps, c);
    assert CoinPlaced(c, Launches(steps)[i], c.stores[i].record.launcherCoin);
  }

  // ----- resolution over a run -----

  function StateOf(s: ChainStore): ChainStoreState { ChainStoreState(s.record, s.root) }

  /**
   * The reader tells the truth about `c`: the whole lineage while the DID lives, and, in some order and
   * once each, live stores with their current state, among them all that name the DID.
   */
  ghost predicate Honest(parse: DidParser, c: ChainState, did: Did, source: ChainSource, order: seq<nat>) {
    && c.walk != []
    && source.resolveSingletonLineage(did.launcherId) == Ok(if c.live then Some(c.Lineage()) else None)
    && (forall k :: 0 <= k < |order| ==> order[k] < |c.stores| && c.stores[order[k]].live)
    && (forall j, k :: 0 <= j < |order| && 0 <= k < |order| && order[j] == order[k] ==> j == k)
    && (forall i: nat | i < |c.stores| :: c.stores[i].live && parse(c.stores[i].record.description) == Some(did) ==>
          i in order)
    && source.findStoresForDid(did) == Ok(Scan(c, order))
  }

  function Scan(c: ChainState, order: seq<nat>): Candidates
    requires forall k :: 0 <= k < |order| ==> order[k] < |c.stores|
  {
    seq(|order|, k requires 0 <= k < |order| => StateOf(c.stores[order[k]]))
  }

  /** A live store that currently names the DID and that the DID launched. */
  ghost predicate IsProfileStore(parse: DidParser, c: ChainState, launches: seq<Step>, did: Did, i: nat) {
    && i < |c.stores| && i < |launches|
    && c.stores[i].live
    && parse(c.stores[i].record.description) == Some(did)
    && launches[i].LaunchFromDid?
  }

  ghost predicate NoProfileStore(parse: DidParser, c: ChainState, launches: seq<Step>, did: Did) {
    forall i: nat :: !IsProfileStore(parse, c, launches, did, i)
  }

  ghost predicate SeveralProfileStores(parse: DidParser, c: ChainState, launches: seq<Step>, did: Did) {
    exists i: nat, j: nat ::
      i != j && IsProfileStore(parse, c, launches, did, i) && IsProfileStore(parse, c, launches, did, j)
  }

  ghost predicate IsOnlyProfileStore(parse: DidParser, c: ChainState, launches: seq<Step>, did: Did, i: nat) {
    && IsProfileStore(parse, c, launches, did, i)
    && forall j: nat :: IsProfileStore(parse, c, launches, did, j) ==> j == i
  }

  /** A state has no profile store of the DID, exactly one, or several. */
  lemma NoneOnlyOrSeveral(parse: DidParser, c: ChainState, launches: seq<Step>, did: Did)
    ensures NoProfileStore(parse, c, launches, did)
         || SeveralProfileStores(parse, c, launches, did)
         || exists i: nat :: IsOnlyProfileStore(parse, c, launches, did, i)
  {
    if i: nat :| IsProfileStore(parse, c, launches, did, i) {
      if !SeveralProfileStores(parse, c, launches, did) {
        assert IsOnlyProfileStore(parse, c, launches, did, i);
      }
    }
  }

  /** The scan's authoritative positions are those of the DID's profile stores. */
  lemma ScannedAuthority(
    parse: DidParser, c: ChainState, launches: seq<Step>, did: Did, source: ChainSource, order: seq<nat>, k: nat)
    requires Sound(c, launches) && Honest(parse, c, did, source, order) && k < |order|
    ensures Authentic(parse, IdentitySingleton(did, c.Lineage()))(Scan(c, order)[k]) <==>
            IsProfileStore(parse, c, launches, did, order[k])
  {
    assert CoinPlaced(c, launches[order[k]], c.stores[order[k]].record.launcherCoin);
  }

  lemma ScannedNone(
    parse: DidParser, c: ChainState, launches: seq<Step>, did: Did, source: ChainSource, order: seq<nat>)
    requires Sound(c, launches) && Honest(parse, c, did, source, order)
    requires NoProfileStore(parse, c, launches, did)
    ensures Filtering.NonePass(Authentic(parse, IdentitySingleton(did, c.Lineage())), Scan(c, order))
  {
    forall k | 0 <= k < |order|
      ensures !Authentic(parse, IdentitySingleton(did, c.Lineage()))(Scan(c, order)[k])
    {
      ScannedAuthority(parse, c, launches, did, source, order, k);
    }
  }

  lemma ScannedSole(
    parse: DidParser, c: ChainState, launches: seq<Step>, did: Did, source: ChainSource, order: seq<nat>, i: nat)
    returns (k: nat)
    requires Sound(c, launches) && Honest(parse, c, did, source, order)
    requires IsOnlyProfileStore(parse, c, launches, did, i)
    ensures k < |order| && order[k] == i
    ensures Filtering.SolePass(Authentic(parse, IdentitySingleton(did, c.Lineage())), Scan(c, order), k)
  {
    k :| 0 <= k < |order| && order[k] == i;
    forall j | 0 <= j < |order|
      ensures Authentic(parse, IdentitySingleton(did, c.Lineage()))(Scan(c, order)[j]) <==> j == k
    {
      ScannedAuthority(parse, c, launches, did, source, order, j);
    }
  }

  lemma ScannedTwo(
    parse: DidParser, c: ChainState, launches: seq<Step>, did: Did, source: ChainSource, order: seq<nat>)
    returns (a: nat, b: nat)
    requires Sound(c, launches) && Honest(parse, c, did, source, order)
    requires SeveralProfileStores(parse, c, launches, did)
    ensures Filtering.TwoPass(Authentic(parse, IdentitySingleton(did, c.Lineage())), Scan(c, order), a, b)
  {
    var i: nat, j: nat :|
      i != j && IsProfileStore(parse, c, launches, did, i) && IsProfileStore(parse, c, launches, did, j);
    var k1: nat :| k1 < |order| && order[k1] == i;
    var k2: nat :| k2 < |order| && order[k2] == j;
    ScannedAuthority(parse, c, launches, did, source, order, k1);
    ScannedAuthority(parse, c, launches, did, source, order, k2);
    a, b := if k1 < k2 then k1 else k2, if k1 < k2 then k2 else k1;
  }

  /** What resolving a living DID must yield, said by its stores and launches alone. */
  ghost predicate ExpectedChoice(
    h: Hash, parse: DidParser, c: ChainState, launches: seq<Step>, did: Did, source: ChainSource,
    r: Result<IdentityState, ResolveError>)
    requires c.walk != []
  {
    && (r == Err(NoProfile) <==> NoProfileStore(parse, c, launches, did))
    && (r == Err(AmbiguousProfile) <==> SeveralProfileStores(parse, c, launches, did))
    && (forall i: nat :: IsOnlyProfileStore(parse, c, launches, did, i) ==>
          r == BindRoot(h, IdentitySingleton(did, c.Lineage()), StateOf(c.stores[i]), source))
  }

  lemma ChoiceInState(
    h: Hash, parse: DidParser, c: ChainState, launches: seq<Step>, did: Did, source: ChainSource, order: seq<nat>)
    requires Sound(c, launches) && Honest(parse, c, did, source, order)
    ensures ExpectedChoice(h, parse, c, launches, did, source,
                           Choose(h, parse, IdentitySingleton(did, c.Lineage()), Scan(c, order), source))
  {
    CandidatesDecide(h, parse, IdentitySingleton(did, c.Lineage()), Scan(c, order), source);
    NoneOnlyOrSeveral(parse, c, launches, did);
    if NoProfileStore(parse, c, launches, did) {
      ScannedNone(parse, c, launches, did, source, order);
    } else if SeveralProfileStores(parse, c, launches, did) {
      var a, b := ScannedTwo(parse, c, launches, did, source, order);
    } else {
      var i: nat :| IsOnlyProfileStore(parse, c, launches, did, i);
      var k := ScannedSole(parse, c, launches, did, source, order, i);
    }
  }

  /**
   * Resolution through an honest reader, in every state of every run and for any order of its scan: a
   * melted DID has no identity; a living one resolves to its one live profile store, bound to that
   * store's current root, and to an error when it has none or several.
   */
  lemma ResolutionOverRun(
    h: Hash, parse: DidParser, uri: Bytes, did: Did, first: Digest, steps: seq<Step>, c: ChainState,
    source: ChainSource, order: seq<nat>)
    requires parse(uri) == Some(did) && did.launcherId != first
    requires IsRun(Genesis(did.launcherId, first), steps, c) && Honest(parse, c, did, source, order)
    ensures var r := ResolutionOf(h, parse, uri, source);
            if c.live then ExpectedChoice(h, parse, c, Launches(steps), did, source, r)
            else r == Err(NoIdentitySingleton)
  {
    RunIsSound(did.launcherId, first, steps, c);
    ChoiceInState(h, parse, c, Launches(steps), did, source, order);
  }
}
