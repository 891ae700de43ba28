/** Publishing and reading back: what a writer puts on chain is what every honest reader resolves. */
module Publishing {
  import opened Addresses
  import opened ByteStrings
  import opened ChainRuns
  import EndToEnd
  import opened Hashing
  import opened IdentityProfiles
  import Pairing
  import opened Profiles
  import opened Resolution

  lemma RunExtends(c0: ChainState, steps: seq<Step>, c: ChainState, s: Step)
    requires IsRun(c0, steps, c) && c.walk != [] && Enabled(c, s)
    ensures IsRun(c0, steps + [s], Next(c, s))
    ensures Launches(steps + [s]) == Launches(steps) + (if IsLaunch(s) then [s] else [])
  {
    assert (steps + [s])[..|steps|] == steps;
    assert Leads(c0, steps + [s], c, Next(c, s));
  }

  /** The profile an honest reader should arrive at for store `i`. */
  function PublishedAt(c: ChainState, did: Did, i: nat, m: SlotMap): IdentityState
    requires c.walk != [] && i < |c.stores|
  {
    IdentityState(Pairing.IdentitySingleton(did, c.Lineage()), c.stores[i].record, m, c.stores[i].root)
  }

  /** A living DID with one live profile store resolves to whatever binding that store's root gives. */
  lemma OnlyStoreBinds(
    h: Hash, parse: DidParser, uri: Bytes, did: Did, first: Digest, steps: seq<Step>, c: ChainState,
    source: ChainSource, order: seq<nat>, i: nat)
    requires parse(uri) == Some(did) && did.launcherId != first
    requires IsRun(Genesis(did.launcherId, first), steps, c) && Honest(parse, c, did, source, order)
    requires c.live && IsOnlyProfileStore(parse, c, Launches(steps), did, i)
    ensures ResolutionOf(h, parse, uri, source)
         == BindRoot(h, Pairing.IdentitySingleton(did, c.Lineage()), StateOf(c.stores[i]), source)
  {
    ResolutionOverRun(h, parse, uri, did, first, steps, c, source, order);
  }

  /** A living DID with one live profile store, read with the body its root commits to, resolves to it. */
  lemma OnlyStoreResolves(
    h: Hash, parse: DidParser, uri: Bytes, did: Did, first: Digest, steps: seq<Step>, c: ChainState,
    source: ChainSource, order: seq<nat>, i: nat, m: SlotMap)
    requires parse(uri) == Some(did) && did.launcherId != first
    requires IsRun(Genesis(did.launcherId, first), steps, c) && Honest(parse, c, did, source, order)
    requires c.live && IsOnlyProfileStore(parse, c, Launches(steps), did, i)
    requires c.stores[i].root == ProfileRoot(h, m)
    requires source.fetchProfile(c.stores[i].record, c.stores[i].root) == Ok(m)
    ensures ResolutionOf(h, parse, uri, source) == Ok(PublishedAt(c, did, i, m))
  {
    OnlyStoreBinds(h, parse, uri, did, first, steps, c, source, order, i);
  }

  /**
   * A DID without a profile launches a store that names it: in the very next state, where the launch has
   * already moved the DID's tip on, every honest reader that is served the committed body resolves the DID
   * to that store and that body.
   */
  lemma LaunchThenResolve(
    h: Hash, parse: DidParser, uri: Bytes, did: Did, first: Digest, steps: seq<Step>, c: ChainState, launch: Step,
    source: ChainSource, order: seq<nat>, m: SlotMap)
    requires parse(uri) == Some(did) && did.launcherId != first
    requires IsRun(Genesis(did.launcherId, first), steps, c) && c.walk != []
    requires NoProfileStore(parse, c, Launches(steps), did)
    requires launch.LaunchFromDid? && Enabled(c, launch)
    requires parse(launch.description) == Some(did) && launch.root == ProfileRoot(h, m)
    requires var d := Next(c, launch);
             && Honest(parse, d, did, source, order)
             && source.fetchProfile(d.stores[|c.stores|].record, launch.root) == Ok(m)
    ensures ResolutionOf(h, parse, uri, source) == Ok(PublishedAt(Next(c, launch), did, |c.stores|, m))
  {
    var d, launches := Next(c, launch), Launches(steps);
    RunIsSound(did.launcherId, first, steps, c);
    RunExtends(Genesis(did.launcherId, first), steps, c, launch);
    forall j: nat
      ensures IsProfileStore(parse, d, launches + [launch], did, j) <==> j == |c.stores|
    {
      assert !IsProfileStore(parse, c, launches, did, j);
    }
    OnlyStoreResolves(h, parse, uri, did, first, steps + [launch], d, source, order, |c.stores|, m);
  }

  /** An update that still names the DID leaves the only profile store the only one. */
  lemma UpdateKeepsOnlyStore(
    parse: DidParser, did: Did, first: Digest, steps: seq<Step>, c: ChainState, update: Step)
    requires IsRun(Genesis(did.launcherId, first), steps, c) && c.walk != []
    requires update.UpdateStore? && Enabled(c, update) && parse(update.description) == Some(did)
    requires IsOnlyProfileStore(parse, c, Launches(steps), did, update.index)
    ensures IsRun(Genesis(did.launcherId, first), steps + [update], Next(c, update))
    ensures Launches(steps + [update]) == Launches(steps)
    ensures IsOnlyProfileStore(parse, Next(c, update), Launches(steps), did, update.index)
  {
    var d, launches := Next(c, update), Launches(steps);
    RunExtends(Genesis(did.launcherId, first), steps, c, update);
    forall j: nat
      ensures IsProfileStore(parse, d, launches, did, j) <==> j == update.index
    {
      assert IsProfileStore(parse, c, launches, did, j) <==> j == update.index;
    }
    assert launches + [] == launches;
  }

  /** Updating the store to the root of a body makes every honest reader that is served it resolve to it. */
  lemma UpdateThenResolve(
    h: Hash, parse: DidParser, uri: Bytes, did: Did, first: Digest, steps: seq<Step>, c: ChainState, update: Step,
    source: ChainSource, order: seq<nat>, m: SlotMap)
    requires parse(uri) == Some(did) && did.launcherId != first
    requires IsRun(Genesis(did.launcherId, first), steps, c) && c.walk != [] && c.live
    requires update.UpdateStore? && Enabled(c, update)
    requires IsOnlyProfileStore(parse, c, Launches(steps), did, update.index)
    requires parse(update.description) == Some(did) && update.root == ProfileRoot(h, m)
    requires var d := Next(c, update);
             && Honest(parse, d, did, source, order)
             && source.fetchProfile(d.stores[update.index].record, update.root) == Ok(m)
    ensures ResolutionOf(h, parse, uri, source) == Ok(PublishedAt(Next(c, update), did, update.index, m))
  {
    UpdateKeepsOnlyStore(parse, did, first, steps, c, update);
    OnlyStoreResolves(
      h, parse, uri, did, first, steps + [update], Next(c, update), source, order, update.index, m);
  }

  /** A body accepted against a root is the one the root was computed from, or the hash broke. */
  lemma BoundBodyIsCommitted(
    h: Hash, singleton: Pairing.IdentitySingleton, chosen: ChainStoreState, source: ChainSource, committed: SlotMap)
    requires chosen.rootHash == ProfileRoot(h, committed)
    ensures var r := BindRoot(h, singleton, chosen, source);
            r.Ok? ==>
              || r.value == IdentityState(singleton, chosen.store, committed, chosen.rootHash)
              || Broken(h, ProfileQueries(h, r.value.metadata, committed))
  {
    var r := BindRoot(h, singleton, chosen, source);
    if r.Ok? {
      RootBindsProfile(h, r.value.metadata, committed);
    }
  }

  /**
   * Safety of publishing, for any body the reader is served: once the root a writer committed after any
   * edits is on chain, what resolves is the metadata at the last commit or nothing, or the hash broke.
   */
  lemma OnlyCommittedEditsResolve(
    h: Hash, parse: DidParser, uri: Bytes, did: Did, first: Digest, steps: seq<Step>, c: ChainState, update: Step,
    source: ChainSource, order: seq<nat>, st: IdentityState, es: seq<Edit>)
    requires parse(uri) == Some(did) && did.launcherId != first
    requires IsRun(Genesis(did.launcherId, first), steps, c) && c.walk != [] && c.live
    requires update.UpdateStore? && Enabled(c, update)
    requires IsOnlyProfileStore(parse, c, Launches(steps), did, update.index)
    requires st.root == ProfileRoot(h, st.metadata)
    requires parse(update.description) == Some(did) && update.root == After(h, st, es).root
    requires Honest(parse, Next(c, update), did, source, order)
    ensures var r, snapshot := ResolutionOf(h, parse, uri, source), Snapshot(h, st, es);
            r.Ok? ==>
              || (r.value == PublishedAt(Next(c, update), did, update.index, snapshot)
                  && r.value.root == After(h, st, es).root
                  && HoldsLastValues(r.value.metadata, st.metadata, es[..LastCommit(es)]))
              || Broken(h, ProfileQueries(h, r.value.metadata, snapshot))
  {
    UpdateKeepsOnlyStore(parse, did, first, steps, c, update);
    OnlyStoreBinds(h, parse, uri, did, first, steps + [update], Next(c, update), source, order, update.index);
    RootIsLastSnapshot(h, st, es);
    AfterHoldsLastValues(h, st, es[..LastCommit(es)]);
    var d := Next(c, update);
    BoundBodyIsCommitted(
      h, Pairing.IdentitySingleton(did, d.Lineage()), StateOf(d.stores[update.index]), source, Snapshot(h, st, es));
  }

  /** Its liveness: a reader that is served the committed body does resolve to it. */
  lemma EditCommitUpdateResolve(
    h: Hash, parse: DidParser, uri: Bytes, did: Did, first: Digest, steps: seq<Step>, c: ChainState, update: Step,
    source: ChainSource, order: seq<nat>, st: IdentityState, es: seq<Edit>)
    requires parse(uri) == Some(did) && did.launcherId != first
    requires IsRun(Genesis(did.launcherId, first), steps, c) && c.walk != [] && c.live
    requires update.UpdateStore? && Enabled(c, update)
    requires IsOnlyProfileStore(parse, c, Launches(steps), did, update.index)
    requires st.root == ProfileRoot(h, st.metadata)
    requires parse(update.description) == Some(did) && update.root == After(h, st, es).root
    requires var d := Next(c, update);
             && Honest(parse, d, did, source, order)
             && source.fetchProfile(d.stores[update.index].record, update.root) == Ok(Snapshot(h, st, es))
    ensures var r := ResolutionOf(h, parse, uri, source);
            && r == Ok(PublishedAt(Next(c, update), did, update.index, Snapshot(h, st, es)))
            && r.value.root == After(h, st, es).root
            && HoldsLastValues(r.value.metadata, st.metadata, es[..LastCommit(es)])
  {
    RootIsLastSnapshot(h, st, es);
    AfterHoldsLastValues(h, st, es[..LastCommit(es)]);
    UpdateThenResolve(h, parse, uri, did, first, steps, c, update, source, order, Snapshot(h, st, es));
  }

  /**
   * Two honest readers of one chain state, whatever order they scan in and whatever bodies they fetch,
   * never resolve a DID to different profiles, unless the hash broke while auditing the two bodies.
   */
  lemma HonestReadersAgree(
    h: Hash, parse: DidParser, uri: Bytes, did: Did, first: Digest, steps: seq<Step>, c: ChainState,
    source1: ChainSource, order1: seq<nat>, source2: ChainSource, order2: seq<nat>)
    requires parse(uri) == Some(did) && did.launcherId != first
    requires IsRun(Genesis(did.launcherId, first), steps, c)
    requires Honest(parse, c, did, source1, order1) && Honest(parse, c, did, source2, order2)
    requires ResolutionOf(h, parse, uri, source1).Ok? && ResolutionOf(h, parse, uri, source2).Ok?
    ensures var p1, p2 := ResolutionOf(h, parse, uri, source1).value, ResolutionOf(h, parse, uri, source2).value;
            p1 == p2 || Broken(h, ProfileQueries(h, p1.metadata, p2.metadata))
  {
    var r1, r2 := ResolutionOf(h, parse, uri, source1), ResolutionOf(h, parse, uri, source2);
    ResolutionOverRun(h, parse, uri, did, first, steps, c, source1, order1);
    ResolutionOverRun(h, parse, uri, did, first, steps, c, source2, order2);
    var i := EndToEnd.OnlyStoreOfSuccess(h, parse, c, Launches(steps), did, source1, r1);
    var j := EndToEnd.OnlyStoreOfSuccess(h, parse, c, Launches(steps), did, source2, r2);
    RootBindsProfile(h, r1.value.metadata, r2.value.metadata);
  }

  /** A reader that serves an older or altered body instead of the committed one is refused. */
  lemma OtherBodyIsStale(
    h: Hash, parse: DidParser, uri: Bytes, did: Did, first: Digest, steps: seq<Step>, c: ChainState,
    source: ChainSource, order: seq<nat>, i: nat, committed: SlotMap, served: SlotMap)
    requires parse(uri) == Some(did) && did.launcherId != first
    requires IsRun(Genesis(did.launcherId, first), steps, c) && Honest(parse, c, did, source, order)
    requires c.live && IsOnlyProfileStore(parse, c, Launches(steps), did, i)
    requires c.stores[i].root == ProfileRoot(h, committed)
    requires source.fetchProfile(c.stores[i].record, c.stores[i].root) == Ok(served)
    ensures Broken(h, ProfileQueries(h, served, committed))
         || (ResolutionOf(h, parse, uri, source) == Err(StaleOrTamperedRoot) <==> served != committed)
  {
    OnlyStoreBinds(h, parse, uri, did, first, steps, c, source, order, i);
    RootBindsProfile(h, served, committed);
  }

  // ----- what others do -----

  /** A step taken without the DID, on stores the DID did not launch. */
  predicate ForeignStep(launches: seq<Step>, s: Step) {
    match s
    case ForeignLaunch(_, _, _) => true
    case UpdateStore(i, _, _) => i < |launches| && launches[i].ForeignLaunch?
    case MeltStore(i) => i < |launches| && launches[i].ForeignLaunch?
    case _ => false
  }

  predicate AllForeign(launches: seq<Step>, steps: seq<Step>) {
    steps == []
    || (var front := steps[..|steps| - 1];
        AllForeign(launches, front) && ForeignStep(launches + Launches(front), steps[|steps| - 1]))
  }

  /** Nothing the DID launched has changed, nor the DID itself, and what is new it did not launch. */
  ghost predicate SameForDid(c: ChainState, launches: seq<Step>, d: ChainState, later: seq<Step>) {
    && d.walk == c.walk && d.live == c.live
    && |launches| == |c.stores| && |launches| + |later| == |d.stores|
    && (forall i :: 0 <= i < |launches| && launches[i].LaunchFromDid? ==> d.stores[i] == c.stores[i])
    && (forall i :: 0 <= i < |later| ==> !later[i].LaunchFromDid?)
  }

  lemma {:induction false} ForeignRunIsSame(c: ChainState, launches: seq<Step>, more: seq<Step>, d: ChainState)
    requires |launches| == |c.stores|
    requires IsRun(c, more, d) && AllForeign(launches, more)
    ensures SameForDid(c, launches, d, Launches(more))
    decreases |more|
  {
    if more != [] {
      var front, last := more[..|more| - 1], more[|more| - 1];
      var before :| Leads(c, more, before, d);
      ForeignRunIsSame(c, launches, front, before);
    }
  }

  lemma {:induction false} RunsConcat(c0: ChainState, steps: seq<Step>, c: ChainState, more: seq<Step>, d: ChainState)
    requires IsRun(c0, steps, c) && IsRun(c, more, d)
    ensures IsRun(c0, steps + more, d) && Launches(steps + more) == Launches(steps) + Launches(more)
    decreases |more|
  {
    if more == [] {
      assert steps + more == steps;
    } else {
      var front, last := more[..|more| - 1], more[|more| - 1];
      var before :| Leads(c, more, before, d);
      RunsConcat(c0, steps, c, front, before);
      RunExtends(c0, steps + front, before, last);
      assert steps + more == steps + front + [last];
    }
  }

  lemma SameProfileStores(
    parse: DidParser, did: Did, c: ChainState, launches: seq<Step>, d: ChainState, later: seq<Step>, i: nat)
    requires SameForDid(c, launches, d, later)
    ensures IsProfileStore(parse, d, launches + later, did, i) <==> IsProfileStore(parse, c, launches, did, i)
    ensures IsProfileStore(parse, c, launches, did, i) ==> d.stores[i] == c.stores[i]
  {}

  /**
   * Foreign launches under any description, and updates and melts of foreign stores, in any number, leave
   * every honest resolution of a DID as it was.
   */
  lemma ForeignStepsChangeNothing(
    h: Hash, parse: DidParser, uri: Bytes, did: Did, first: Digest, steps: seq<Step>, c: ChainState,
    more: seq<Step>, d: ChainState, source1: ChainSource, order1: seq<nat>, source2: ChainSource, order2: seq<nat>)
    requires parse(uri) == Some(did) && did.launcherId != first
    requires IsRun(Genesis(did.launcherId, first), steps, c) && IsRun(c, more, d)
    requires AllForeign(Launches(steps), more)
    requires Honest(parse, c, did, source1, order1) && Honest(parse, d, did, source2, order2)
    requires source1.fetchProfile == source2.fetchProfile
    ensures ResolutionOf(h, parse, uri, source1) == ResolutionOf(h, parse, uri, source2)
  {
    var launches, later := Launches(steps), Launches(more);
    RunIsSound(did.launcherId, first, steps, c);
    ForeignRunIsSame(c, launches, more, d);
    RunsConcat(Genesis(did.launcherId, first), steps, c, more, d);
    ResolutionOverRun(h, parse, uri, did, first, steps, c, source1, order1);
    ResolutionOverRun(h, parse, uri, did, first, steps + more, d, source2, order2);
    forall i: nat
      ensures IsProfileStore(parse, d, launches + later, did, i) <==> IsProfileStore(parse, c, launches, did, i)
      ensures IsProfileStore(parse, c, launches, did, i) ==> d.stores[i] == c.stores[i]
    {
      SameProfileStores(parse, did, c, launches, d, later, i);
    }
    SameOutcome(h, parse, c, launches, d, launches + later, did, source1, source2,
                ResolutionOf(h, parse, uri, source1), ResolutionOf(h, parse, uri, source2));
  }

  lemma SameOutcome(
    h: Hash, parse: DidParser, c: ChainState, launches: seq<Step>, d: ChainState, launches': seq<Step>, did: Did,
    source1: ChainSource, source2: ChainSource,
    r1: Result<IdentityState, ResolveError>, r2: Result<IdentityState, ResolveError>)
    requires d.walk == c.walk != [] && d.live == c.live
    requires source1.fetchProfile == source2.fetchProfile
    requires forall i: nat ::
               IsProfileStore(parse, d, launches', did, i) <==> IsProfileStore(parse, c, launches, did, i)
    requires forall i: nat :: IsProfileStore(parse, c, launches, did, i) ==>
               i < |d.stores| && d.stores[i] == c.stores[i]
    requires if c.live then ExpectedChoice(h, parse, c, launches, did, source1, r1) else r1 == Err(NoIdentitySingleton)
    requires if d.live then ExpectedChoice(h, parse, d, launches', did, source2, r2) else r2 == Err(NoIdentitySingleton)
    ensures r1 == r2
  {
    if c.live {
      NoneOnlyOrSeveral(parse, c, launches, did);
      if i: nat :| IsOnlyProfileStore(parse, c, launches, did, i) {
        assert IsOnlyProfileStore(parse, d, launches', did, i);
      }
    }
  }
}
