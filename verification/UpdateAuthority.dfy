/** Who may advance a store's root, over heights that advance and delegations granted and revoked in place. */
module UpdateAuthority {
  import opened ByteStrings

  datatype DelegationKind = Writer | Admin | Oracle {
    predicate GrantsUpdate() { Writer? || Admin? }
  }

  datatype WriterDelegation = WriterDelegation(
    delegatePuzzleHash: Digest, kind: DelegationKind, revoked: bool, expiresAtHeight: Option<nat>)
  {
    predicate Authorizes(caller: Digest, height: nat) {
      && delegatePuzzleHash == caller
      && kind.GrantsUpdate()
      && !revoked
      && (expiresAtHeight.None? || height < expiresAtHeight.value)
    }
  }

  datatype StoreUpdateAuthority = StoreUpdateAuthority(
    ownerPuzzleHash: Digest, delegations: seq<WriterDelegation>, currentHeight: nat)
  {
    predicate Authorizes(caller: Digest) {
      if caller == ownerPuzzleHash then true
      else exists i :: 0 <= i < |delegations| && delegations[i].Authorizes(caller, currentHeight)
    }

    /** What a conforming source keeps: one entry per delegate. */
    ghost predicate OnePerDelegate() {
      forall i, j | 0 <= i < j < |delegations| ::
        delegations[i].delegatePuzzleHash != delegations[j].delegatePuzzleHash
    }
  }

  // ----- runs -----

  datatype Event =
    | AdvanceBy(blocks: nat)
    | Revoke(index: nat)
    | Grant(delegation: WriterDelegation)

  /** The entry of a delegate, or the length of the list. */
  function EntryOf(ds: seq<WriterDelegation>, caller: Digest): (i: nat)
    ensures i <= |ds|
    ensures i < |ds| ==> ds[i].delegatePuzzleHash == caller
    ensures i == |ds| ==> forall j :: 0 <= j < |ds| ==> ds[j].delegatePuzzleHash != caller
  {
    if ds == [] then 0
    else if ds[0].delegatePuzzleHash == caller then 0
    else 1 + EntryOf(ds[1..], caller)
  }

  /** Revocation and grants change the single entry of their delegate; a first grant appends it. */
  function Apply(a: StoreUpdateAuthority, e: Event): StoreUpdateAuthority {
    match e
    case AdvanceBy(blocks) => a.(currentHeight := a.currentHeight + blocks)
    case Revoke(i) =>
      if i < |a.delegations| then a.(delegations := a.delegations[i := a.delegations[i].(revoked := true)]) else a
    case Grant(d) =>
      var i := EntryOf(a.delegations, d.delegatePuzzleHash);
      a.(delegations := if i < |a.delegations| then a.delegations[i := d] else a.delegations + [d])
  }

  function After(a: StoreUpdateAuthority, es: seq<Event>): StoreUpdateAuthority {
    if es == [] then a else Apply(After(a, es[..|es| - 1]), es[|es| - 1])
  }

  predicate GrantsNothingTo(es: seq<Event>, caller: Digest) {
    forall e :: e in es && e.Grant? ==> e.delegation.delegatePuzzleHash != caller
  }

  function BlocksIn(es: seq<Event>): nat {
    if es == [] then 0
    else BlocksIn(es[..|es| - 1]) + (if es[|es| - 1].AdvanceBy? then es[|es| - 1].blocks else 0)
  }

  /** One entry per delegate is kept by every event. */
  lemma {:induction false} OnePerDelegateIsKept(a: StoreUpdateAuthority, es: seq<Event>)
    requires a.OnePerDelegate()
    ensures After(a, es).OnePerDelegate()
  {
    if es != [] {
      OnePerDelegateIsKept(a, es[..|es| - 1]);
    }
  }

  /** What a delegation must be, field by field, to let `caller` update at `height`. */
  predicate LetsUpdate(d: WriterDelegation, caller: Digest, height: nat) {
    && d.delegatePuzzleHash == caller
    && (d.kind == Writer || d.kind == Admin)
    && d.revoked == false
    && (d.expiresAtHeight.Some? ==> height < d.expiresAtHeight.value)
  }

  /** An entry of the first list that lasts: it lets `caller` update at the final height and was not revoked. */
  predicate Lasts(a: StoreUpdateAuthority, es: seq<Event>, i: nat, caller: Digest) {
    && i < |a.delegations|
    && LetsUpdate(a.delegations[i], caller, a.currentHeight + BlocksIn(es))
    && Revoke(i) !in es
  }

  ghost predicate SomeEntryLasts(a: StoreUpdateAuthority, es: seq<Event>, caller: Digest) {
    exists i: nat :: Lasts(a, es, i, caller)
  }

  /** How a run without grants to `caller` has changed the entries of `caller`. */
  lemma {:induction false} EntriesAfterRun(a: StoreUpdateAuthority, es: seq<Event>, caller: Digest)
    requires GrantsNothingTo(es, caller)
    ensures var b := After(a, es);
            && b.ownerPuzzleHash == a.ownerPuzzleHash
            && b.currentHeight == a.currentHeight + BlocksIn(es)
            && |b.delegations| >= |a.delegations|
            && (forall i :: |a.delegations| <= i < |b.delegations| ==> b.delegations[i].delegatePuzzleHash != caller)
            && (forall i :: 0 <= i < |a.delegations| ==>
                  (b.delegations[i].delegatePuzzleHash == caller <==> a.delegations[i].delegatePuzzleHash == caller)
                  && (a.delegations[i].delegatePuzzleHash == caller ==>
                        b.delegations[i] ==
                          if Revoke(i) in es then a.delegations[i].(revoked := true) else a.delegations[i]))
  {
    if es != [] {
      var front, last := es[..|es| - 1], es[|es| - 1];
      assert es == front + [last];
      EntriesAfterRun(a, front, caller);
    }
  }

  /**
   * Exactly who is authorised after any run that grants nothing to `caller`: the owner, and a delegate
   * with an entry that was valid, was not revoked in the run and has not expired at its end.
   */
  lemma AuthorizedAfterRun(a: StoreUpdateAuthority, es: seq<Event>, caller: Digest)
    requires GrantsNothingTo(es, caller)
    ensures After(a, es).Authorizes(caller) <==>
            caller == a.ownerPuzzleHash || SomeEntryLasts(a, es, caller)
  {
    var b := After(a, es);
    EntriesAfterRun(a, es, caller);
    if caller != a.ownerPuzzleHash && b.Authorizes(caller) {
      var i: nat :| i < |b.delegations| && b.delegations[i].Authorizes(caller, b.currentHeight);
      assert Lasts(a, es, i, caller);
    }
    if i: nat :| Lasts(a, es, i, caller) {
      assert b.delegations[i].Authorizes(caller, b.currentHeight);
    }
  }

  // ----- runs that grant something to the caller -----

  lemma {:induction false} AfterConcat(a: StoreUpdateAuthority, es: seq<Event>, later: seq<Event>)
    ensures After(a, es + later) == After(After(a, es), later)
  {
    if later == [] {
      assert es + later == es;
    } else {
      var front, last := later[..|later| - 1], later[|later| - 1];
      assert (es + later)[..|es + later| - 1] == es + front;
      AfterConcat(a, es, front);
    }
  }

  lemma {:induction false} OwnerIsKept(a: StoreUpdateAuthority, es: seq<Event>)
    ensures After(a, es).ownerPuzzleHash == a.ownerPuzzleHash
  {
    if es != [] {
      OwnerIsKept(a, es[..|es| - 1]);
    }
  }

  /** How many events end with the last grant to `caller`; 0 when there is none. */
  function LastGrant(es: seq<Event>, caller: Digest): (n: nat)
    ensures n <= |es|
    ensures GrantsNothingTo(es[n..], caller)
    ensures n > 0 ==> es[n - 1].Grant? && es[n - 1].delegation.delegatePuzzleHash == caller
  {
    if es == [] then 0
    else
      var last := es[|es| - 1];
      if last.Grant? && last.delegation.delegatePuzzleHash == caller then |es|
      else
        var n := LastGrant(es[..|es| - 1], caller);
        assert es[n..] == es[..|es| - 1][n..] + [last];
        n
  }

  /**
   * Exactly who is authorised after any run at all: the owner, and a delegate with an entry that, after the
   * last grant to it if there was one, lasts to the end.
   */
  lemma AuthorizedAfterAnyRun(a: StoreUpdateAuthority, es: seq<Event>, caller: Digest)
    ensures var n := LastGrant(es, caller);
            After(a, es).Authorizes(caller) <==>
            caller == a.ownerPuzzleHash || SomeEntryLasts(After(a, es[..n]), es[n..], caller)
  {
    var n := LastGrant(es, caller);
    var now, rest := After(a, es[..n]), es[n..];
    assert After(a, es) == After(now, rest) by {
      AfterConcat(a, es[..n], rest);
      assert es == es[..n] + rest;
    }
    OwnerIsKept(a, es[..n]);
    AuthorizedAfterRun(now, rest, caller);
  }

  /** The entry of `caller` is `d`, and it has no other. */
  ghost predicate SoleEntry(a: StoreUpdateAuthority, e: nat, d: WriterDelegation, caller: Digest) {
    && e < |a.delegations| && a.delegations[e] == d && d.delegatePuzzleHash == caller
    && forall j :: 0 <= j < |a.delegations| && a.delegations[j].delegatePuzzleHash == caller ==> j == e
  }

  lemma GrantIsSoleEntry(a: StoreUpdateAuthority, d: WriterDelegation)
    requires a.OnePerDelegate()
    ensures SoleEntry(Apply(a, Grant(d)), EntryOf(a.delegations, d.delegatePuzzleHash), d, d.delegatePuzzleHash)
  {}

  lemma AuthorizedThroughEntry(
    a: StoreUpdateAuthority, e: nat, d: WriterDelegation, post: seq<Event>, caller: Digest)
    requires SoleEntry(a, e, d, caller) && caller != a.ownerPuzzleHash
    requires GrantsNothingTo(post, caller)
    ensures After(a, post).Authorizes(caller) <==>
            LetsUpdate(d, caller, After(a, post).currentHeight) && Revoke(e) !in post
  {
    EntriesAfterRun(a, post, caller);
    AuthorizedAfterRun(a, post, caller);
    assert Lasts(a, post, e, caller) <==> LetsUpdate(d, caller, After(a, post).currentHeight) && Revoke(e) !in post;
    forall i: nat | Lasts(a, post, i, caller)
      ensures i == e
    {
      assert a.delegations[i].delegatePuzzleHash == caller;
    }
  }

  /**
   * With one entry per delegate: after the last grant to a non-owner it is authorised exactly when that
   * very delegation is valid at the final height and its entry was not revoked since.
   */
  lemma AuthorizedAfterGrant(
    a: StoreUpdateAuthority, pre: seq<Event>, d: WriterDelegation, post: seq<Event>, caller: Digest)
    requires a.OnePerDelegate() && d.delegatePuzzleHash == caller != a.ownerPuzzleHash
    requires GrantsNothingTo(post, caller)
    ensures var end := After(a, pre + [Grant(d)] + post);
            end.Authorizes(caller) <==>
            && LetsUpdate(d, caller, end.currentHeight)
            && Revoke(EntryOf(After(a, pre).delegations, caller)) !in post
  {
    var before := After(a, pre);
    var granted := Apply(before, Grant(d));
    assert After(a, pre + [Grant(d)] + post) == After(granted, post) by {
      assert (pre + [Grant(d)])[..|pre|] == pre;
      AfterConcat(a, pre + [Grant(d)], post);
    }
    OnePerDelegateIsKept(a, pre);
    OwnerIsKept(a, pre);
    GrantIsSoleEntry(before, d);
    AuthorizedThroughEntry(granted, EntryOf(before.delegations, caller), d, post, caller);
  }

  // ----- kinds and heights that never authorise -----

  ghost predicate OnlyOracleFor(a: StoreUpdateAuthority, caller: Digest) {
    forall i :: 0 <= i < |a.delegations| && a.delegations[i].delegatePuzzleHash == caller ==>
      a.delegations[i].kind == Oracle
  }

  ghost predicate GrantsOnlyOracleTo(es: seq<Event>, caller: Digest) {
    forall e :: e in es && e.Grant? && e.delegation.delegatePuzzleHash == caller ==> e.delegation.kind == Oracle
  }

  lemma {:induction false} OnlyOracleIsKept(a: StoreUpdateAuthority, es: seq<Event>, caller: Digest)
    requires OnlyOracleFor(a, caller) && GrantsOnlyOracleTo(es, caller)
    ensures OnlyOracleFor(After(a, es), caller)
  {
    if es != [] {
      var front, last := es[..|es| - 1], es[|es| - 1];
      assert es == front + [last];
      OnlyOracleIsKept(a, front, caller);
    }
  }

  /** A non-owner that only ever holds oracle delegations is authorised at no point of any run. */
  lemma OracleNeverUpdates(a: StoreUpdateAuthority, es: seq<Event>, caller: Digest)
    requires caller != a.ownerPuzzleHash && OnlyOracleFor(a, caller) && GrantsOnlyOracleTo(es, caller)
    ensures !After(a, es).Authorizes(caller)
  {
    OnlyOracleIsKept(a, es, caller);
    OwnerIsKept(a, es);
    AuthorizedAfterRun(After(a, es), [], caller);
  }

  /** The expiries of all the delegations of `caller` have been reached; one of 0 always has. */
  ghost predicate AllExpiredFor(a: StoreUpdateAuthority, caller: Digest) {
    forall i :: 0 <= i < |a.delegations| && a.delegations[i].delegatePuzzleHash == caller ==>
      a.delegations[i].expiresAtHeight.Some? && a.delegations[i].expiresAtHeight.value <= a.currentHeight
  }

  /** Once the height has reached its expiry a delegate stays out of every later run until a new grant. */
  lemma ExpiredNeverReturns(a: StoreUpdateAuthority, es: seq<Event>, caller: Digest)
    requires caller != a.ownerPuzzleHash && AllExpiredFor(a, caller) && GrantsNothingTo(es, caller)
    ensures !After(a, es).Authorizes(caller)
  {
    AuthorizedAfterRun(a, es, caller);
  }

  /** At the heights below its expiry, and only there, a live write delegation authorises its delegate. */
  lemma ExpiryIsStrict(owner: Digest, d: WriterDelegation, expiry: nat, height: nat)
    requires d.delegatePuzzleHash != owner && d.kind != Oracle && !d.revoked && d.expiresAtHeight == Some(expiry)
    ensures StoreUpdateAuthority(owner, [d], height).Authorizes(d.delegatePuzzleHash) <==> height < expiry
  {
    var a := StoreUpdateAuthority(owner, [d], height);
    AuthorizedAfterRun(a, [], d.delegatePuzzleHash);
    assert Lasts(a, [], 0, d.delegatePuzzleHash) <==> height < expiry;
  }

  /** Without grants to a caller its authority only shrinks: once lost it never returns, and the owner keeps it. */
  lemma AuthorityOnlyShrinks(a: StoreUpdateAuthority, es: seq<Event>, later: seq<Event>, caller: Digest)
    requires GrantsNothingTo(later, caller)
    ensures After(After(a, es), later).Authorizes(caller) ==> After(a, es).Authorizes(caller)
    ensures caller == After(a, es).ownerPuzzleHash ==> After(After(a, es), later).Authorizes(caller)
  {
    var now := After(a, es);
    AuthorizedAfterRun(now, later, caller);
    if i: nat :| Lasts(now, later, i, caller) {
      assert now.delegations[i].Authorizes(caller, now.currentHeight);
    }
  }

  /** With one entry per delegate, revoking an entry takes authority from exactly its delegate. */
  lemma RevokeRemovesExactlyOne(a: StoreUpdateAuthority, i: nat, caller: Digest)
    requires a.OnePerDelegate() && i < |a.delegations|
    ensures Apply(a, Revoke(i)).Authorizes(caller) <==>
            caller == a.ownerPuzzleHash || (a.Authorizes(caller) && caller != a.delegations[i].delegatePuzzleHash)
  {
    var b := Apply(a, Revoke(i));
    if j :| 0 <= j < |a.delegations| && j != i && a.delegations[j].Authorizes(caller, a.currentHeight) {
      assert b.delegations[j] == a.delegations[j];
    }
    if j :| 0 <= j < |b.delegations| && b.delegations[j].Authorizes(caller, b.currentHeight) {
      assert b.delegations[j] == a.delegations[j];
    }
  }

  /** A revoked delegate stays out over every later run, whatever is granted to others. */
  lemma RevokedNeverReturns(a: StoreUpdateAuthority, es: seq<Event>, i: nat, later: seq<Event>)
    requires a.OnePerDelegate() && i < |After(a, es).delegations|
    requires var d := After(a, es).delegations[i].delegatePuzzleHash;
             GrantsNothingTo(later, d) && d != After(a, es).ownerPuzzleHash
    ensures var now := After(a, es);
            !After(Apply(now, Revoke(i)), later).Authorizes(now.delegations[i].delegatePuzzleHash)
  {
    var now := After(a, es);
    var d := now.delegations[i].delegatePuzzleHash;
    OnePerDelegateIsKept(a, es);
    RevokeRemovesExactlyOne(now, i, d);
    AuthorityOnlyShrinks(Apply(now, Revoke(i)), [], later, d);
  }

  /**
   * Recording a revocation by appending a revoked entry beside the live one changes nothing: the revoked
   * delegate is still authorised. Only the in-place form above takes authority away.
   */
  lemma TombstoneChangesNothing(a: StoreUpdateAuthority, tombstone: WriterDelegation, caller: Digest)
    requires tombstone.revoked
    ensures a.(delegations := a.delegations + [tombstone]).Authorizes(caller) <==> a.Authorizes(caller)
  {
    var b := a.(delegations := a.delegations + [tombstone]);
    if i :| 0 <= i < |a.delegations| && a.delegations[i].Authorizes(caller, a.currentHeight) {
      assert b.delegations[i] == a.delegations[i];
    }
  }
}
