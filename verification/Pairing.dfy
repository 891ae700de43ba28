/** The two-link pairing predicate between a store and a DID's singleton lineage. */
module Pairing {
  import Addresses
  import opened ByteStrings

  datatype Coin = Coin(parentCoinInfo: Digest, puzzleHash: Digest, amount: nat)

  datatype StoreRecord = StoreRecord(description: Bytes, launcherCoin: Coin)

  /** Every coin id of a DID singleton from its launcher to its unspent tip. */
  datatype SingletonLineage = SingletonLineage(tip: Digest, members: set<Digest>) {
    predicate Contains(coinId: Digest) { coinId in members }
  }

  /** The tip always counts as a member. */
  function NewLineage(tip: Digest, walk: seq<Digest>): (r: SingletonLineage)
    ensures r.tip == tip && forall c :: r.Contains(c) <==> c == tip || c in walk
  {
    SingletonLineage(tip, (set c | c in walk) + {tip})
  }

  datatype IdentitySingleton = IdentitySingleton(did: Addresses.Did, lineage: SingletonLineage)

  datatype PairingOutcome = PairingOutcome(discoveryMatches: bool, authorityMatches: bool) {
    predicate IsAuthoritative() { discoveryMatches && authorityMatches }
  }

  function EvaluatePairing(parse: Addresses.DidParser, store: StoreRecord, singleton: IdentitySingleton)
    : (r: PairingOutcome)
    ensures r.discoveryMatches <==> parse(store.description) == Some(singleton.did)
    ensures r.authorityMatches <==> store.launcherCoin.parentCoinInfo in singleton.lineage.members
  {
    PairingOutcome(
      parse(store.description) == Some(singleton.did),
      singleton.lineage.Contains(store.launcherCoin.parentCoinInfo))
  }

  predicate IsAuthoritativeProfile(parse: Addresses.DidParser, store: StoreRecord, singleton: IdentitySingleton) {
    EvaluatePairing(parse, store, singleton).IsAuthoritative()
  }

  /** Both links: the description names the DID, and the launcher's parent is one of the DID's own coins. */
  predicate StoreBelongsToDid(parse: Addresses.DidParser, store: StoreRecord, singleton: IdentitySingleton): (r: bool)
    ensures r <==>
            && parse(store.description) == Some(singleton.did)
            && store.launcherCoin.parentCoinInfo in singleton.lineage.members
  {
    IsAuthoritativeProfile(parse, store, singleton)
  }
}
