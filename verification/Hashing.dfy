/** The one hash of the format, as an arbitrary function, and the ways it can fail to bind. */
module Hashing {
  import opened ByteStrings

  /** sha256 is a parameter: every statement below holds of every function of this type. */
  type Hash = Bytes -> Digest

  const LEAF_DOMAIN: Byte := 0x01
  const MERGE_NORMAL: Byte := 0x01

  ghost predicate Collides(h: Hash, a: Bytes, b: Bytes) {
    a != b && h(a) == h(b)
  }

  ghost predicate HitsZero(h: Hash, a: Bytes) {
    a != [] && h(a) == ZERO
  }

  /**
   * Among the inputs `q` two different ones have one digest, or a non-empty one has the zero digest.
   * Some collision always exists somewhere; what counts is that it lies in the finite set `q`, which
   * each theorem fixes to inputs hashed by the computations it speaks of.
   */
  ghost predicate Broken(h: Hash, q: set<Bytes>) {
    || (exists a, b :: a in q && b in q && Collides(h, a, b))
    || (exists a :: a in q && HitsZero(h, a))
  }

  lemma BrokenGrows(h: Hash, q: set<Bytes>, larger: set<Bytes>)
    requires q <= larger
    ensures Broken(h, q) ==> Broken(h, larger)
  {}

  /** The input hashed for a leaf: domain byte, slot key, encoded value. */
  function LeafPreimage(slotKey: Digest, encoded: Bytes): Bytes {
    [LEAF_DOMAIN] + slotKey + encoded
  }

  /** The leaf digest of an encoded value; the empty blob is the absent slot and has the zero digest. */
  function LeafHash(h: Hash, slotKey: Digest, encoded: Bytes): Digest {
    if encoded == [] then ZERO else h(LeafPreimage(slotKey, encoded))
  }

  /** What `LeafHash` feeds to the hash. */
  function LeafQueries(slotKey: Digest, encoded: Bytes): set<Bytes> {
    if encoded == [] then {} else {LeafPreimage(slotKey, encoded)}
  }

  /** A leaf digest binds the blob and, unless the slot is absent, the slot key, or the hash broke on them. */
  lemma LeafHashBinds(h: Hash, k1: Digest, a: Bytes, k2: Digest, b: Bytes)
    requires LeafHash(h, k1, a) == LeafHash(h, k2, b)
    ensures (a == b && (a != [] ==> k1 == k2)) || Broken(h, LeafQueries(k1, a) + LeafQueries(k2, b))
  {
    var q := LeafQueries(k1, a) + LeafQueries(k2, b);
    var pa, pb := LeafPreimage(k1, a), LeafPreimage(k2, b);
    assert pa[1..33] == k1 && pa[33..] == a;
    assert pb[1..33] == k2 && pb[33..] == b;
    if a == [] {
      assert b == [] || (pb in q && HitsZero(h, pb));
    } else if b == [] {
      assert pa in q && HitsZero(h, pa);
    } else {
      assert pa == pb || (pa in q && pb in q && Collides(h, pa, pb));
    }
  }

  /** The incremental hasher: it accumulates what it is fed and digests it at the end. */
  class Sha256Hasher {
    const h: Hash
    var inner: Bytes

    constructor (h: Hash)
      ensures this.h == h && inner == []
    {
      this.h := h;
      inner := [];
    }

    method Update(data: Bytes)
      modifies this
      ensures inner == old(inner) + data
    {
      inner := inner + data;
    }

    method WriteH256(d: Digest)
      modifies this
      ensures inner == old(inner) + d
    {
      inner := inner + d;
    }

    method WriteByte(b: Byte)
      modifies this
      ensures inner == old(inner) + [b]
    {
      inner := inner + [b];
    }

    method Finish() returns (d: Digest)
      ensures d == h(inner)
    {
      d := h(inner);
    }
  }

  method HashLeafValue(h: Hash, slotKey: Digest, encoded: Bytes) returns (d: Digest)
    ensures d == LeafHash(h, slotKey, encoded)
    ensures encoded != [] ==> d == h([0x01] + slotKey + encoded)
    ensures encoded == [] ==> forall i :: 0 <= i < 32 ==> d[i] == 0
  {
    if |encoded| == 0 {
      return ZERO;
    }
    var hasher := new Sha256Hasher(h);
    hasher.Update([LEAF_DOMAIN]);
    hasher.Update(slotKey);
    hasher.Update(encoded);
    assert hasher.inner == LeafPreimage(slotKey, encoded);
    d := hasher.Finish();
  }
}
