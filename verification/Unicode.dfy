/** UTF-8 (section 3 of RFC 3629): well-formed byte strings, against the encoding of code points. */
module Unicode {
  import opened ByteStrings

  // ----- the reference: code points and their encoding -----

  /** A code point that is not a surrogate. */
  predicate IsScalar(cp: nat) { cp <= 0x10FFFF && !(0xD800 <= cp <= 0xDFFF) }

  function EncodePoint(cp: nat): (b: Bytes)
    requires IsScalar(cp)
    ensures 1 <= |b| <= 4
  {
    if cp < 0x80 then [cp]
    else if cp < 0x800 then [0xC0 + cp / 0x40, 0x80 + cp % 0x40]
    else if cp < 0x1_0000 then [0xE0 + cp / 0x1000, 0x80 + cp / 0x40 % 0x40, 0x80 + cp % 0x40]
    else [0xF0 + cp / 0x4_0000, 0x80 + cp / 0x1000 % 0x40, 0x80 + cp / 0x40 % 0x40, 0x80 + cp % 0x40]
  }

  predicate AllScalars(cps: seq<nat>) { forall i :: 0 <= i < |cps| ==> IsScalar(cps[i]) }

  function EncodePoints(cps: seq<nat>): Bytes
    requires AllScalars(cps)
  {
    if cps == [] then [] else EncodePoint(cps[0]) + EncodePoints(cps[1..])
  }

  // ----- the recogniser -----

  predicate IsTail(b: Byte) { 0x80 <= b <= 0xBF }

  /** The length of the well-formed character `b` starts with (section 4 of RFC 3629), or 0. */
  function LeadLength(b: Bytes): (n: nat)
    ensures n <= |b|
  {
    if |b| >= 1 && b[0] <= 0x7F then 1
    else if |b| >= 2 && 0xC2 <= b[0] <= 0xDF && IsTail(b[1]) then 2
    else if |b| >= 3 && 0xE0 <= b[0] <= 0xEF && IsTail(b[1]) && IsTail(b[2])
            && (b[0] == 0xE0 ==> b[1] >= 0xA0) && (b[0] == 0xED ==> b[1] <= 0x9F) then 3
    else if |b| >= 4 && 0xF0 <= b[0] <= 0xF4 && IsTail(b[1]) && IsTail(b[2]) && IsTail(b[3])
            && (b[0] == 0xF0 ==> b[1] >= 0x90) && (b[0] == 0xF4 ==> b[1] <= 0x8F) then 4
    else 0
  }

  predicate ValidUtf8(b: Bytes)
    decreases |b|
  {
    b == [] || (LeadLength(b) > 0 && ValidUtf8(b[LeadLength(b)..]))
  }

  /** A string is its UTF-8 bytes. */
  type Utf8Text = b: Bytes | ValidUtf8(b) witness []

  // ----- the recogniser accepts exactly the encodings -----

  /** The value of the six low bits of a tail byte. */
  function Six(b: Byte): nat
    requires IsTail(b)
  {
    b - 0x80
  }

  /** The code point of the character `b` starts with. */
  function LeadPoint(b: Bytes): nat
    requires LeadLength(b) > 0
  {
    var lead: int := b[0];
    if LeadLength(b) == 1 then lead
    else if LeadLength(b) == 2 then 0x40 * (lead - 0xC0) + Six(b[1])
    else if LeadLength(b) == 3 then 0x1000 * (lead - 0xE0) + 0x40 * Six(b[1]) + Six(b[2])
    else 0x4_0000 * (lead - 0xF0) + 0x1000 * Six(b[1]) + 0x40 * Six(b[2]) + Six(b[3])
  }

  lemma ThreeByteParts(x: nat, y: nat, z: nat)
    requires y < 0x40 && z < 0x40
    ensures var cp := 0x1000 * x + 0x40 * y + z;
            cp / 0x1000 == x && cp / 0x40 % 0x40 == y && cp % 0x40 == z
  {
    var cp := 0x1000 * x + 0x40 * y + z;
    assert cp / 0x40 == 0x40 * x + y;
  }

  lemma FourByteParts(w: nat, x: nat, y: nat, z: nat)
    requires x < 0x40 && y < 0x40 && z < 0x40
    ensures var cp := 0x4_0000 * w + 0x1000 * x + 0x40 * y + z;
            cp / 0x4_0000 == w && cp / 0x1000 % 0x40 == x && cp / 0x40 % 0x40 == y && cp % 0x40 == z
  {
    ThreeByteParts(0x40 * w + x, y, z);
  }

  lemma LeadIsEncodedPoint(b: Bytes)
    requires LeadLength(b) > 0
    ensures IsScalar(LeadPoint(b)) && EncodePoint(LeadPoint(b)) == b[..LeadLength(b)]
  {
    var n, cp := LeadLength(b), LeadPoint(b);
    var lead: int := b[0];
    if n == 3 {
      ThreeByteParts(lead - 0xE0, Six(b[1]), Six(b[2]));
      assert 0x800 <= cp < 0x1_0000;
    } else if n == 4 {
      FourByteParts(lead - 0xF0, Six(b[1]), Six(b[2]), Six(b[3]));
      assert 0x1_0000 <= cp <= 0x10FFFF;
    }
  }

  lemma EncodedPointIsLead(cp: nat)
    requires IsScalar(cp)
    ensures LeadLength(EncodePoint(cp)) == |EncodePoint(cp)|
  {
    var b := EncodePoint(cp);
    if 0x80 <= cp < 0x800 {
      assert 2 <= cp / 0x40 < 0x20;
    } else if 0x800 <= cp < 0x1_0000 {
      assert cp / 0x1000 == 0xD ==> cp / 0x40 % 0x40 < 0x20;
      assert cp / 0x1000 == 0 ==> cp / 0x40 % 0x40 >= 0x20;
    } else if 0x1_0000 <= cp {
      assert cp / 0x4_0000 == 4 ==> cp / 0x1000 % 0x40 < 0x10;
      assert cp / 0x4_0000 == 0 ==> cp / 0x1000 % 0x40 >= 0x10;
    }
  }

  lemma LongerStartsAlike(c: Bytes, rest: Bytes)
    requires LeadLength(c) == |c| > 0
    ensures LeadLength(c + rest) == |c|
  {
    forall i | 0 <= i < |c|
      ensures (c + rest)[i] == c[i]
    {}
  }

  lemma EncodedPointLeads(cp: nat, rest: Bytes)
    requires IsScalar(cp)
    ensures LeadLength(EncodePoint(cp) + rest) == |EncodePoint(cp)|
  {
    EncodedPointIsLead(cp);
    LongerStartsAlike(EncodePoint(cp), rest);
  }

  lemma {:induction false} ValidHasPoints(b: Bytes) returns (cps: seq<nat>)
    requires ValidUtf8(b)
    ensures AllScalars(cps) && EncodePoints(cps) == b
    decreases |b|
  {
    if b == [] {
      cps := [];
    } else {
      var n := LeadLength(b);
      LeadIsEncodedPoint(b);
      var more := ValidHasPoints(b[n..]);
      cps := [LeadPoint(b)] + more;
      assert cps[1..] == more && b == b[..n] + b[n..];
    }
  }

  lemma {:induction false} PointsAreValid(cps: seq<nat>)
    requires AllScalars(cps)
    ensures ValidUtf8(EncodePoints(cps))
  {
    if cps != [] {
      var first, rest := EncodePoint(cps[0]), EncodePoints(cps[1..]);
      PointsAreValid(cps[1..]);
      EncodedPointLeads(cps[0], rest);
      assert (first + rest)[|first|..] == rest;
    }
  }

  /** Valid UTF-8 is exactly what encodes some sequence of code points that are not surrogates. */
  lemma ValidIffEncodesPoints(b: Bytes)
    ensures ValidUtf8(b) <==> exists cps: seq<nat> :: AllScalars(cps) && EncodePoints(cps) == b
  {
    if ValidUtf8(b) {
      var cps := ValidHasPoints(b);
    }
    if cps: seq<nat> :| AllScalars(cps) && EncodePoints(cps) == b {
      PointsAreValid(cps);
    }
  }
}
