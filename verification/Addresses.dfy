/** DID and payment-address strings over an abstract bech32m codec. Strings are their UTF-8 bytes. */
module Addresses {
  import opened ByteStrings
  import Trimming
  import Unicode

  /** What the bech32m codec decodes a string to. */
  datatype Address = Address(prefix: Bytes, puzzleHash: Digest)

  /** The codec is a parameter: any partial function on strings. */
  type Codec = Bytes -> Option<Address>

  /** The ASCII bytes of "did:chia:". */
  const DID_CHIA_PREFIX: Bytes := [0x64, 0x69, 0x64, 0x3A, 0x63, 0x68, 0x69, 0x61, 0x3A]

  /** The ASCII bytes of "xch". */
  const XCH_ADDRESS_HRP: Bytes := [0x78, 0x63, 0x68]

  /** The UTF-8 forms of the characters with the White_Space property. */
  predicate IsWhiteSpace(c: Bytes) {
    || (|c| == 1 && (0x09 <= c[0] <= 0x0D || c[0] == 0x20))
    || (|c| == 2 && c[0] == 0xC2 && c[1] in [0x85, 0xA0])
    || (|c| == 3 && c[0] == 0xE1 && c[1] == 0x9A && c[2] == 0x80)
    || (|c| == 3 && c[0] == 0xE2 && c[1] == 0x80 && (0x80 <= c[2] <= 0x8A || c[2] in [0xA8, 0xA9, 0xAF]))
    || (|c| == 3 && c[0] == 0xE2 && c[1] == 0x81 && c[2] == 0x9F)
    || (|c| == 3 && c[0] == 0xE3 && c[1] == 0x80 && c[2] == 0x80)
  }

  /** The code points with the White_Space property. */
  predicate IsWhiteSpacePoint(cp: nat) {
    || 0x09 <= cp <= 0x0D
    || 0x2000 <= cp <= 0x200A
    || cp in {0x20, 0x85, 0xA0, 0x1680, 0x2028, 0x2029, 0x202F, 0x205F, 0x3000}
  }

  function WhiteSpacePoint(c: Bytes): nat
    requires IsWhiteSpace(c)
  {
    var last: int := c[|c| - 1];
    if |c| == 1 then last
    else if |c| == 2 then last
    else if c[0] == 0xE1 then 0x1680
    else if c[0] == 0xE3 then 0x3000
    else if c[1] == 0x80 then 0x2000 + (last - 0x80)
    else 0x205F
  }

  lemma WhiteSpaceHasPoint(c: Bytes)
    requires IsWhiteSpace(c)
    ensures var cp := WhiteSpacePoint(c);
            IsWhiteSpacePoint(cp) && Unicode.IsScalar(cp) && Unicode.EncodePoint(cp) == c
  {}

  lemma PointIsWhiteSpace(cp: nat)
    requires IsWhiteSpacePoint(cp) && Unicode.IsScalar(cp)
    ensures IsWhiteSpace(Unicode.EncodePoint(cp))
  {}

  /** The recognised byte strings are exactly the encodings of white-space code points. */
  lemma WhiteSpaceIsEncodedPoint(c: Bytes)
    ensures IsWhiteSpace(c) <==>
            exists cp: nat :: IsWhiteSpacePoint(cp) && Unicode.IsScalar(cp) && Unicode.EncodePoint(cp) == c
  {
    if IsWhiteSpace(c) {
      WhiteSpaceHasPoint(c);
    }
    if cp: nat :| IsWhiteSpacePoint(cp) && Unicode.IsScalar(cp) && Unicode.EncodePoint(cp) == c {
      PointIsWhiteSpace(cp);
    }
  }

  function White(): Trimming.Recogniser { (c: Bytes) => IsWhiteSpace(c) }

  function SpaceAtStart(s: Bytes): nat { Trimming.SpaceAtStart(White(), s) }

  function SpaceAtEnd(s: Bytes): nat { Trimming.SpaceAtEnd(White(), s) }

  /** The string without the white space around it. */
  function Trim(s: Bytes): Bytes { Trimming.Trim(White(), s) }

  /** A string is its own trimmed form exactly when no white space surrounds it, as of any trimmed string. */
  lemma TrimIsIdempotent(s: Bytes)
    ensures Trim(Trim(s)) == Trim(s)
    ensures Trim(s) == s <==> SpaceAtStart(s) == SpaceAtEnd(s) == 0
  {
    Trimming.TrimmedIffNoSpaceAtEnds(White(), s);
  }

  /** Trimming drops white-space characters at both ends, all of them and nothing else. */
  lemma TrimDropsExactlyWhiteSpace(s: Bytes) returns (pre: seq<Bytes>, post: seq<Bytes>)
    ensures s == Trimming.Join(pre) + Trim(s) + Trimming.Join(post)
    ensures forall c :: c in pre || c in post ==> IsWhiteSpace(c)
    ensures SpaceAtStart(Trim(s)) == SpaceAtEnd(Trim(s)) == 0
  {
    pre, post := Trimming.TrimDropsExactlySpace(White(), s);
    forall c | c in pre || c in post
      ensures White()(c)
    {}
  }

  /** A DID: its canonical text and the launcher id it encodes. */
  datatype Did = Did(text: Bytes, launcherId: Digest)

  function ParseDidFromDescription(codec: Codec, description: Bytes): Option<Did> {
    var candidate := Trim(description);
    match codec(candidate)
    case None => None
    case Some(address) =>
      if address.prefix != DID_CHIA_PREFIX then None else Some(Did(candidate, address.puzzleHash))
  }

  /** A string is a DID exactly when, trimmed, it decodes under the prefix "did:chia:"; it keeps that text and id. */
  lemma DidIsExact(codec: Codec, s: Bytes, did: Did)
    ensures ParseDidFromDescription(codec, s) == Some(did) <==>
            && did.text == Trim(s)
            && codec(Trim(s)) ==
                 Some(Address([0x64, 0x69, 0x64, 0x3A, 0x63, 0x68, 0x69, 0x61, 0x3A], did.launcherId))
  {}

  /** How strings are read as DIDs. The other modules take any parser; the program's is `Parser`. */
  type DidParser = Bytes -> Option<Did>

  function Parser(codec: Codec): DidParser {
    (s: Bytes) => ParseDidFromDescription(codec, s)
  }

  /** A parsed DID's own text parses back to it, so two descriptions name one DID iff they trim alike. */
  lemma DidTextRoundTrips(codec: Codec, description: Bytes, did: Did)
    requires ParseDidFromDescription(codec, description) == Some(did)
    ensures Parser(codec)(did.text) == Some(did)
    ensures forall other :: Parser(codec)(other) == Some(did) <==> Trim(other) == did.text
  {
    TrimIsIdempotent(description);
  }

  function ParseXchAddress(codec: Codec, address: Bytes): Option<Bytes> {
    var candidate := Trim(address);
    match codec(candidate)
    case None => None
    case Some(decoded) => if decoded.prefix != XCH_ADDRESS_HRP then None else Some(candidate)
  }

  predicate IsValidXchAddress(codec: Codec, address: Bytes) {
    ParseXchAddress(codec, address).Some?
  }

  /** A string is a payment address exactly when, trimmed, it decodes under the prefix "xch"; it is that text. */
  lemma XchIsExact(codec: Codec, s: Bytes, address: Bytes)
    ensures ParseXchAddress(codec, s) == Some(address) <==>
            && address == Trim(s)
            && exists puzzleHash :: codec(Trim(s)) == Some(Address([0x78, 0x63, 0x68], puzzleHash))
  {
    if codec(Trim(s)).Some? {
      assert codec(Trim(s)) == Some(Address(codec(Trim(s)).value.prefix, codec(Trim(s)).value.puzzleHash));
    }
  }

  /** No string is both. */
  lemma NoDidIsAnXchAddress(codec: Codec, s: Bytes)
    ensures ParseXchAddress(codec, s).Some? ==> ParseDidFromDescription(codec, s).None?
  {
    assert |DID_CHIA_PREFIX| != |XCH_ADDRESS_HRP|;
  }
}
