/** The deterministic `tag, length, payload` encoding of slot values. */
module Values {
  import opened ByteStrings
  import opened Unicode

  /** The payload sizes that fit the four-byte length field; longer ones wrap. */
  const LENGTH_LIMIT: nat := 0x1_0000_0000

  const HEADER_LEN: nat := 5

  datatype ValueTag = TagUtf8 | TagBytes | TagU16 | TagU32 | TagU64 {

    function ToByte(): Byte {
      match this
      case TagUtf8 => 0x01
      case TagBytes => 0x02
      case TagU16 => 0x03
      case TagU32 => 0x04
      case TagU64 => 0x05
    }

    /** The payload width a numeric tag demands. */
    function FixedWidth(): Option<nat> {
      match this
      case TagU16 => Some(2)
      case TagU32 => Some(4)
      case TagU64 => Some(8)
      case _ => None
    }
  }

  function TagFromByte(b: Byte): (r: Result<ValueTag, Error>)
    ensures r == Ok(TagUtf8) <==> b == 0x01
    ensures r == Ok(TagBytes) <==> b == 0x02
    ensures r == Ok(TagU16) <==> b == 0x03
    ensures r == Ok(TagU32) <==> b == 0x04
    ensures r == Ok(TagU64) <==> b == 0x05
    ensures r.Err? ==> r.error == UnknownTag(b)
    ensures forall t: ValueTag :: r == Ok(t) <==> t.ToByte() == b
  {
    match b
    case 0x01 => Ok(TagUtf8)
    case 0x02 => Ok(TagBytes)
    case 0x03 => Ok(TagU16)
    case 0x04 => Ok(TagU32)
    case 0x05 => Ok(TagU64)
    case _ => Err(UnknownTag(b))
  }

  type U16 = x: int | 0 <= x < 0x1_0000
  type U32 = x: int | 0 <= x < 0x1_0000_0000
  type U64 = x: int | 0 <= x < 0x1_0000_0000_0000_0000

  datatype Value =
    | Utf8(text: Utf8Text)
    | Bytes(bytes: Bytes)
    | U16(n16: U16)
    | U32(n32: U32)
    | U64(n64: U64)
  {
    function Tag(): ValueTag {
      match this
      case Utf8(_) => TagUtf8
      case Bytes(_) => TagBytes
      case U16(_) => TagU16
      case U32(_) => TagU32
      case U64(_) => TagU64
    }

    function Payload(): Bytes {
      match this
      case Utf8(s) => s
      case Bytes(b) => b
      case U16(n) => ToBigEndian(n, 2)
      case U32(n) => ToBigEndian(n, 4)
      case U64(n) => ToBigEndian(n, 8)
    }
  }

  /** The canonical encoding; the length field holds the payload length modulo 2^32. */
  function Encode(v: Value): (blob: Bytes)
    ensures blob != []
  {
    [v.Tag().ToByte()] + ToBigEndian(|v.Payload()| % LENGTH_LIMIT, 4) + v.Payload()
  }

  // ----- the wire format, byte by byte -----

  /** Header and payload of a variable-length value: tag, length in four bytes, then the payload. */
  function WireBlob(tag: Byte, payload: Bytes): Bytes {
    [tag] + LengthBytes(|payload|) + payload
  }

  function LengthBytes(n: nat): Bytes {
    [n / 0x100_0000 % 0x100, n / 0x1_0000 % 0x100, n / 0x100 % 0x100, n % 0x100]
  }

  /** The format as documented, in literal bytes. */
  function WireBytes(v: Value): Bytes {
    match v
    case Utf8(text) => WireBlob(0x01, text)
    case Bytes(bytes) => WireBlob(0x02, bytes)
    case U16(n) => [0x03, 0, 0, 0, 2] + [n / 0x100, n % 0x100]
    case U32(n) => [0x04, 0, 0, 0, 4] + [n / 0x100_0000, n / 0x1_0000 % 0x100, n / 0x100 % 0x100, n % 0x100]
    case U64(n) => [0x05, 0, 0, 0, 8] + [
      n / 0x100_0000_0000_0000, n / 0x1_0000_0000_0000 % 0x100, n / 0x100_0000_0000 % 0x100,
      n / 0x1_0000_0000 % 0x100, n / 0x100_0000 % 0x100, n / 0x1_0000 % 0x100, n / 0x100 % 0x100, n % 0x100]
  }

  /** A multiple of 2^32 does not reach the three lower digits, nor the fourth. */
  lemma LowDigits(n: nat, q: nat, m: nat)
    requires n == LENGTH_LIMIT * q + m && m < LENGTH_LIMIT
    ensures m / 0x100_0000 % 0x100 == n / 0x100_0000 % 0x100
    ensures m / 0x1_0000 % 0x100 == n / 0x1_0000 % 0x100
    ensures m / 0x100 % 0x100 == n / 0x100 % 0x100
    ensures m % 0x100 == n % 0x100
  {
    SameDigit(m / 0x100_0000, n / 0x100_0000, q) by {
      assert n / 0x100_0000 == 0x100 * q + m / 0x100_0000;
    }
    SameDigit(m / 0x1_0000, n / 0x1_0000, 0x100 * q) by {
      assert n / 0x1_0000 == 0x1_0000 * q + m / 0x1_0000;
    }
    SameDigit(m / 0x100, n / 0x100, 0x1_0000 * q) by {
      assert n / 0x100 == 0x100_0000 * q + m / 0x100;
    }
    SameDigit(m, n, 0x100_0000 * q);
  }

  lemma SameDigit(x: nat, y: nat, k: nat)
    requires y == 0x100 * k + x
    ensures y % 0x100 == x % 0x100
  {}

  lemma LengthField(n: nat)
    ensures ToBigEndian(n % LENGTH_LIMIT, 4) == LengthBytes(n)
  {
    BigEndianBytes(n % LENGTH_LIMIT);
    LowDigits(n, n / LENGTH_LIMIT, n % LENGTH_LIMIT);
  }

  lemma BlobIsWire(tag: Byte, payload: Bytes)
    ensures [tag] + ToBigEndian(|payload| % LENGTH_LIMIT, 4) + payload == WireBlob(tag, payload)
  {
    LengthField(|payload|);
  }

  lemma SmallHeaders(tag: Byte)
    ensures [tag] + LengthBytes(2) == [tag, 0, 0, 0, 2]
    ensures [tag] + LengthBytes(4) == [tag, 0, 0, 0, 4]
    ensures [tag] + LengthBytes(8) == [tag, 0, 0, 0, 8]
  {}

  lemma TopDigits(n: nat)
    ensures n < 0x1_0000 ==> n / 0x100 % 0x100 == n / 0x100
    ensures n < 0x1_0000_0000 ==> n / 0x100_0000 % 0x100 == n / 0x100_0000
    ensures n < 0x1_0000_0000_0000_0000 ==>
              n / 0x100_0000_0000_0000 % 0x100 == n / 0x100_0000_0000_0000
  {}

  lemma U16IsWire(n: U16)
    ensures WireBlob(0x03, ToBigEndian(n, 2)) == WireBytes(Value.U16(n))
  {
    BigEndianBytes(n);
    SmallHeaders(0x03);
    TopDigits(n);
  }

  lemma U32IsWire(n: U32)
    ensures WireBlob(0x04, ToBigEndian(n, 4)) == WireBytes(Value.U32(n))
  {
    BigEndianBytes(n);
    SmallHeaders(0x04);
    TopDigits(n);
  }

  lemma U64IsWire(n: U64)
    ensures WireBlob(0x05, ToBigEndian(n, 8)) == WireBytes(Value.U64(n))
  {
    BigEndianEightBytes(n);
    SmallHeaders(0x05);
    TopDigits(n);
  }

  /** Every value is encoded in the documented bytes: tag values, byte order, length field and payload. */
  lemma EncodeIsWireFormat(v: Value)
    ensures Encode(v) == WireBytes(v)
  {
    BlobIsWire(v.Tag().ToByte(), v.Payload());
    match v
    case Utf8(_) =>
    case Bytes(_) =>
    case U16(n) => U16IsWire(n);
    case U32(n) => U32IsWire(n);
    case U64(n) => U64IsWire(n);
  }

  /** `Encode` as the program computes it, filling a buffer field by field. */
  method EncodeInto(v: Value) returns (out: Bytes)
    ensures out == Encode(v) == WireBytes(v)
  {
    var tag, payload := v.Tag(), v.Payload();
    out := [];
    out := out + [tag.ToByte()];
    out := out + ToBigEndian(|payload| % LENGTH_LIMIT, 4);
    out := out + payload;
    EncodeIsWireFormat(v);
  }

  function Decode(blob: Bytes): Result<Value, Error> {
    if |blob| < HEADER_LEN then Err(TruncatedValue(ShortHeader))
    else
      match TagFromByte(blob[0])
      case Err(e) => Err(e)
      case Ok(tag) =>
        var declared := FromBigEndian(blob[1..HEADER_LEN]);
        var payload := blob[HEADER_LEN..];
        if |payload| != declared then Err(LengthMismatch(declared, |payload|))
        else if tag.FixedWidth().Some? && |payload| != tag.FixedWidth().value then
          Err(WrongWidth(blob[0], tag.FixedWidth().value, |payload|))
        else DecodePayload(tag, payload)
  }

  /** The value a payload of the right length stands for. */
  function DecodePayload(tag: ValueTag, payload: Bytes): (r: Result<Value, Error>)
    requires tag.FixedWidth().Some? ==> |payload| == tag.FixedWidth().value
    ensures r.Ok? ==> r.value.Tag() == tag && r.value.Payload() == payload
    ensures r.Err? ==> tag.TagUtf8? && !ValidUtf8(payload) && r.error == TruncatedValue(InvalidUtf8)
  {
    WriteBackBigEndian(payload);
    FormatWidths();
    match tag
    case TagUtf8 => if ValidUtf8(payload) then Ok(Utf8(payload)) else Err(TruncatedValue(InvalidUtf8))
    case TagBytes => Ok(Bytes(payload))
    case TagU16 => Ok(U16(FromBigEndian(payload)))
    case TagU32 => Ok(U32(FromBigEndian(payload)))
    case TagU64 => Ok(U64(FromBigEndian(payload)))
  }

  /** A value is its tag and its payload. */
  lemma TagAndPayloadDetermine(v: Value, w: Value)
    requires v.Tag() == w.Tag() && v.Payload() == w.Payload()
    ensures v == w
  {
    FormatWidths();
    match v
    case Utf8(_) =>
    case Bytes(_) =>
    case U16(n) => ReadBackBigEndian(n, 2); ReadBackBigEndian(w.n16, 2);
    case U32(n) => ReadBackBigEndian(n, 4); ReadBackBigEndian(w.n32, 4);
    case U64(n) => ReadBackBigEndian(n, 8); ReadBackBigEndian(w.n64, 8);
  }

  /** The three fields of an encoding. */
  lemma EncodingFields(v: Value)
    ensures |Encode(v)| == HEADER_LEN + |v.Payload()|
    ensures Encode(v)[0] == v.Tag().ToByte()
    ensures Encode(v)[1..HEADER_LEN] == ToBigEndian(|v.Payload()| % LENGTH_LIMIT, 4)
    ensures Encode(v)[HEADER_LEN..] == v.Payload()
  {}

  /** Different values have different encodings, also where the length field wraps. */
  lemma EncodeInjective(v: Value, w: Value)
    requires Encode(v) == Encode(w)
    ensures v == w
  {
    EncodingFields(v);
    EncodingFields(w);
    assert TagFromByte(v.Tag().ToByte()) == Ok(v.Tag());
    assert TagFromByte(w.Tag().ToByte()) == Ok(w.Tag());
    TagAndPayloadDetermine(v, w);
  }

  /** What decoding an encoding gives: the value, or a length mismatch exactly where the field wraps. */
  lemma DecodeEncode(v: Value)
    ensures Decode(Encode(v)) ==
            if |v.Payload()| < LENGTH_LIMIT then Ok(v)
            else Err(LengthMismatch(|v.Payload()| % LENGTH_LIMIT, |v.Payload()|))
  {
    EncodingFields(v);
    FormatWidths();
    ReadBackBigEndian(|v.Payload()| % LENGTH_LIMIT, 4);
    assert TagFromByte(Encode(v)[0]) == Ok(v.Tag());
    if |v.Payload()| < LENGTH_LIMIT {
      var r := DecodePayload(v.Tag(), v.Payload());
      assert Decode(Encode(v)) == r;
      if r.Ok? {
        TagAndPayloadDetermine(v, r.value);
      }
    }
  }

  /** What a successful decode has found in the three fields. */
  lemma DecodedFields(blob: Bytes)
    requires Decode(blob).Ok?
    ensures var v := Decode(blob).value;
            && |blob| >= HEADER_LEN
            && v.Tag().ToByte() == blob[0]
            && |v.Payload()| == FromBigEndian(blob[1..HEADER_LEN])
            && v.Payload() == blob[HEADER_LEN..]
  {}

  lemma FieldsGiveBlob(v: Value, blob: Bytes)
    requires |blob| >= HEADER_LEN
    requires v.Tag().ToByte() == blob[0] && v.Payload() == blob[HEADER_LEN..]
    requires |v.Payload()| == FromBigEndian(blob[1..HEADER_LEN])
    ensures Encode(v) == blob && |v.Payload()| < LENGTH_LIMIT
  {
    var field := blob[1..HEADER_LEN];
    WriteBackBigEndian(field);
    FormatWidths();
    assert blob == [blob[0]] + field + blob[HEADER_LEN..];
  }

  /** Only canonical encodings decode: re-encoding gives back the very bytes. */
  lemma DecodeIsCanonical(blob: Bytes)
    requires Decode(blob).Ok?
    ensures Encode(Decode(blob).value) == blob
    ensures |Decode(blob).value.Payload()| < LENGTH_LIMIT
  {
    DecodedFields(blob);
    FieldsGiveBlob(Decode(blob).value, blob);
  }

  /** Decoding accepts exactly the encodings of values whose payload fits the length field. */
  lemma DecodeAcceptsExactlyEncodings(blob: Bytes, v: Value)
    ensures Decode(blob) == Ok(v) <==> (blob == Encode(v) && |v.Payload()| < LENGTH_LIMIT)
  {
    if Decode(blob) == Ok(v) {
      DecodeIsCanonical(blob);
    }
    DecodeEncode(v);
  }

  /** The length a blob's header declares. */
  function DeclaredLength(blob: Bytes): nat
    requires |blob| >= 5
  {
    FourDigits(blob[1], blob[2], blob[3], blob[4])
  }

  function FourDigits(a: nat, b: nat, c: nat, d: nat): nat {
    0x100_0000 * a + 0x1_0000 * b + 0x100 * c + d
  }

  /** Why a blob is refused, checked in this order and said of its bytes. */
  predicate Refused(blob: Bytes, e: Error) {
    if |blob| < 5 then e == TruncatedValue(ShortHeader)
    else if blob[0] !in {0x01, 0x02, 0x03, 0x04, 0x05} then e == UnknownTag(blob[0])
    else if |blob| - 5 != DeclaredLength(blob) then e == LengthMismatch(DeclaredLength(blob), |blob| - 5)
    else
      || (blob[0] == 0x03 && |blob| != 7 && e == WrongWidth(0x03, 2, |blob| - 5))
      || (blob[0] == 0x04 && |blob| != 9 && e == WrongWidth(0x04, 4, |blob| - 5))
      || (blob[0] == 0x05 && |blob| != 13 && e == WrongWidth(0x05, 8, |blob| - 5))
      || (blob[0] == 0x01 && !ValidUtf8(blob[5..]) && e == TruncatedValue(InvalidUtf8))
  }

  lemma FourByteLength(b: Bytes)
    requires |b| == 4
    ensures FromBigEndian(b) == FourDigits(b[0], b[1], b[2], b[3])
  {
    assert b[..3][..2] == b[..2] && b[..2][..1] == b[..1] && b[..1][..0] == [];
    assert FromBigEndian(b[..1]) == FourDigits(0, 0, 0, b[0]);
    assert FromBigEndian(b[..2]) == FourDigits(0, 0, b[0], b[1]);
    assert FromBigEndian(b[..3]) == FourDigits(0, b[0], b[1], b[2]);
  }

  /** Each refusal is returned exactly for the bytes it describes. */
  lemma DecodeRefusesExactly(blob: Bytes, e: Error)
    ensures Decode(blob) == Err(e) <==> Refused(blob, e)
  {
    if |blob| >= 5 {
      FourByteLength(blob[1..HEADER_LEN]);
    }
  }
}
