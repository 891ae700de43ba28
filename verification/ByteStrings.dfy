/** Bytes, 32-byte digests, big-endian integers and the result types every other module uses. */
module ByteStrings {

  type Byte = x: int | 0 <= x < 0x100

  type Bytes = seq<Byte>

  function Zeros(n: nat): (b: Bytes)
    ensures |b| == n && forall i :: 0 <= i < n ==> b[i] == 0
  {
    seq(n, _ => 0)
  }

  /** A 32-byte string: a sha256 digest, a slot key, a coin id or a root. */
  type Digest = d: Bytes | |d| == 32 witness Zeros(32)

  /** The all-zero digest: "no leaf", "empty subtree" and the root of the empty tree. */
  const ZERO: Digest := Zeros(32)

  datatype Option<+T> = None | Some(value: T)

  datatype Result<+T, +E> = Ok(value: T) | Err(error: E)

  /** Why a value blob counts as truncated. */
  datatype Truncation = ShortHeader | InvalidUtf8

  /** The crate's error type, without message strings. */
  datatype Error =
    | TruncatedValue(why: Truncation)
    | LengthMismatch(declared: nat, actual: nat)
    | UnknownTag(byte: Byte)
    | WrongWidth(tag: Byte, expected: nat, actual: nat)
    | Smt
    | NotAuthoritativeProfile
    | FieldProofRejected

  /** The low `width` bytes of `n`, most significant first. */
  function ToBigEndian(n: nat, width: nat): (b: Bytes)
    ensures |b| == width
  {
    if width == 0 then [] else ToBigEndian(n / 0x100, width - 1) + [n % 0x100]
  }

  function FromBigEndian(b: Bytes): nat {
    if b == [] then 0 else FromBigEndian(b[..|b| - 1]) * 0x100 + b[|b| - 1]
  }

  function Pow256(k: nat): (p: nat)
    ensures p > 0
  {
    if k == 0 then 1 else 0x100 * Pow256(k - 1)
  }

  lemma DropLast(b: Bytes, last: Byte)
    ensures FromBigEndian(b + [last]) == FromBigEndian(b) * 0x100 + last
  {
    assert (b + [last])[..|b|] == b;
  }

  /** Reading back a number that fits its width gives the number. */
  lemma {:induction false} ReadBackBigEndian(n: nat, width: nat)
    requires n < Pow256(width)
    ensures FromBigEndian(ToBigEndian(n, width)) == n
  {
    if width != 0 {
      var high := n / 0x100;
      assert high < Pow256(width - 1);
      ReadBackBigEndian(high, width - 1);
      DropLast(ToBigEndian(high, width - 1), n % 0x100);
    }
  }

  /** Writing a number that was read gives the same bytes, and the number fits the width. */
  lemma {:induction false} WriteBackBigEndian(b: Bytes)
    ensures FromBigEndian(b) < Pow256(|b|)
    ensures ToBigEndian(FromBigEndian(b), |b|) == b
  {
    if b != [] {
      var front := b[..|b| - 1];
      WriteBackBigEndian(front);
      assert FromBigEndian(b) / 0x100 == FromBigEndian(front);
      assert b == front + [b[|b| - 1]];
    }
  }

  /** Two and four big-endian bytes, written out. */
  lemma BigEndianBytes(n: nat)
    ensures ToBigEndian(n, 2) == [n / 0x100 % 0x100, n % 0x100]
    ensures ToBigEndian(n, 4) == [n / 0x100_0000 % 0x100, n / 0x1_0000 % 0x100, n / 0x100 % 0x100, n % 0x100]
  {
    var a := n / 0x100;
    var b := a / 0x100;
    assert b == n / 0x1_0000 && b / 0x100 == n / 0x100_0000;
    assert ToBigEndian(n, 4) == ToBigEndian(b, 2) + [a % 0x100] + [n % 0x100];
  }

  /** Eight big-endian bytes, written out. */
  lemma BigEndianEightBytes(n: nat)
    ensures ToBigEndian(n, 8) == [
              n / 0x100_0000_0000_0000 % 0x100, n / 0x1_0000_0000_0000 % 0x100,
              n / 0x100_0000_0000 % 0x100, n / 0x1_0000_0000 % 0x100,
              n / 0x100_0000 % 0x100, n / 0x1_0000 % 0x100, n / 0x100 % 0x100, n % 0x100]
  {
    var a := n / 0x100;
    var b := a / 0x100;
    var c := b / 0x100;
    var d := c / 0x100;
    assert ToBigEndian(n, 8) == ToBigEndian(d, 4) + [c % 0x100] + [b % 0x100] + [a % 0x100] + [n % 0x100] by {
      assert ToBigEndian(n, 8) == ToBigEndian(a, 7) + [n % 0x100];
      assert ToBigEndian(b, 6) == ToBigEndian(c, 5) + [b % 0x100];
    }
    assert b == n / 0x1_0000 && c == n / 0x100_0000 && d == n / 0x1_0000_0000;
    BigEndianBytes(d);
    assert d / 0x100 == n / 0x100_0000_0000;
    assert d / 0x1_0000 == n / 0x1_0000_0000_0000;
    assert d / 0x100_0000 == n / 0x100_0000_0000_0000;
  }

  /** The widths the format uses. */
  lemma FormatWidths()
    ensures Pow256(2) == 0x1_0000
    ensures Pow256(4) == 0x1_0000_0000
    ensures Pow256(8) == 0x1_0000_0000_0000_0000
  {
    assert Pow256(3) == 0x100_0000;
    assert Pow256(5) == 0x100 * Pow256(4);
    assert Pow256(7) == 0x100 * Pow256(6);
  }
}
