/**
 * The BMP Common Header (section 4.1 of RFC 7854): one byte of version,
 * a four-byte big-endian unsigned total message length (header included)
 * and one byte of message type.
 */
module BmpHeader {

  /** One octet of the input, as Python exposes it when indexing `bytes`. */
  type Byte = b: int | 0 <= b < 256

  datatype Option<T> = None | Some(value: T)

  /** Size of the common header in bytes. */
  const HEADER_SIZE: nat := 6

  /** Number of bytes of the length field. */
  const LENGTH_WIDTH: nat := 4


  datatype CommonHeader = CommonHeader(version: Byte, length: nat, msgType: Byte)

  function Pow256(n: nat): (r: nat)
    ensures r >= 1
  {
    if n == 0 then 1 else 256 * Pow256(n - 1)
  }

  /** `int.from_bytes(s, byteorder='big', signed=False)`. */
  function FromBigEndian(s: seq<Byte>): (r: nat)
    ensures r < Pow256(|s|)
  {
    if s == [] then 0
    else
      var high := FromBigEndian(s[..|s| - 1]);
      assert high <= Pow256(|s| - 1) - 1;
      assert high * 256 <= Pow256(|s| - 1) * 256 - 256;
      high * 256 + s[|s| - 1]
  }

  /** The `width` low-order base-256 digits of `n`, most significant first. */
  function ToBigEndian(n: nat, width: nat): (r: seq<Byte>)
    ensures |r| == width
  {
    if width == 0 then [] else ToBigEndian(n / 256, width - 1) + [n % 256]
  }

  lemma {:induction false} FromToBigEndian(n: nat, width: nat)
    requires n < Pow256(width)
    ensures FromBigEndian(ToBigEndian(n, width)) == n
  {
    if width > 0 {
      var s := ToBigEndian(n, width);
      assert s[..|s| - 1] == ToBigEndian(n / 256, width - 1);
      assert n / 256 < Pow256(width - 1);
      FromToBigEndian(n / 256, width - 1);
    }
  }

  lemma {:induction false} ToFromBigEndian(s: seq<Byte>)
    ensures ToBigEndian(FromBigEndian(s), |s|) == s
  {
    if s != [] {
      var init, last := s[..|s| - 1], s[|s| - 1];
      var n := FromBigEndian(s);
      assert n == FromBigEndian(init) * 256 + last;
      assert n / 256 == FromBigEndian(init) && n % 256 == last;
      ToFromBigEndian(init);
      assert s == init + [last];
    }
  }

  /** The four bytes of `s` from index `i` read as a big-endian unsigned 32-bit number. */
  function Uint32(s: seq<Byte>, i: nat): nat
    requires i + LENGTH_WIDTH <= |s|
  {
    (s[i] as int) * 0x100_0000 + (s[i + 1] as int) * 0x1_0000 + (s[i + 2] as int) * 0x100 + (s[i + 3] as int)
  }

  /** On four bytes, `int.from_bytes` is the 32-bit big-endian value. */
  lemma FromBigEndianFour(s: seq<Byte>)
    requires |s| == LENGTH_WIDTH
    ensures FromBigEndian(s) == Uint32(s, 0)
  {
    var s3, s2, s1 := s[..3], s[..3][..2], s[..3][..2][..1];
    assert FromBigEndian(s1) == s[0] by { assert s1[..0] == []; }
    assert FromBigEndian(s2) == (s[0] as int) * 0x100 + s[1];
    assert FromBigEndian(s3) == (s[0] as int) * 0x1_0000 + (s[1] as int) * 0x100 + s[2];
  }

  /**
   * Decoder of the common header. The source indexes bytes 0 and 5 and
   * slices bytes 1..5; a buffer shorter than six bytes fails at `header[5]`
   * (an IndexError), which is the None case. Neither the length nor the
   * type is validated. Bytes past the sixth are ignored.
   */
  function DecodeCommonHeader(header: seq<Byte>): (r: Option<CommonHeader>)
    ensures r.Some? <==> |header| >= HEADER_SIZE
    ensures r.Some? ==> r.value.length < Pow256(LENGTH_WIDTH)
  {
    if |header| < HEADER_SIZE then None
    else Some(CommonHeader(header[0], FromBigEndian(header[1..5]), header[5]))
  }

  /** The six bytes a header with a 32-bit length travels as. */
  function EncodeCommonHeader(h: CommonHeader): (r: seq<Byte>)
    requires h.length < Pow256(LENGTH_WIDTH)
    ensures |r| == HEADER_SIZE
  {
    [h.version] + ToBigEndian(h.length, LENGTH_WIDTH) + [h.msgType]
  }

  /** Every header with a 32-bit length decodes back from its encoding. */
  lemma DecodeEncode(h: CommonHeader)
    requires h.length < Pow256(LENGTH_WIDTH)
    ensures DecodeCommonHeader(EncodeCommonHeader(h)) == Some(h)
  {
    var e := EncodeCommonHeader(h);
    assert e[1..5] == ToBigEndian(h.length, LENGTH_WIDTH);
    FromToBigEndian(h.length, LENGTH_WIDTH);
  }

  /**
   * Decoding reads exactly the first six bytes and loses nothing of them:
   * version is byte 0, type is byte 5, and the length is bytes 1..4 read
   * big-endian.
   */
  lemma EncodeDecode(s: seq<Byte>)
    requires |s| >= HEADER_SIZE
    ensures DecodeCommonHeader(s).Some?
    ensures EncodeCommonHeader(DecodeCommonHeader(s).value) == s[..HEADER_SIZE]
  {
    ToFromBigEndian(s[1..5]);
    assert s[..HEADER_SIZE] == [s[0]] + s[1..5] + [s[5]];
  }
}
