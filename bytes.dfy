/**
  Bytes and unsigned big-endian integers, as produced by Python's
  `int.to_bytes(width, "big")` and read back by `struct.unpack(">I", ...)`.
 */
module Bytes {

  type byte = b: int | 0 <= b < 256

  /** The smaller of two byte counts (`min`). */
  function Min(a: int, b: int): (r: int) {
    if a < b then a else b
  }

  /** The larger of two byte counts (`max`). */
  function Max(a: int, b: int): (r: int) {
    if a < b then b else a
  }

  /** 256 to the power `width`: the number of values `width` bytes can hold. */
  function Pow256(width: nat): (p: nat)
    ensures p >= 1
  {
    if width == 0 then 1 else 256 * Pow256(width - 1)
  }

  /** The exclusive upper bound of an unsigned 32-bit integer. */
  const U32_LIMIT: nat := 0x1_0000_0000

  lemma Pow256Four()
    ensures Pow256(4) == U32_LIMIT
  {
    assert Pow256(1) == 256;
    assert Pow256(2) == 65536;
    assert Pow256(3) == 16777216;
  }

  /** `n` written in `width` bytes, most significant byte first (taken modulo 256^width). */
  function BigEndian(n: nat, width: nat): (s: seq<byte>)
    ensures |s| == width
  {
    if width == 0 then [] else BigEndian(n / 256, width - 1) + [(n % 256) as byte]
  }

  /** The unsigned integer whose big-endian bytes are `s`. */
  function FromBigEndian(s: seq<byte>): (n: nat)
  {
    if s == [] then 0 else FromBigEndian(s[..|s| - 1]) * 256 + s[|s| - 1]
  }

  /** Decoding `width` bytes never yields a value that does not fit in them. */
  lemma {:induction false} FromBigEndianBound(s: seq<byte>)
    ensures FromBigEndian(s) < Pow256(|s|)
  {
    if s != [] {
      var init := s[..|s| - 1];
      FromBigEndianBound(init);
      assert FromBigEndian(init) + 1 <= Pow256(|init|);
      assert FromBigEndian(s) < (FromBigEndian(init) + 1) * 256;
    }
  }

  /** Encoding a value that fits, then decoding, gives the value back. */
  lemma {:induction false} BigEndianRoundTrip(n: nat, width: nat)
    requires n < Pow256(width)
    ensures FromBigEndian(BigEndian(n, width)) == n
  {
    if width > 0 {
      var s := BigEndian(n, width);
      assert s[..width - 1] == BigEndian(n / 256, width - 1);
      assert s[width - 1] == n % 256;
      BigEndianRoundTrip(n / 256, width - 1);
    }
  }

  /** Decoding bytes, then encoding in as many bytes, gives the bytes back. */
  lemma {:induction false} FromBigEndianRoundTrip(s: seq<byte>)
    ensures BigEndian(FromBigEndian(s), |s|) == s
  {
    if s != [] {
      var init := s[..|s| - 1];
      var n := FromBigEndian(s);
      assert n / 256 == FromBigEndian(init);
      assert n % 256 == s[|s| - 1];
      FromBigEndianRoundTrip(init);
      assert s == init + [s[|s| - 1]];
    }
  }

  /** `n.to_bytes(4, "big")` for an `n` below 2^32. */
  function U32Bytes(n: nat): (s: seq<byte>)
    requires n < U32_LIMIT
    ensures |s| == 4 && FromBigEndian(s) == n
  {
    Pow256Four();
    BigEndianRoundTrip(n, 4);
    BigEndian(n, 4)
  }

  /** Four bytes decode to a value below 2^32 whose encoding is those bytes. */
  lemma FromU32Bytes(s: seq<byte>)
    requires |s| == 4
    ensures FromBigEndian(s) < U32_LIMIT && U32Bytes(FromBigEndian(s)) == s
  {
    FromBigEndianBound(s);
    Pow256Four();
    FromBigEndianRoundTrip(s);
  }
}
