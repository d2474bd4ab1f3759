/**
 * The eight-byte header of a store file holds the tracked file size as a Java `long`,
 * written big-endian in two's complement (the byte order of a `java.nio.ByteBuffer`).
 */
module LongCodec {

  type Byte = b: int | 0 <= b < 256

  const TWO_63: int := 0x8000_0000_0000_0000
  const TWO_64: int := 0x1_0000_0000_0000_0000

  /** The values a Java `long` can hold. */
  predicate IsLong(n: int) {
    -TWO_63 <= n < TWO_63
  }

  /** Java's 64-bit wrap-around: the `long` congruent to `n` modulo 2^64. */
  function ToLong(n: int): (r: int)
    ensures IsLong(r)
    ensures (r - n) % TWO_64 == 0
    ensures IsLong(n) ==> r == n
  {
    var u := (n + TWO_63) % TWO_64;
    assert IsLong(n) ==> u == n + TWO_63;
    u - TWO_63
  }

  function Pow256(k: nat): (p: nat)
    ensures p > 0
  {
    if k == 0 then 1 else 256 * Pow256(k - 1)
  }

  lemma Pow256Eight()
    ensures Pow256(8) == TWO_64
  {
    assert Pow256(1) == 256;
    assert Pow256(2) == 0x1_0000;
    assert Pow256(3) == 0x100_0000;
    assert Pow256(4) == 0x1_0000_0000;
    assert Pow256(5) == 0x100_0000_0000;
    assert Pow256(6) == 0x1_0000_0000_0000;
    assert Pow256(7) == 0x100_0000_0000_0000;
  }

  /** The `k` low-order base-256 digits of `u`, most significant first. */
  function EncodeUnsigned(u: nat, k: nat): (s: seq<Byte>)
    ensures |s| == k
  {
    if k == 0 then [] else EncodeUnsigned(u / 256, k - 1) + [u % 256]
  }

  /** The number whose base-256 digits, most significant first, are `s`. */
  function DecodeUnsigned(s: seq<Byte>): (u: nat)
    ensures u < Pow256(|s|)
  {
    if s == [] then 0
    else
      var d := DecodeUnsigned(s[..|s| - 1]);
      assert d <= Pow256(|s| - 1) - 1;
      assert d * 256 <= Pow256(|s| - 1) * 256 - 256;
      d * 256 + s[|s| - 1]
  }

  lemma {:induction false} DecodeEncodeUnsigned(u: nat, k: nat)
    requires u < Pow256(k)
    ensures DecodeUnsigned(EncodeUnsigned(u, k)) == u
  {
    if k > 0 {
      var s := EncodeUnsigned(u, k);
      assert s[..|s| - 1] == EncodeUnsigned(u / 256, k - 1);
      assert u / 256 < Pow256(k - 1);
      DecodeEncodeUnsigned(u / 256, k - 1);
    }
  }

  /** `ByteBuffer.putLong`: eight bytes, big-endian, two's complement. */
  function WriteLong(n: int): (s: seq<Byte>)
    requires IsLong(n)
    ensures |s| == 8
  {
    EncodeUnsigned(if n < 0 then n + TWO_64 else n, 8)
  }

  /** `ByteBuffer.getLong` on eight bytes. */
  function ReadLong(s: seq<Byte>): (n: int)
    requires |s| == 8
    ensures IsLong(n)
  {
    Pow256Eight();
    var u := DecodeUnsigned(s);
    if u >= TWO_63 then u - TWO_64 else u
  }

  /** Reading back a written `long` yields the same value. */
  lemma ReadWriteLong(n: int)
    requires IsLong(n)
    ensures ReadLong(WriteLong(n)) == n
  {
    Pow256Eight();
    DecodeEncodeUnsigned(if n < 0 then n + TWO_64 else n, 8);
  }
}
