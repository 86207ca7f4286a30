/** Byte-level helpers shared by the boot-config record, the UBI erase-counter
    header and the manufacturing-info block: fixed-width integers, little- and
    big-endian encodings, and the CRC-32 routine of the C library. */
module Bytes {

  type byte = x: int | 0 <= x < 0x100
  type u32 = x: int | 0 <= x < 0x1_0000_0000

  /** The library `crc32(seed, buf, len)`. Its table and loop are not part of
      this model: it is an arbitrary but fixed function of the seed and the
      covered bytes, so every property proved here holds whatever the routine
      computes. */
  const Crc32: (u32, seq<byte>) -> u32

  /** `len` copies of `b` (a `memset`). */
  function Fill(b: byte, len: nat): (s: seq<byte>)
    ensures |s| == len && forall i :: 0 <= i < len ==> s[i] == b
  {
    seq(len, _ => b)
  }

  /** A u32 as it lies in memory on a little-endian CPU (the mt7621). */
  function Le32(x: u32): (bs: seq<byte>)
    ensures |bs| == 4
  {
    [x % 0x100, (x / 0x100) % 0x100, (x / 0x1_0000) % 0x100, x / 0x100_0000]
  }

  function FromLe32(bs: seq<byte>): u32
    requires |bs| == 4
  {
    bs[0] as int + bs[1] as int * 0x100 + bs[2] as int * 0x1_0000 + bs[3] as int * 0x100_0000
  }

  lemma {:induction false} Le32RoundTrip(x: u32)
    ensures FromLe32(Le32(x)) == x
  {
    var b0, b1, b2, b3 := x % 0x100, (x / 0x100) % 0x100, (x / 0x1_0000) % 0x100, x / 0x100_0000;
    assert x == b0 + 0x100 * (x / 0x100);
    assert x / 0x100 == b1 + 0x100 * (x / 0x1_0000);
    assert x / 0x1_0000 == b2 + 0x100 * (x / 0x100_0000);
  }

  /** Every 4-byte pattern is the encoding of the u32 it decodes to. */
  lemma {:induction false} FromLe32RoundTrip(bs: seq<byte>)
    requires |bs| == 4
    ensures Le32(FromLe32(bs)) == bs
  {
    var x := FromLe32(bs);
    var hi := bs[1] as int + bs[2] as int * 0x100 + bs[3] as int * 0x1_0000;
    assert x == bs[0] + 0x100 * hi;
    assert x % 0x100 == bs[0] && x / 0x100 == hi;
    var hi2 := bs[2] as int + bs[3] as int * 0x100;
    assert hi == bs[1] + 0x100 * hi2;
    assert x / 0x1_0000 == hi / 0x100 == hi2;
    assert x / 0x100_0000 == hi2 / 0x100 == bs[3];
  }

  /** `s` with the elements from `off` on replaced by `bs`: what a field
      assignment or a memcpy into the middle of a buffer does. */
  function Splice<T>(s: seq<T>, off: nat, bs: seq<T>): (r: seq<T>)
    requires off + |bs| <= |s|
    ensures |r| == |s| && r[off..off + |bs|] == bs
    ensures forall i :: 0 <= i < |s| && !(off <= i < off + |bs|) ==> r[i] == s[i]
  {
    s[..off] + bs + s[off + |bs|..]
  }

  /** A u32 in network (big-endian) order, as `cpu_to_be32` stores it. */
  function Be32(x: u32): (bs: seq<byte>)
    ensures |bs| == 4
  {
    [x / 0x100_0000, (x / 0x1_0000) % 0x100, (x / 0x100) % 0x100, x % 0x100]
  }

  function FromBe32(bs: seq<byte>): u32
    requires |bs| == 4
  {
    bs[0] as int * 0x100_0000 + bs[1] as int * 0x1_0000 + bs[2] as int * 0x100 + bs[3] as int
  }

  lemma {:induction false} Be32RoundTrip(x: u32)
    ensures FromBe32(Be32(x)) == x
  {
    Le32RoundTrip(x);
  }

  /** A signed 64-bit value in big-endian order (`cpu_to_be64` of a
      `long long`): the value is taken modulo 2^64, as the two's-complement
      bit pattern is. */
  function Be64(x: int): (bs: seq<byte>)
    ensures |bs| == 8
  {
    var u := x % 0x1_0000_0000_0000_0000;
    Be32(u / 0x1_0000_0000) + Be32(u % 0x1_0000_0000)
  }
}

/** The usual optional value. */
module Options {
  datatype Option<T> = None | Some(value: T)
}
