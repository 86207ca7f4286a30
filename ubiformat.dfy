/** The helpers and decision blocks of ubiformat.c: the pattern check of the
    torture test, trimming trailing 0xFF bytes, the consecutive-bad-block
    counter, the rewrite of a UBI erase-counter (EC) header, the choice of
    erase counter, the erase-counter policy, and the argument and size checks.
    The device loops around them (erasing, writing, verifying, scanning) are
    not part of this model; what they report enters as parameters.

    ubi-media.h and libscan.h are not part of this model; the header layout
    and constants below are those of the UBI on-flash format: a 64-byte EC
    header with the big-endian magic "UBI#" at byte 0, the erase counter (64
    bits) at byte 8, image_seq at byte 24, and a CRC-32 of the first 60 bytes,
    seeded with 0xFFFFFFFF, at byte 60. */
module UbiFormat {
  import opened Bytes
  import opened Options
  import Common

  const MAX_CONSECUTIVE_BAD_BLOCKS := 4

  // ---------------------------------------------------------------------------
  // check_pattern

  /** check_pattern: 0 when the first `size` bytes of `buf` are all `patt`,
      -1 at the first byte that differs. */
  method CheckPattern(buf: seq<byte>, patt: byte, size: int) returns (r: int)
    requires size <= |buf|
    ensures r == 0 || r == -1
    ensures r == 0 <==> forall i :: 0 <= i < size ==> buf[i] == patt
  {
    var i := 0;
    while i < size
      invariant 0 <= i <= if size < 0 then 0 else size
      invariant forall k :: 0 <= k < i ==> buf[k] == patt
    {
      if buf[i] != patt {
        return -1;
      }
      i := i + 1;
    }
    return 0;
  }

  // ---------------------------------------------------------------------------
  // drop_ffs

  /** The index of the last byte that is not 0xFF, or -1. */
  function LastNonFf(buf: seq<byte>): (i: int)
    ensures -1 <= i < |buf|
    ensures i >= 0 ==> buf[i] != 0xFF
    ensures forall k :: i < k < |buf| ==> buf[k] == 0xFF
  {
    if |buf| == 0 then -1
    else if buf[|buf| - 1] != 0xFF then |buf| - 1
    else LastNonFf(buf[..|buf| - 1])
  }

  /** drop_ffs: the length of the eraseblock image `buf` that has to be
      written, the trailing 0xFF bytes left out and the rest rounded up to
      the minimum I/O unit `writesize`. Only 0xFF bytes are dropped, and an
      all-0xFF block needs no write at all. */
  method DropFfs(buf: seq<byte>, writesize: int) returns (len: int)
    requires writesize > 0
    ensures len % writesize == 0
    ensures LastNonFf(buf) + 1 <= len < LastNonFf(buf) + 1 + writesize
    ensures forall k :: len <= k < |buf| ==> buf[k] == 0xFF
    ensures len == 0 <==> forall k :: 0 <= k < |buf| ==> buf[k] == 0xFF
  {
    var i := |buf| - 1;
    assert buf[..i + 1] == buf;
    while i >= 0
      invariant -1 <= i < |buf|
      invariant forall k :: i < k < |buf| ==> buf[k] == 0xFF
      invariant LastNonFf(buf) == LastNonFf(buf[..i + 1])
    {
      if buf[i] != 0xFF {
        break;
      }
      assert buf[..i + 1][..i] == buf[..i];
      i := i - 1;
    }
    assert LastNonFf(buf[..i + 1]) == i;
    ghost var used := i + 1;
    len := i + 1;
    len := (len + writesize - 1) / writesize;
    len := len * writesize;
    DropFfsRounding(used, writesize);
    assert len == (used + writesize - 1) / writesize * writesize;
  }

  /** (n + w - 1) / w * w, the rounding drop_ffs does, is the least multiple
      of w that is at least n. */
  lemma DropFfsRounding(n: nat, w: nat)
    requires w > 0
    ensures var r := (n + w - 1) / w * w;
      r % w == 0 && n <= r < n + w
  {
    var q := (n + w - 1) / w;
    var m := (n + w - 1) % w;
    assert n + w - 1 == q * w + m;
    DivModUnique(q * w, w, q, 0);
  }

  lemma MulAtLeast(e: int, w: int)
    requires e >= 1 && w > 0
    ensures e * w >= w
  {
    var k := e - 1;
    assert e * w == k * w + w;
  }

  /** Quotient and remainder are the only ones with 0 <= remainder < w. */
  lemma DivModUnique(x: int, w: int, q: int, m: int)
    requires w > 0 && 0 <= m < w && x == q * w + m
    ensures x / w == q && x % w == m
  {
    var q' := x / w;
    var m' := x % w;
    assert x == q' * w + m';
    assert (q - q') * w == m' - m;
    if q > q' {
      MulAtLeast(q - q', w);
    } else if q < q' {
      MulAtLeast(q' - q, w);
    }
  }

  // ---------------------------------------------------------------------------
  // consecutive_bad_check

  /** The two static variables of consecutive_bad_check. */
  datatype BadRun = BadRun(consecutive: int, prev: int)

  /** Their state when the program starts. */
  const INITIAL_RUN := BadRun(1, -1)

  /** One call with bad eraseblock `eb`: the run grows when `eb` follows the
      previous bad block and restarts at 1 otherwise; the first call adopts
      `eb` as its own predecessor and so starts a run of 1. */
  function NextRun(s: BadRun, eb: int): BadRun
  {
    var prev := if s.prev == -1 then eb else s.prev;
    BadRun(if eb == prev + 1 then s.consecutive + 1 else 1, eb)
  }

  /** The counter after the bad eraseblocks `h` have been reported. */
  function RunAfter(h: seq<int>): BadRun
  {
    if |h| == 0 then INITIAL_RUN else NextRun(RunAfter(h[..|h| - 1]), h[|h| - 1])
  }

  /** The length of the run of consecutive numbers that `h` ends with. */
  function TrailingRun(h: seq<int>): (n: nat)
    requires |h| > 0
    ensures 1 <= n <= |h|
  {
    if |h| == 1 then 1
    else if h[|h| - 1] == h[|h| - 2] + 1 then TrailingRun(h[..|h| - 1]) + 1
    else 1
  }

  /** The static counter holds the length of the trailing run of consecutive
      bad eraseblocks and the last one reported. */
  lemma {:induction false} RunAfterCountsTrailingRun(h: seq<int>)
    requires |h| > 0 && forall k :: 0 <= k < |h| ==> h[k] >= 0
    ensures RunAfter(h) == BadRun(TrailingRun(h), h[|h| - 1])
  {
    if |h| > 1 {
      RunAfterCountsTrailingRun(h[..|h| - 1]);
      assert h[..|h| - 1][|h| - 2] == h[|h| - 2];
    }
  }

  /** The trailing run reaches MAX_CONSECUTIVE_BAD_BLOCKS exactly when the
      last four numbers are consecutive. */
  lemma {:induction false} RunLimitIffFourInARow(h: seq<int>)
    requires |h| > 0
    ensures TrailingRun(h) >= MAX_CONSECUTIVE_BAD_BLOCKS <==>
      |h| >= 4 && h[|h| - 3] == h[|h| - 4] + 1 && h[|h| - 2] == h[|h| - 3] + 1 && h[|h| - 1] == h[|h| - 2] + 1
  {
    if |h| > 1 {
      var h1 := h[..|h| - 1];
      assert h1[|h1| - 1] == h[|h| - 2];
      if |h1| > 1 {
        var h2 := h1[..|h1| - 1];
        assert h1[|h1| - 2] == h[|h| - 3] == h2[|h2| - 1];
        if |h2| > 1 {
          var h3 := h2[..|h2| - 1];
          assert h2[|h2| - 2] == h[|h| - 4];
          assert TrailingRun(h2) == if h[|h| - 3] == h[|h| - 4] + 1 then TrailingRun(h3) + 1 else 1;
        }
        assert TrailingRun(h1) == if h[|h| - 2] == h[|h| - 3] + 1 then TrailingRun(h2) + 1 else 1;
      }
    }
  }

  /** The static state of consecutive_bad_check, which lives as long as the
      program: it is not reset between runs of ubiformat. */
  class BadBlockCounter {
    var consecutive: int
    var prev: int

    constructor()
      ensures BadRun(consecutive, prev) == INITIAL_RUN
    {
      consecutive := 1;
      prev := -1;
    }

    /** consecutive_bad_check(eb): -1 once the run of consecutive bad
        eraseblocks reaches MAX_CONSECUTIVE_BAD_BLOCKS, else 0. */
    method Check(eb: int) returns (r: int)
      modifies this
      ensures BadRun(consecutive, prev) == NextRun(old(BadRun(consecutive, prev)), eb)
      ensures r == 0 || r == -1
      ensures r == -1 <==> consecutive >= MAX_CONSECUTIVE_BAD_BLOCKS
    {
      if prev == -1 {
        prev := eb;
      }
      if eb == prev + 1 {
        consecutive := consecutive + 1;
      } else {
        consecutive := 1;
      }
      prev := eb;
      if consecutive >= MAX_CONSECUTIVE_BAD_BLOCKS {
        return Common.ErrMsg("consecutive bad blocks exceed limit");
      }
      return 0;
    }
  }

  // ---------------------------------------------------------------------------
  // change_ech

  const UBI_EC_HDR_MAGIC: u32 := 0x5542_4923
  const UBI_EC_HDR_SIZE := 64
  const UBI_EC_HDR_SIZE_CRC := 60
  const UBI_CRC32_INIT: u32 := 0xFFFF_FFFF
  const EC_OFFSET := 8
  const IMAGE_SEQ_OFFSET := 24
  const HDR_CRC_OFFSET := 60

  /** The checks change_ech makes: the magic, and the CRC of the first 60
      bytes against hdr_crc. */
  predicate EcHeaderValid(h: seq<byte>)
    requires |h| == UBI_EC_HDR_SIZE
  {
    FromBe32(h[0..4]) == UBI_EC_HDR_MAGIC &&
    FromBe32(h[HDR_CRC_OFFSET..UBI_EC_HDR_SIZE]) == Crc32(UBI_CRC32_INIT, h[..UBI_EC_HDR_SIZE_CRC])
  }

  /** The header after the three assignments of change_ech. */
  function ChangedEch(h: seq<byte>, imageSeq: u32, ec: int): seq<byte>
    requires |h| == UBI_EC_HDR_SIZE
  {
    var h1 := Splice(Splice(h, IMAGE_SEQ_OFFSET, Be32(imageSeq)), EC_OFFSET, Be64(ec));
    Splice(h1, HDR_CRC_OFFSET, Be32(Crc32(UBI_CRC32_INIT, h1[..UBI_EC_HDR_SIZE_CRC])))
  }

  /** The rewritten header validates, carries the new image_seq and erase
      counter, and keeps every other byte. */
  lemma {:induction false} ChangedEchValidates(h: seq<byte>, imageSeq: u32, ec: int)
    requires |h| == UBI_EC_HDR_SIZE && FromBe32(h[0..4]) == UBI_EC_HDR_MAGIC
    ensures var r := ChangedEch(h, imageSeq, ec);
      EcHeaderValid(r) &&
      FromBe32(r[IMAGE_SEQ_OFFSET..IMAGE_SEQ_OFFSET + 4]) == imageSeq &&
      r[EC_OFFSET..EC_OFFSET + 8] == Be64(ec) &&
      forall i :: (0 <= i < EC_OFFSET || EC_OFFSET + 8 <= i < IMAGE_SEQ_OFFSET ||
                   IMAGE_SEQ_OFFSET + 4 <= i < HDR_CRC_OFFSET) ==> r[i] == h[i]
  {
    var h0 := Splice(h, IMAGE_SEQ_OFFSET, Be32(imageSeq));
    var h1 := Splice(h0, EC_OFFSET, Be64(ec));
    var crc := Crc32(UBI_CRC32_INIT, h1[..UBI_EC_HDR_SIZE_CRC]);
    var r := Splice(h1, HDR_CRC_OFFSET, Be32(crc));
    assert r[..UBI_EC_HDR_SIZE_CRC] == h1[..UBI_EC_HDR_SIZE_CRC];
    assert r[0..4] == h[0..4];
    assert r[IMAGE_SEQ_OFFSET..IMAGE_SEQ_OFFSET + 4] == h1[IMAGE_SEQ_OFFSET..IMAGE_SEQ_OFFSET + 4] == Be32(imageSeq);
    Be32RoundTrip(imageSeq);
    Be32RoundTrip(crc);
  }

  /** Overwrite hdr[off..off + |bs|] with `bs`, as a field assignment does. */
  method Store(hdr: array<byte>, off: nat, bs: seq<byte>)
    requires off + |bs| <= hdr.Length
    modifies hdr
    ensures hdr[..] == Splice(old(hdr[..]), off, bs)
  {
    forall i | 0 <= i < |bs| {
      hdr[off + i] := bs[i];
    }
  }

  /** change_ech: a header with a bad magic or a bad CRC is refused and left
      as it is; otherwise image_seq and ec are replaced and the CRC
      recomputed. */
  method ChangeEch(hdr: array<byte>, imageSeq: u32, ec: int) returns (r: int)
    requires hdr.Length == UBI_EC_HDR_SIZE
    modifies hdr
    ensures r == 0 || r == -1
    ensures r == 0 <==> EcHeaderValid(old(hdr[..]))
    ensures r == -1 ==> hdr[..] == old(hdr[..])
    ensures r == 0 ==> hdr[..] == ChangedEch(old(hdr[..]), imageSeq, ec)
  {
    if FromBe32(hdr[0..4]) != UBI_EC_HDR_MAGIC {
      return Common.ErrMsg("bad UBI magic");
    }
    var crc := Crc32(UBI_CRC32_INIT, hdr[..UBI_EC_HDR_SIZE_CRC]);
    if FromBe32(hdr[HDR_CRC_OFFSET..UBI_EC_HDR_SIZE]) != crc {
      return Common.ErrMsg("bad CRC");
    }
    Store(hdr, IMAGE_SEQ_OFFSET, Be32(imageSeq));
    Store(hdr, EC_OFFSET, Be64(ec));
    crc := Crc32(UBI_CRC32_INIT, hdr[..UBI_EC_HDR_SIZE_CRC]);
    Store(hdr, HDR_CRC_OFFSET, Be32(crc));
    return 0;
  }

  // ---------------------------------------------------------------------------
  // Erase counters

  /** The largest valid erase counter; the scanner's markers for bad, empty,
      corrupted and alien eraseblocks lie above it. */
  const EC_MAX := 0x7FFF_FFFF

  /** The erase counter written to eraseblock `eb` by flash_image and format:
      the forced value, else one more than the block's own counter when it
      has a valid one, else the mean. */
  function SelectEc(overrideEc: bool, argsEc: int, blockEc: int, meanEc: int): (ec: int)
    ensures overrideEc ==> ec == argsEc
    ensures !overrideEc && blockEc <= EC_MAX ==> ec == blockEc + 1 && ec <= EC_MAX + 1
    ensures !overrideEc && blockEc > EC_MAX ==> ec == meanEc
  {
    if overrideEc then argsEc
    else if blockEc <= EC_MAX then blockEc + 1
    else meanEc
  }

  /** (override_ec, ec) after the erase-counter policy of ubiformat. */
  function PolicyOutcome(overrideEc: bool, ec: int, goodCnt: nat, emptyCnt: nat, okCnt: nat, meanEc: int): (bool, int)
  {
    if !overrideEc && emptyCnt < goodCnt then
      var percent := (okCnt * 100) / goodCnt;
      if percent < 50 then (true, 0)
      else if percent < 95 then (true, meanEc)
      else (overrideEc, ec)
    else (overrideEc, ec)
  }

  /** For a positive divisor d, n / d < t exactly when n < t * d. */
  lemma DivBelow(n: nat, d: nat, t: nat)
    requires d > 0
    ensures n / d < t <==> n < t * d
  {
    var q := n / d;
    assert n == q * d + n % d;
    if q < t {
      assert q + 1 <= t;
      assert (q + 1) * d <= t * d;
    } else {
      assert t * d <= q * d;
    }
  }

  /** The policy in terms of the share of good eraseblocks with a valid
      erase counter: below 50% every block gets 0, below 95% the mean, and
      otherwise (or when a counter is already forced, or every good block is
      empty) nothing is forced by it. */
  lemma PolicyThresholds(overrideEc: bool, ec: int, goodCnt: nat, emptyCnt: nat, okCnt: nat, meanEc: int)
    ensures PolicyOutcome(overrideEc, ec, goodCnt, emptyCnt, okCnt, meanEc) ==
      if !overrideEc && emptyCnt < goodCnt && okCnt * 100 < 50 * goodCnt then (true, 0)
      else if !overrideEc && emptyCnt < goodCnt && okCnt * 100 < 95 * goodCnt then (true, meanEc)
      else (overrideEc, ec)
  {
    if !overrideEc && emptyCnt < goodCnt {
      DivBelow(okCnt * 100, goodCnt, 50);
      DivBelow(okCnt * 100, goodCnt, 95);
    }
  }

  /** The erase counter every good eraseblock receives once the policy has
      run: a forced value is the same for all blocks, whatever their own
      counters; otherwise each block's counter advances by one. */
  lemma PolicyThenSelect(overrideEc: bool, ec: int, goodCnt: nat, emptyCnt: nat, okCnt: nat, meanEc: int, blockEc: int)
    ensures var p := PolicyOutcome(overrideEc, ec, goodCnt, emptyCnt, okCnt, meanEc);
      SelectEc(p.0, p.1, blockEc, meanEc) ==
        if overrideEc then ec
        else if emptyCnt < goodCnt && okCnt * 100 < 50 * goodCnt then 0
        else if emptyCnt < goodCnt && okCnt * 100 < 95 * goodCnt then meanEc
        else if blockEc <= EC_MAX then blockEc + 1
        else meanEc
  {
    PolicyThresholds(overrideEc, ec, goodCnt, emptyCnt, okCnt, meanEc);
  }

  /** The parts of struct ubiformat_args this model reads or writes. */
  class UbiformatArgs {
    var overrideEc: bool
    var ec: int
    var vidHdrOffs: int
    var imageSeq: u32

    constructor(overrideEc: bool, ec: int, vidHdrOffs: int, imageSeq: u32)
      ensures this.overrideEc == overrideEc && this.ec == ec
      ensures this.vidHdrOffs == vidHdrOffs && this.imageSeq == imageSeq
    {
      this.overrideEc := overrideEc;
      this.ec := ec;
      this.vidHdrOffs := vidHdrOffs;
      this.imageSeq := imageSeq;
    }

    /** The erase-counter policy block of ubiformat, given the scan's
        counts and mean erase counter. */
    method ApplyEcPolicy(goodCnt: nat, emptyCnt: nat, okCnt: nat, meanEc: int)
      modifies this
      ensures (overrideEc, ec) == PolicyOutcome(old(overrideEc), old(ec), goodCnt, emptyCnt, okCnt, meanEc)
      ensures vidHdrOffs == old(vidHdrOffs) && imageSeq == old(imageSeq)
    {
      if !overrideEc && emptyCnt < goodCnt {
        var percent := (okCnt * 100) / goodCnt;
        if percent < 50 {
          ec := 0;
          overrideEc := true;
        } else if percent < 95 {
          ec := meanEc;
          overrideEc := true;
        }
      }
    }
  }

  // ---------------------------------------------------------------------------
  // Size and argument checks

  /** The size checks at the start of flash_image: -1 when the image needs
      more eraseblocks than there are good ones, or is not a whole number of
      eraseblocks; 0 when writing goes ahead. */
  function FlashImageSizeCheck(imageLen: nat, erasesize: nat, goodCnt: nat): (r: int)
    requires erasesize > 0
    ensures r == 0 || r == -1
    ensures r == 0 <==> imageLen % erasesize == 0 && imageLen <= goodCnt * erasesize
  {
    var imgEbs := imageLen / erasesize;
    DivBelow(imageLen, erasesize, goodCnt + 1);
    assert (goodCnt + 1) * erasesize == goodCnt * erasesize + erasesize;
    if imgEbs > goodCnt then Common.SysErrMsg("image is too large", 0)
    else if imageLen % erasesize != 0 then Common.SysErrMsg("image is not multiple of eraseblock size", 0)
    else 0
  }

  const UBI_VID_HDR_SIZE := 64

  /** The VID header offset check of ubiformat as written: the sum
      vid_hdr_offs + UBI_VID_HDR_SIZE is an int compared with the unsigned
      erasesize, so it is converted to unsigned first. */
  predicate VidHdrOffsAccepted(vidHdrOffs: int, erasesize: bv32)
  {
    vidHdrOffs == 0 ||
    (vidHdrOffs % 8 == 0 && (vidHdrOffs + UBI_VID_HDR_SIZE) % 0x1_0000_0000 <= erasesize as int)
  }

  /** A negative offset that is a multiple of 8 and no lower than -64 passes
      the check as written: -8 + 64 = 56 fits in any eraseblock. */
  lemma NegativeVidHdrOffsAccepted()
    ensures VidHdrOffsAccepted(-8, 0x2_0000)
    ensures !VidHdrOffsValid(-8, 0x2_0000)
  {
  }

  /** The evidently intended check: a nonzero offset is positive, a multiple
      of 8, and leaves room for the VID header inside the eraseblock. */
  predicate VidHdrOffsValid(vidHdrOffs: int, erasesize: bv32)
  {
    vidHdrOffs == 0 ||
    (vidHdrOffs > 0 && vidHdrOffs % 8 == 0 && vidHdrOffs + UBI_VID_HDR_SIZE <= erasesize as int)
  }

  /** For offsets whose sum with the header size does not overflow an int,
      the corrected check is the check as written restricted to non-negative
      offsets; an accepted nonzero offset leaves room for the header. */
  lemma VidHdrOffsCorrection(vidHdrOffs: int, erasesize: bv32)
    requires -0x8000_0000 <= vidHdrOffs <= 0x7FFF_FFFF - UBI_VID_HDR_SIZE
    ensures VidHdrOffsValid(vidHdrOffs, erasesize) <==> VidHdrOffsAccepted(vidHdrOffs, erasesize) && vidHdrOffs >= 0
    ensures VidHdrOffsValid(vidHdrOffs, erasesize) && vidHdrOffs != 0 ==>
      0 < vidHdrOffs && vidHdrOffs + UBI_VID_HDR_SIZE <= erasesize as int
  {
    if vidHdrOffs >= 0 {
      assert (vidHdrOffs + UBI_VID_HDR_SIZE) % 0x1_0000_0000 == vidHdrOffs + UBI_VID_HDR_SIZE;
    }
  }

  /** The image length ubiformat works with: rounded down to a whole number
      of eraseblocks when `misaligned` (image_len % erasesize != 0), so
      trailing metadata is ignored, and left alone otherwise. For a
      power-of-two eraseblock size at most one eraseblock's worth is cut. */
  function RoundedImageLen(imageLen: bv32, erasesize: bv32, misaligned: bool): (len: bv32)
    ensures !misaligned ==> len == imageLen
    ensures Common.IsPow2(erasesize) ==> len <= imageLen && imageLen - len < erasesize
    ensures misaligned && Common.IsPow2(erasesize) ==> len & (erasesize - 1) == 0
  {
    if misaligned then
      var r := Common.RoundDown(imageLen, erasesize);
      (if Common.IsPow2(erasesize) then Common.RoundDownBounds(imageLen, erasesize); r else r)
    else imageLen
  }

  /** image_len % erasesize != 0 */
  predicate Misaligned(imageLen: bv32, erasesize: bv32)
    requires erasesize != 0
  {
    imageLen % erasesize != 0
  }

  /** What ubiformat needs to know of the MTD device. */
  datatype MtdInfo = MtdInfo(writesize: bv32, erasesize: bv32, writeable: bool)

  /** The checks ubiformat makes before formatting, with the VID header
      offset check corrected: the device must exist, have a power-of-two
      minimum I/O size and be writeable; the VID header offset must be
      valid; the scan (not part of this model) must succeed and find at least
      two good eraseblocks. The result is the image length to write, rounded
      down to whole eraseblocks, or None when ubiformat returns -1. */
  function UbiformatChecks(mtd: Option<MtdInfo>, imageLen: bv32, vidHdrOffs: int, scanOk: bool, goodCnt: int): (r: Option<bv32>)
    requires mtd.Some? ==> mtd.value.erasesize != 0
    ensures r.Some? <==>
      mtd.Some? && Common.IsPow2(mtd.value.writesize) && VidHdrOffsValid(vidHdrOffs, mtd.value.erasesize) &&
      mtd.value.writeable && scanOk && goodCnt >= 2
    ensures r.Some? && vidHdrOffs != 0 ==> 0 < vidHdrOffs && vidHdrOffs + UBI_VID_HDR_SIZE <= mtd.value.erasesize as int
    ensures r.Some? ==> r.value == RoundedImageLen(imageLen, mtd.value.erasesize, Misaligned(imageLen, mtd.value.erasesize))
  {
    if mtd.None? then None
    else
      var m := mtd.value;
      if !Common.IsPow2(m.writesize) then None
      else
        var len := RoundedImageLen(imageLen, m.erasesize, Misaligned(imageLen, m.erasesize));
        if !VidHdrOffsValid(vidHdrOffs, m.erasesize) then None
        else if !m.writeable then None
        else if !scanOk then None
        else if goodCnt == 0 || goodCnt < 2 then None
        else Some(len)
  }
}
