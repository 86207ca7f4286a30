/** The two NOR partitions behind fsb_flash_read, fsb_flash_write and
    fsb_flash_erase: "bootconfig-a" (primary) and "bootconfig-b" (secondary),
    each seen as an array of 16-byte record slots. The MTD layer itself is not
    part of this model; a partition is its records plus facts about the
    device: whether it was found, and whether its reads, its erases and its
    writes succeed. Each of the three can fail on its own, so an erase that
    succeeds can be followed by a write that fails. */
module FsbFlash {
  import opened Bytes
  import opened FsbRecord

  /** Linux errno values; drivers return them negated. */
  const EIO := 5
  const EINVAL := 22

  datatype PartitionId = Primary | Secondary

  function Other(id: PartitionId): PartitionId
  {
    if id == Primary then Secondary else Primary
  }

  /** `blocks` holds size / 16 records. `present` is false when
      get_mtd_device_nm finds no device; `readOk`, `eraseOk` and `writeOk`
      say whether mtd_read, mtd_erase and mtd_write on the device succeed
      (otherwise they return -EIO and change nothing). */
  datatype Partition = Partition(blocks: seq<Block>, present: bool, readOk: bool, eraseOk: bool, writeOk: bool)

  predicate Readable(p: Partition)
  {
    p.present && p.readOk
  }

  /** `n` erased record slots. */
  function Erased(n: nat): (bs: seq<Block>)
    ensures |bs| == n && forall i :: 0 <= i < n ==> bs[i] == ErasedBlock()
  {
    seq(n, _ => ErasedBlock())
  }

  class Flash {
    var primary: Partition
    var secondary: Partition

    function Part(id: PartitionId): Partition
      reads this
    {
      if id == Primary then primary else secondary
    }

    constructor (primary: Partition, secondary: Partition)
      ensures this.primary == primary && this.secondary == secondary
    {
      this.primary := primary;
      this.secondary := secondary;
    }

    /** fsb_flash_read: 1 when the device is missing, the driver's error when
        the read fails, else the first min(outSize, size / 16) records. */
    method Read(id: PartitionId, outSize: nat) returns (ret: int, bcs: seq<Block>)
      ensures ret == 0 <==> Readable(Part(id))
      ensures !Part(id).present ==> ret == 1
      ensures ret == 0 ==> |bcs| == (if outSize < |Part(id).blocks| then outSize else |Part(id).blocks|)
      ensures ret == 0 ==> bcs == Part(id).blocks[..|bcs|]
    {
      var p := Part(id);
      if !p.present {
        return 1, [];
      }
      if !p.readOk {
        return -EIO, [];
      }
      var n := if outSize < |p.blocks| then outSize else |p.blocks|;
      return 0, p.blocks[..n];
    }

    /** fsb_flash_write of one record at index `idx`. mtd_write refuses a
        range past the end of the partition with -EINVAL. A failed write
        leaves the partition as it was. */
    method Write(id: PartitionId, idx: nat, bc: Block) returns (ret: int)
      modifies this
      ensures ret == 0 <==> old(Part(id)).present && old(Part(id)).writeOk && idx < |old(Part(id)).blocks|
      ensures !old(Part(id)).present ==> ret == 1
      ensures ret == 0 ==> idx < |old(Part(id)).blocks| && Part(id) == old(Part(id)).(blocks := old(Part(id)).blocks[idx := bc])
      ensures ret != 0 ==> Part(id) == old(Part(id))
      ensures Part(Other(id)) == old(Part(Other(id)))
    {
      var p := Part(id);
      if !p.present {
        return 1;
      }
      if !p.writeOk {
        return -EIO;
      }
      if idx >= |p.blocks| {
        return -EINVAL;
      }
      if id == Primary {
        primary := p.(blocks := p.blocks[idx := bc]);
      } else {
        secondary := p.(blocks := p.blocks[idx := bc]);
      }
      return 0;
    }

    /** fsb_flash_erase: the whole partition reads back as 0xFF. */
    method Erase(id: PartitionId) returns (ret: int)
      modifies this
      ensures ret == 0 <==> old(Part(id)).present && old(Part(id)).eraseOk
      ensures !old(Part(id)).present ==> ret == 1
      ensures ret == 0 ==> Part(id) == old(Part(id)).(blocks := Erased(|old(Part(id)).blocks|))
      ensures ret != 0 ==> Part(id) == old(Part(id))
      ensures Part(Other(id)) == old(Part(Other(id)))
    {
      var p := Part(id);
      if !p.present {
        return 1;
      }
      if !p.eraseOk {
        return -EIO;
      }
      if id == Primary {
        primary := p.(blocks := Erased(|p.blocks|));
      } else {
        secondary := p.(blocks := Erased(|p.blocks|));
      }
      return 0;
    }
  }
}
