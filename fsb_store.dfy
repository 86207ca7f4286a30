/** The record log and the dual-partition store of fsb.c: finding the last
    valid record and the first free slot, appending a record (or erasing and
    restarting at index 0), loading with fallback primary, secondary, default,
    saving secondary first, and the context that holds the working and the
    active record. */
module FsbStore {
  import opened Bytes
  import opened Options
  import opened FsbRecord
  import opened FsbFlash

  /** FSB_CONFIG_ARRAY_SIZE_MAX: at most this many records are read. */
  const ARRAY_SIZE_MAX := 4096

  /** The records fsb_partition_read and fsb_partition_write get to see. */
  function View(blocks: seq<Block>): (v: seq<Block>)
    ensures |v| == if |blocks| < ARRAY_SIZE_MAX then |blocks| else ARRAY_SIZE_MAX
    ensures forall i :: 0 <= i < |v| ==> v[i] == blocks[i]
  {
    if |blocks| < ARRAY_SIZE_MAX then blocks else blocks[..ARRAY_SIZE_MAX]
  }

  // ---------------------------------------------------------------------------
  // The log

  /** The index of the authoritative record: the highest one that validates,
      or -1 when none does. */
  function LastValid(bcs: seq<Block>): (r: int)
    ensures -1 <= r < |bcs|
    ensures r >= 0 ==> IsValidBlock(bcs[r])
    ensures forall k :: r < k < |bcs| ==> !IsValidBlock(bcs[k])
  {
    if |bcs| == 0 then -1
    else if IsValidBlock(bcs[|bcs| - 1]) then |bcs| - 1
    else LastValid(bcs[..|bcs| - 1])
  }

  /** The three ensures of LastValid pin it down. */
  lemma LastValidUnique(bcs: seq<Block>, r: int)
    requires -1 <= r < |bcs|
    requires r >= 0 ==> IsValidBlock(bcs[r])
    requires forall k :: r < k < |bcs| ==> !IsValidBlock(bcs[k])
    ensures r == LastValid(bcs)
  {
  }

  /** The first erased slot at or after `from`, or -1. A negative `from`
      compares as a huge unsigned value against the size_t count, so the
      scan does not run. */
  function FirstFree(bcs: seq<Block>, from: int): (r: int)
    decreases |bcs| - from
    ensures r == -1 || (0 <= from <= r < |bcs| && bcs[r] == ErasedBlock())
    ensures r == -1 && 0 <= from ==> forall k :: from <= k < |bcs| ==> bcs[k] != ErasedBlock()
    ensures r >= 0 ==> forall k :: from <= k < r ==> bcs[k] != ErasedBlock()
  {
    if from < 0 || from >= |bcs| then -1
    else if bcs[from] == ErasedBlock() then from
    else FirstFree(bcs, from + 1)
  }

  /** fsb_array_find_valid: scan from the highest index down. */
  method FindValid(bcs: seq<Block>) returns (idx: int)
    ensures idx == LastValid(bcs)
  {
    var i := |bcs| - 1;
    while i >= 0
      invariant -1 <= i < |bcs|
      invariant forall k :: i < k < |bcs| ==> !IsValidBlock(bcs[k])
    {
      var bc := bcs[i];
      if FromLe32(bc[0..4]) == MAGIC && FromLe32(bc[12..16]) == CrcOf(bc) {
        LastValidUnique(bcs, i);
        return i;
      }
      i := i - 1;
    }
    LastValidUnique(bcs, -1);
    return -1;
  }

  /** fsb_array_find_free: compare each record with 16 bytes of 0xFF. */
  method FindFree(bcs: seq<Block>, minIdx: int) returns (idx: int)
    ensures idx == FirstFree(bcs, minIdx)
  {
    if minIdx < 0 {
      return -1;
    }
    var cmpbuf := Fill(0xFF, RECORD_SIZE);
    var i := minIdx;
    while i < |bcs|
      invariant minIdx <= i
      invariant FirstFree(bcs, minIdx) == FirstFree(bcs, i)
    {
      if bcs[i] == cmpbuf {
        return i;
      }
      i := i + 1;
    }
    return -1;
  }

  /** Where fsb_partition_write puts the next record: the first free slot
      after the last valid one, within the records it read; -1 means none. */
  function AppendIndex(blocks: seq<Block>): int
  {
    FirstFree(View(blocks), LastValid(View(blocks)) + 1)
  }

  /** The records of a writable partition after fsb_partition_write of `bc`:
      written at AppendIndex, or, when there is no free slot, the partition
      erased and `bc` written at index 0. */
  function Appended(blocks: seq<Block>, bc: Block): (r: seq<Block>)
    requires |blocks| > 0
    ensures |r| == |blocks|
  {
    var i := AppendIndex(blocks);
    if i >= 0 then blocks[i := bc] else Erased(|blocks|)[0 := bc]
  }

  /** Appending a valid record and scanning again finds exactly that record,
      at the index it was written to, in the append branch and in the
      erase-and-restart branch alike. */
  lemma {:induction false} AppendThenFindValid(blocks: seq<Block>, bc: Block)
    requires |blocks| > 0 && IsValidBlock(bc)
    ensures LastValid(View(Appended(blocks, bc))) == (if AppendIndex(blocks) >= 0 then AppendIndex(blocks) else 0)
    ensures View(Appended(blocks, bc))[LastValid(View(Appended(blocks, bc)))] == bc
  {
    var v := View(blocks);
    var i := AppendIndex(blocks);
    var w := View(Appended(blocks, bc));
    if i >= 0 {
      assert forall k :: i < k < |w| ==> w[k] == v[k];
      LastValidUnique(w, i);
    } else {
      ErasedNeverValid();
      assert forall k :: 0 < k < |w| ==> w[k] == ErasedBlock();
      LastValidUnique(w, 0);
    }
  }

  /** Appending keeps every earlier record and the length of the log; an
      erase happens only when no slot after the last valid record is free. */
  lemma {:induction false} AppendKeepsHistory(blocks: seq<Block>, bc: Block)
    requires |blocks| > 0
    ensures AppendIndex(blocks) >= 0 ==> LastValid(View(blocks)) < AppendIndex(blocks) && Appended(blocks, bc)[..AppendIndex(blocks)] == blocks[..AppendIndex(blocks)]
    ensures AppendIndex(blocks) < 0 ==> forall k :: LastValid(View(blocks)) < k < |View(blocks)| ==> blocks[k] != ErasedBlock()
  {
  }

  // ---------------------------------------------------------------------------
  // One partition

  /** What fsb_partition_read finds in a partition. */
  function Stored(p: Partition): (r: Option<Config>)
    ensures r.Some? ==> Validates(r.value)
    ensures r.Some? <==> Readable(p) && LastValid(View(p.blocks)) >= 0
  {
    if !Readable(p) then None
    else
      var i := LastValid(View(p.blocks));
      if i < 0 then None
      else
        ParsedValidatesIffValidBlock(View(p.blocks)[i]);
        Some(Parse(View(p.blocks)[i]))
  }

  /** fsb_partition_read. Allocation failure of the scratch array is not
      modelled. */
  method PartitionRead(flash: Flash, id: PartitionId) returns (ret: int, bc: Option<Config>)
    ensures bc == Stored(flash.Part(id))
    ensures ret == 0 <==> bc.Some?
  {
    var r, bcs := flash.Read(id, ARRAY_SIZE_MAX);
    if r != 0 {
      return r, None;
    }
    assert bcs == View(flash.Part(id).blocks);
    var idx := FindValid(bcs);
    if idx < 0 {
      return 1, None;
    }
    return 0, Some(Parse(bcs[idx]));
  }

  /** A healthy partition: found, every operation on it succeeds, and it
      has room for at least one record. */
  predicate Writable(p: Partition)
  {
    Readable(p) && p.eraseOk && p.writeOk && |p.blocks| > 0
  }

  /** fsb_partition_write returns 0 on this partition: the read succeeds,
      and then either the append succeeds, or the erase and the write at
      index 0 both do. */
  predicate WriteSucceeds(p: Partition)
  {
    Readable(p) && p.writeOk && |p.blocks| > 0 && (AppendIndex(p.blocks) >= 0 || p.eraseOk)
  }

  /** The failure that loses records: no free slot, the erase succeeds and
      the write of the new record at index 0 fails. */
  predicate ErasedByFailedWrite(p: Partition)
  {
    Readable(p) && AppendIndex(p.blocks) < 0 && p.eraseOk && !WriteSucceeds(p)
  }

  /** The partition after fsb_partition_write of `c`, following each of its
      branches. */
  function AfterWrite(p: Partition, c: Config): (r: Partition)
    ensures r == p.(blocks := r.blocks) && |r.blocks| == |p.blocks|
    ensures WriteSucceeds(p) ==> r.blocks == Appended(p.blocks, Serialize(c))
    ensures ErasedByFailedWrite(p) ==> r.blocks == Erased(|p.blocks|)
    ensures !WriteSucceeds(p) && !ErasedByFailedWrite(p) ==> r == p
  {
    if !Readable(p) then p
    else
      var i := AppendIndex(p.blocks);
      if i >= 0 then
        if p.writeOk then p.(blocks := p.blocks[i := Serialize(c)]) else p
      else if !p.eraseOk then p
      else
        var erased := Erased(|p.blocks|);
        if p.writeOk && |p.blocks| > 0 then p.(blocks := erased[0 := Serialize(c)])
        else p.(blocks := erased)
  }

  /** fsb_partition_write. A failed read, append write or erase changes
      nothing; a write that fails after the erase leaves the partition
      erased. */
  method PartitionWrite(flash: Flash, id: PartitionId, bc: Config) returns (ret: int)
    modifies flash
    ensures ret == 0 <==> WriteSucceeds(old(flash.Part(id)))
    ensures flash.Part(id) == AfterWrite(old(flash.Part(id)), bc)
    ensures flash.Part(Other(id)) == old(flash.Part(Other(id)))
  {
    var r, bcs := flash.Read(id, ARRAY_SIZE_MAX);
    if r != 0 {
      return r;
    }
    assert bcs == View(flash.Part(id).blocks);
    var newIdx := FindValid(bcs);
    newIdx := FindFree(bcs, newIdx + 1);
    if newIdx >= 0 {
      ret := flash.Write(id, newIdx, Serialize(bc));
    } else {
      ret := flash.Erase(id);
      if ret != 0 {
        return ret;
      }
      ret := flash.Write(id, 0, Serialize(bc));
    }
  }

  /** An erased partition holds no record. */
  lemma ErasedHoldsNoRecord(p: Partition)
    requires p.blocks == Erased(|p.blocks|)
    ensures Stored(p).None?
  {
    ErasedNeverValid();
    var v := View(p.blocks);
    assert forall k :: 0 <= k < |v| ==> !IsValidBlock(v[k]);
    LastValidUnique(v, -1);
  }

  // ---------------------------------------------------------------------------
  // Both partitions

  /** fsb_config_load's result: the primary's record, else the secondary's,
      else the default. */
  function Loaded(primary: Partition, secondary: Partition): (c: Config)
    ensures Validates(c) || c == DefaultConfig()
    ensures Stored(primary).Some? ==> c == Stored(primary).value
  {
    match Stored(primary)
    case Some(c) => c
    case None =>
      match Stored(secondary)
      case Some(c) => c
      case None => DefaultConfig()
  }

  method ConfigLoad(flash: Flash) returns (c: Config)
    ensures c == Loaded(flash.primary, flash.secondary)
  {
    var ret, bc := PartitionRead(flash, Primary);
    if ret == 0 {
      return bc.value;
    }
    ret, bc := PartitionRead(flash, Secondary);
    if ret == 0 {
      return bc.value;
    }
    return DefaultConfig();
  }

  /** The partitions after fsb_config_save(c): the secondary is written
      first, and the primary only if that succeeded. */
  function SavedPartitions(primary: Partition, secondary: Partition, c: Config): (r: (Partition, Partition))
    ensures r.1 == AfterWrite(secondary, c)
    ensures !WriteSucceeds(secondary) ==> r.0 == primary
  {
    (if WriteSucceeds(secondary) then AfterWrite(primary, c) else primary, AfterWrite(secondary, c))
  }

  method ConfigSave(flash: Flash, bc: Config) returns (ret: int)
    modifies flash
    ensures ret == 0 <==> WriteSucceeds(old(flash.secondary)) && WriteSucceeds(old(flash.primary))
    ensures (flash.primary, flash.secondary) == SavedPartitions(old(flash.primary), old(flash.secondary), bc)
  {
    ret := PartitionWrite(flash, Secondary, bc);
    if ret != 0 {
      return ret;
    }
    ret := PartitionWrite(flash, Primary, bc);
  }

  /** A save that succeeds is read back by the next load, field for field,
      whether each partition appended or erased and restarted. */
  lemma {:induction false} SaveThenLoad(primary: Partition, secondary: Partition, c: Config)
    requires Validates(c) && WriteSucceeds(secondary) && WriteSucceeds(primary)
    ensures Loaded(SavedPartitions(primary, secondary, c).0, SavedPartitions(primary, secondary, c).1) == c
  {
    var p := SavedPartitions(primary, secondary, c).0;
    ValidBlockIffValidates(c);
    AppendThenFindValid(primary.blocks, Serialize(c));
    ParseSerialize(c);
    assert Stored(p) == Some(c);
  }

  /** A save interrupted after the secondary was written: the next load
      still returns the old primary record whenever the primary had one, and
      the new record only when it had none. */
  lemma {:induction false} InterruptedSaveLoadsPrimary(primary: Partition, secondary: Partition, c: Config)
    requires Validates(c) && WriteSucceeds(secondary)
    ensures Stored(primary).Some? ==> Loaded(primary, AfterWrite(secondary, c)) == Stored(primary).value
    ensures Stored(primary).None? ==> Loaded(primary, AfterWrite(secondary, c)) == c
  {
    ValidBlockIffValidates(c);
    AppendThenFindValid(secondary.blocks, Serialize(c));
    ParseSerialize(c);
    assert Stored(AfterWrite(secondary, c)) == Some(c);
  }

  /** A failed save whose erase went through: when the secondary is erased
      and its write fails, the primary is not touched and the next load
      returns the primary's record, or the default when the primary has
      none, so the records of the secondary are lost. When the secondary
      was written and it is the primary that is erased and not rewritten,
      the save reports failure, yet the next load returns the new record
      from the secondary. */
  lemma {:induction false} FailedSaveAfterErase(primary: Partition, secondary: Partition, c: Config)
    requires Validates(c)
    ensures ErasedByFailedWrite(secondary) ==>
      var s := SavedPartitions(primary, secondary, c);
      s.0 == primary && Stored(s.1).None? &&
      Loaded(s.0, s.1) == (if Stored(primary).Some? then Stored(primary).value else DefaultConfig())
    ensures WriteSucceeds(secondary) && ErasedByFailedWrite(primary) ==>
      var s := SavedPartitions(primary, secondary, c);
      Stored(s.0).None? && Loaded(s.0, s.1) == c
  {
    var s := SavedPartitions(primary, secondary, c);
    if ErasedByFailedWrite(secondary) {
      ErasedHoldsNoRecord(s.1);
    }
    if WriteSucceeds(secondary) && ErasedByFailedWrite(primary) {
      ErasedHoldsNoRecord(s.0);
      ValidBlockIffValidates(c);
      AppendThenFindValid(secondary.blocks, Serialize(c));
      ParseSerialize(c);
      assert Stored(s.1) == Some(c);
    }
  }

  // ---------------------------------------------------------------------------
  // The context

  /** The partitions after fsb_context_save, given the active record and the
      stamped working record: nothing is written when they are equal. */
  function ContextSaved(active: Config, stamped: Config, primary: Partition, secondary: Partition): (r: (Partition, Partition))
    ensures stamped == active ==> r == (primary, secondary)
  {
    if stamped == active then (primary, secondary) else SavedPartitions(primary, secondary, stamped)
  }

  /** fsb_context: config_new is the working copy, config_active the record
      believed to be on flash. */
  class Context {
    var configNew: Config
    var configActive: Config

    /** A zero-filled context, as kzalloc gives it. */
    constructor ()
      ensures configNew == ZeroConfig() && configActive == ZeroConfig()
    {
      configNew := ZeroConfig();
      configActive := ZeroConfig();
    }

    /** fsb_context_revert */
    method Revert()
      modifies this
      ensures configActive == old(configActive) && configNew == configActive
    {
      configNew := configActive;
    }

    /** fsb_context_load */
    method Load(flash: Flash)
      modifies this
      ensures configActive == Loaded(flash.primary, flash.secondary) && configNew == configActive
    {
      configActive := ConfigLoad(flash);
      Revert();
    }

    /** fsb_context_save: stamp magic and CRC on config_new; skip the write
        when it equals config_active byte for byte; otherwise save it and
        adopt it as config_active, whether or not the save succeeded. */
    method Save(flash: Flash) returns (ret: int)
      modifies this, flash
      ensures configNew == Stamped(old(configNew)) && configActive == configNew
      ensures (flash.primary, flash.secondary) == ContextSaved(old(configActive), configNew, old(flash.primary), old(flash.secondary))
      ensures ret == 0 <==> configNew == old(configActive) || (WriteSucceeds(old(flash.secondary)) && WriteSucceeds(old(flash.primary)))
    {
      configNew := configNew.(magic := MAGIC);
      configNew := CrcUpdate(configNew);
      if Serialize(configNew) == Serialize(configActive) {
        SerializeInjective(configNew, configActive);
        return 0;
      }
      ret := ConfigSave(flash, configNew);
      configActive := configNew;
    }
  }

  /** When config_active mirrors flash, a successful fsb_context_save keeps
      it so: the next load returns the new config_active. */
  lemma {:induction false} SaveKeepsSync(active: Config, working: Config, primary: Partition, secondary: Partition)
    requires Loaded(primary, secondary) == active
    requires Stamped(working) == active || (WriteSucceeds(secondary) && WriteSucceeds(primary))
    ensures Loaded(ContextSaved(active, Stamped(working), primary, secondary).0,
                   ContextSaved(active, Stamped(working), primary, secondary).1) == Stamped(working)
  {
    if Stamped(working) != active {
      SaveThenLoad(primary, secondary, Stamped(working));
    }
  }

  /** After a save that failed at the secondary, config_active no longer
      mirrors flash: the primary is untouched and the next load does not
      return the new record (whether the secondary was left as it was or
      erased). Saving the same working copy again skips the write and
      reports success. */
  lemma {:induction false} FailedSaveThenRetrySkips(active: Config, working: Config, primary: Partition, secondary: Partition)
    requires Loaded(primary, secondary) == active && Stamped(working) != active
    requires !WriteSucceeds(secondary)
    ensures var s := ContextSaved(active, Stamped(working), primary, secondary);
      s.0 == primary && Loaded(s.0, s.1) != Stamped(working) &&
      Stamped(Stamped(working)) == Stamped(working) &&
      ContextSaved(Stamped(working), Stamped(Stamped(working)), s.0, s.1) == s
  {
    StampedIdempotent(working);
    var s := ContextSaved(active, Stamped(working), primary, secondary);
    if ErasedByFailedWrite(secondary) {
      FailedSaveAfterErase(primary, secondary, Stamped(working));
      DefaultDoesNotValidate();
    }
  }
}
