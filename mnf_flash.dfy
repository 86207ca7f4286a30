/** The manufacturing-information store of mnf_flash.c: single fields are
    read straight from the "config" MTD partition; changes are made by
    loading the first 64 KiB of the partition into the static buffer
    mnf_cache, patching fields in the buffer, and writing it back after
    erasing the partition.

    The MTD layer is not part of this model. The partition is a datatype
    whose flags say whether its reads, erases and writes succeed; a request
    that does not fit the partition fails with -EINVAL, a failing operation
    with -EIO, and a failed operation changes nothing. */
module MnfFlash {
  import opened Options
  import opened Bytes
  import opened MnfFields
  import opened FsbFlash

  const MNF_INFO_SIZE := 0x10000
  const ENODEV := 19

  /** The value of an erased flash byte. */
  const ERASED: char := 0xFF as char

  /** The "config" partition: its contents (of its full size, mtd->size) and
      whether reads, erases and writes succeed. */
  datatype ConfigPartition = ConfigPartition(data: seq<char>, readOk: bool, eraseOk: bool, writeOk: bool)

  /** The result code of mtd_read(mtd, from, len). */
  function ReadCode(p: ConfigPartition, from: nat, len: nat): (r: int)
    ensures r == 0 || r == -EINVAL || r == -EIO
    ensures r == 0 <==> from + len <= |p.data| && p.readOk
  {
    if from + len > |p.data| then -EINVAL else if !p.readOk then -EIO else 0
  }

  /** The table's fields all lie inside the cached block, so patching any of
      them stays inside mnf_cache. */
  lemma FieldsFitCache()
    ensures forall i :: 0 <= i < |MNF_FIELDS| ==> MNF_FIELDS[i].offset + MNF_FIELDS[i].length <= MNF_INFO_SIZE
  {
  }

  // ---------------------------------------------------------------------------
  // The cache and its updates as values

  /** One mnf_flash_write call: the field and the buffer it copies from. */
  datatype FieldWrite = FieldWrite(field: MnfField, buf: string)

  predicate Fits(w: FieldWrite)
  {
    w.field.offset + w.field.length <= MNF_INFO_SIZE && w.field.length <= |w.buf|
  }

  /** The cache after one write: field->length bytes of buf at field->offset. */
  function Patched(cache: seq<char>, w: FieldWrite): (r: seq<char>)
    requires |cache| == MNF_INFO_SIZE && Fits(w)
    ensures |r| == MNF_INFO_SIZE
  {
    Splice(cache, w.field.offset, w.buf[..w.field.length])
  }

  /** The cache after a series of writes, in order. */
  function ApplyWrites(cache: seq<char>, ws: seq<FieldWrite>): (r: seq<char>)
    requires |cache| == MNF_INFO_SIZE && forall i :: 0 <= i < |ws| ==> Fits(ws[i])
    ensures |r| == MNF_INFO_SIZE
  {
    if |ws| == 0 then cache else Patched(ApplyWrites(cache, ws[..|ws| - 1]), ws[|ws| - 1])
  }

  /** Byte k lies in the range of one of the writes. */
  predicate Covered(ws: seq<FieldWrite>, k: int)
  {
    exists i :: 0 <= i < |ws| && ws[i].field.offset <= k < ws[i].field.offset + ws[i].field.length
  }

  /** A series of writes changes only bytes inside their ranges. */
  lemma {:induction false} ApplyWritesKeepsUncovered(cache: seq<char>, ws: seq<FieldWrite>, k: int)
    requires |cache| == MNF_INFO_SIZE && forall i :: 0 <= i < |ws| ==> Fits(ws[i])
    requires 0 <= k < MNF_INFO_SIZE && !Covered(ws, k)
    ensures ApplyWrites(cache, ws)[k] == cache[k]
  {
    if |ws| > 0 {
      var init := ws[..|ws| - 1];
      assert forall i :: 0 <= i < |init| ==> init[i] == ws[i];
      ApplyWritesKeepsUncovered(cache, init, k);
    }
  }

  /** Writing one table field and then another leaves the first one's bytes
      as written: the table's ranges do not overlap. */
  lemma OtherFieldWriteKeeps(cache: seq<char>, i: nat, j: nat, x: string, y: string)
    requires |cache| == MNF_INFO_SIZE && i < FIELD_COUNT && j < FIELD_COUNT && i != j
    requires MNF_FIELDS[i].length <= |x| && MNF_FIELDS[j].length <= |y|
    ensures var f := MNF_FIELDS[i];
      var after := Patched(Patched(cache, FieldWrite(f, x)), FieldWrite(MNF_FIELDS[j], y));
      after[f.offset..f.offset + f.length] == x[..f.length]
  {
    FieldsDisjoint();
    FieldsFitCache();
    var f := MNF_FIELDS[i];
    var g := MNF_FIELDS[j];
    assert Disjoint(f, g) by {
      if i < j { } else { assert Disjoint(g, f); }
    }
    var first := Patched(cache, FieldWrite(f, x));
    var after := Patched(first, FieldWrite(g, y));
    assert forall k :: f.offset <= k < f.offset + f.length ==> after[k] == first[k];
    assert first[f.offset..f.offset + f.length] == x[..f.length];
  }

  // ---------------------------------------------------------------------------
  // Finalize as a value

  /** The partition and result code after mnf_flash_write_finalize with the
      partition check made before the partition is used: -ENODEV without a
      partition; the erase result when the erase fails (nothing written);
      otherwise the partition is erased whole and the cache written at
      offset 0, or left erased when that write fails. */
  function Finalized(config: Option<ConfigPartition>, cache: seq<char>): (Option<ConfigPartition>, int)
    requires |cache| == MNF_INFO_SIZE
  {
    if config.None? then (None, -ENODEV)
    else
      var p := config.value;
      if !p.eraseOk then (config, -EIO)
      else
        var erased := p.(data := seq(|p.data|, _ => ERASED));
        if MNF_INFO_SIZE > |p.data| then (Some(erased), -EINVAL)
        else if !p.writeOk then (Some(erased), -EIO)
        else (Some(p.(data := cache + erased.data[MNF_INFO_SIZE..])), 0)
  }

  /** What mnf_flash_write_finalize as written does: it reads mtd->size
      into the erase request before it checks mtd, so without the partition
      it dereferences a NULL pointer. */
  datatype FinalizeOutcome = NullDereference | Finished(config: Option<ConfigPartition>, ret: int)

  function FinalizeAsWritten(config: Option<ConfigPartition>, cache: seq<char>): FinalizeOutcome
    requires |cache| == MNF_INFO_SIZE
  {
    if config.None? then NullDereference
    else var f := Finalized(config, cache); Finished(f.0, f.1)
  }

  /** The code as written faults exactly where the corrected version
      returns -ENODEV, and agrees with it when the partition exists. */
  lemma FinalizeAsWrittenFaults(config: Option<ConfigPartition>, cache: seq<char>)
    requires |cache| == MNF_INFO_SIZE
    ensures FinalizeAsWritten(config, cache) == NullDereference <==> config.None?
    ensures config.None? ==> Finalized(config, cache) == (None, -ENODEV)
    ensures config.Some? ==>
      FinalizeAsWritten(config, cache) == Finished(Finalized(config, cache).0, Finalized(config, cache).1)
  {
  }

  /** After a successful update the first 64 KiB of the partition are the
      original contents with exactly the written field ranges replaced, and
      the rest of the partition is erased. */
  lemma {:induction false} InitWritesFinalize(p: ConfigPartition, ws: seq<FieldWrite>)
    requires p.readOk && p.eraseOk && p.writeOk && |p.data| >= MNF_INFO_SIZE
    requires forall i :: 0 <= i < |ws| ==> Fits(ws[i])
    ensures var cache := ApplyWrites(p.data[..MNF_INFO_SIZE], ws);
      var f := Finalized(Some(p), cache);
      f.1 == 0 && f.0.Some? && |f.0.value.data| == |p.data| &&
      (forall k :: 0 <= k < MNF_INFO_SIZE && !Covered(ws, k) ==> f.0.value.data[k] == p.data[k]) &&
      (forall k :: MNF_INFO_SIZE <= k < |p.data| ==> f.0.value.data[k] == ERASED) &&
      f.0.value.data[..MNF_INFO_SIZE] == cache
  {
    var cache := ApplyWrites(p.data[..MNF_INFO_SIZE], ws);
    var f := Finalized(Some(p), cache);
    forall k | 0 <= k < MNF_INFO_SIZE && !Covered(ws, k)
      ensures f.0.value.data[k] == p.data[k]
    {
      ApplyWritesKeepsUncovered(p.data[..MNF_INFO_SIZE], ws, k);
    }
  }

  // ---------------------------------------------------------------------------
  // The store

  /** The static mnf_cache buffer together with the partition it caches. */
  class MnfStore {
    const cache: array<char>
    var config: Option<ConfigPartition>

    /** Program start: mnf_cache is a zeroed static array. */
    constructor(config: Option<ConfigPartition>)
      ensures fresh(cache) && cache.Length == MNF_INFO_SIZE && this.config == config
      ensures forall i :: 0 <= i < MNF_INFO_SIZE ==> cache[i] == '\0'
    {
      this.config := config;
      cache := new char[MNF_INFO_SIZE](_ => '\0');
    }

    /** mnf_flash_read: field->length bytes at field->offset straight from
        the partition, or -ENODEV when it is missing. */
    method Read(field: MnfField, result: array<char>) returns (r: int)
      requires field.length <= result.Length
      modifies result
      ensures config.None? ==> r == -ENODEV
      ensures config.Some? ==> r == ReadCode(config.value, field.offset, field.length)
      ensures r == 0 ==> config.Some? && result[..field.length] == config.value.data[field.offset..field.offset + field.length]
      ensures r != 0 ==> result[..] == old(result[..])
      ensures result[field.length..] == old(result[field.length..])
    {
      if config.None? {
        return -ENODEV;
      }
      var p := config.value;
      r := ReadCode(p, field.offset, field.length);
      if r == 0 {
        forall i | 0 <= i < field.length {
          result[i] := p.data[field.offset + i];
        }
      }
    }

    /** mnf_flash_write_init: load the first MNF_INFO_SIZE bytes of the
        partition into the cache, or -ENODEV when it is missing. */
    method WriteInit() returns (r: int)
      requires cache.Length == MNF_INFO_SIZE
      modifies cache
      ensures config.None? ==> r == -ENODEV
      ensures config.Some? ==> r == ReadCode(config.value, 0, MNF_INFO_SIZE)
      ensures r == 0 ==> config.Some? && cache[..] == config.value.data[..MNF_INFO_SIZE]
      ensures r != 0 ==> cache[..] == old(cache[..])
    {
      if config.None? {
        return -ENODEV;
      }
      var p := config.value;
      r := ReadCode(p, 0, MNF_INFO_SIZE);
      if r == 0 {
        forall i | 0 <= i < MNF_INFO_SIZE {
          cache[i] := p.data[i];
        }
      }
    }

    /** mnf_flash_write: copy field->length bytes of buf into the cache at
        field->offset; always 0. */
    method Write(field: MnfField, buf: string) returns (r: int)
      requires cache.Length == MNF_INFO_SIZE && Fits(FieldWrite(field, buf))
      modifies cache
      ensures cache[..] == Patched(old(cache[..]), FieldWrite(field, buf))
      ensures r == 0
    {
      forall i | 0 <= i < field.length {
        cache[field.offset + i] := buf[i];
      }
      assert cache[..] == Splice(old(cache[..]), field.offset, buf[..field.length]);
      return 0;
    }

    /** mnf_flash_write_finalize, with the partition checked before it is
        used (see FinalizeAsWritten for the code as written). */
    method WriteFinalize() returns (r: int)
      requires cache.Length == MNF_INFO_SIZE
      modifies this
      ensures (config, r) == Finalized(old(config), cache[..])
    {
      if config.None? {
        return -ENODEV;
      }
      var p := config.value;
      if !p.eraseOk {
        return -EIO;
      }
      p := p.(data := seq(|p.data|, _ => ERASED));
      config := Some(p);
      if MNF_INFO_SIZE > |p.data| {
        return -EINVAL;
      }
      if !p.writeOk {
        return -EIO;
      }
      config := Some(p.(data := cache[..] + p.data[MNF_INFO_SIZE..]));
      return 0;
    }
  }
}
