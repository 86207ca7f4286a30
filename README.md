# Fail-safe boot of the RutOS SDK, in Dafny

This project models the fail-safe boot (FSB) machinery of the Teltonika
RutOS SDK for the mt7621 routers, and proves properties about the model. The
device has two NAND firmware slots (rutos-a, rutos-b) and a recovery ramdisk.
A 16-byte CRC-protected boot record says which slot to boot. It holds, per
slot:

- a priority;
- a count of tries left;
- a success flag;
- a force flag.

The record is appended as a log to each of two NOR partitions,
"bootconfig-a" (primary) and "bootconfig-b" (secondary).

The model covers:

- **The record.** Its packed byte layout, CRC, defaults and slot names.
- **The record store.**
  - Reading finds the last valid record of a partition.
  - Writing appends after it, or erases the partition and restarts at index 0 when there is no room.
  - Loading falls back from the primary to the secondary to the default.
  - Saving writes the secondary first.
  - The context keeps the working record and the active one.
- **Slot selection.** The comparator, the best bootable slot, the fallback to the last chosen slot, and marking a boot attempt.
- **The update transaction.** It demotes the target slot, persists, runs the formatter, and only on success raises the target to priority 9.
- **The kernel control surface.** The procfs files that edit the working record, report the active one and commit it.
- **The boot loader commands.** The fail-safe boot sequence, the NAND slot check, the MultiDTB description rule and configuration search, and the command return codes.
- **The mtd-utils helpers used by ubiformat.** MIN/MAX, round_up/round_down and errmsg from mtdutils/common.h. From ubiformat.c: the pattern check, trailing-0xFF trimming, the consecutive-bad-block counter, the erase-counter header rewrite, the erase-counter choice and policy, and the argument and size checks.
- **The manufacturing-information store.** The field table and the restorers of mnf_fields.c. The read, and the cached write / finalize sequence, of mnf_flash.c.

Modules and files:

| module | file |
|---|---|
| `Bytes` and `Options` | `bytes.dfy` |
| `FsbRecord` | `fsb_record.dfy` |
| `FsbFlash` | `fsb_flash.dfy` |
| `FsbStore` | `fsb_store.dfy` |
| `SlotSelector` | `slot_selector.dfy` |
| `FsUpdate` | `fsupdate.dfy` |
| `ControlSurface` | `control_surface.dfy` |
| `TltBoot` | `tltboot.dfy` |
| `Common` | `common.dfy` |
| `UbiFormat` | `ubiformat.dfy` |
| `MnfFields` | `mnf_fields.dfy` |
| `MnfFlash` | `mnf_flash.dfy` |

Things outside the core become parameters:

- The CRC-32 is an uninterpreted function of its seed and bytes.
- Each flash partition is a value: its records, whether its device exists, and whether reads, erases and writes on it succeed. Each of the three can fail on its own.
- The config partition of the manufacturing store carries flags for whether reads, erases and writes succeed.
- kstrtoul is a parser argument.
- rand() is a number argument.
- The formatter's result is an argument.
- The UBI scan's counts are arguments.
- Build-time configuration is an argument: the RUTM model list and CONFIG_DEVICE_MODEL / CONFIG_DEVICE_MODEL_MNF_DEFAULT.

Where the code updates state in place, the model does too:

- the flash partitions and the FSB context are classes;
- the manufacturing cache, the UBI header and the restorers' output buffers are arrays;
- the static bad-block counter is a class.

Each such method is tied by its `ensures` to a function on values. The properties are proved about those functions.

## Model

| member | source | states |
|---|---|---|
| FsbRecord.SlotRoundTrip | package/boot/uboot-mt7621/src/include/tlt/fsb.h:38-60 | decoding the two packed bytes of a slot descriptor gives the descriptor back |
| FsbRecord.SlotBytesRoundTrip | package/boot/uboot-mt7621/src/include/tlt/fsb.h:38-60 | every 2-byte pattern is the encoding of the descriptor it decodes to (no padding bits) |
| FsbRecord.ParseSerialize | package/boot/uboot-mt7621/src/include/tlt/fsb.h:71-88 | the 16-byte record layout round-trips every record |
| FsbRecord.SerializeParse | package/boot/uboot-mt7621/src/include/tlt/fsb.h:71-88 | every 16-byte block is the serialization of the record it parses to |
| FsbRecord.SerializeInjective | package/teltonika/fsb/src/fsb.c:218 | records with equal bytes are equal, so the byte compare of context_save is record equality |
| FsbRecord.CrcCalcIgnoresCrcField | package/boot/uboot-mt7621/src/include/tlt/fsb.h:158-161 | the CRC covers only the bytes before the crc32 field |
| FsbRecord.CrcUpdate | package/boot/uboot-mt7621/src/include/tlt/fsb.h:166-169 | only crc32 changes, and afterwards it equals the recomputed CRC |
| FsbRecord.ValidBlockIffValidates | package/teltonika/fsb/src/fsb.c:15-36 | the byte-level validity check (magic and CRC) accepts a serialized record exactly when the record validates |
| FsbRecord.ParsedValidatesIffValidBlock | package/teltonika/fsb/src/fsb.c:62-100 | a block read from flash validates exactly when its parsed record does |
| FsbRecord.HeaderByteFlipInvalidates | package/teltonika/fsb/src/fsb.c:15-36 | changing any byte of the magic or of the stored CRC of a valid record makes it invalid |
| FsbRecord.ErasedNeverValid | package/teltonika/fsb/src/fsb.c:44-60 | an erased (all-0xFF) slot never passes as a valid record |
| FsbRecord.Stamped | package/teltonika/fsb/src/fsb.c:208-216 | stamping the magic and CRC keeps version, chosen and slots, and the result validates |
| FsbRecord.StampedIdempotent | package/teltonika/fsb/src/fsb.c:208-216 | stamping an already stamped record changes nothing |
| FsbRecord.DefaultDoesNotValidate | package/boot/uboot-mt7621/src/include/tlt/fsb.h:107-133 | the default record has version 1 and chosen rutos-a, and does not validate until stamped (its magic is 0) |
| FsbRecord.SlotStr | package/boot/uboot-mt7621/src/include/tlt/fsb.h:90-102 | exactly the three slot indices have a name other than "<invalid>" |
| FsbRecord.SlotStrInjective | package/boot/uboot-mt7621/src/include/tlt/fsb.h:90-102 | the three slot names are distinct |
| FsbFlash.Flash.Read | package/teltonika/fsb/src/fsb_flash.c:35-54 | 1 for a missing device, an error when reads fail, else the first min(out_size, size/16) records |
| FsbFlash.Flash.Write | package/teltonika/fsb/src/fsb_flash.c:56-75 | writes one record at the index when the device is there, writes work and the index is in range, else fails and changes nothing; the other partition is untouched |
| FsbFlash.Flash.Erase | package/teltonika/fsb/src/fsb_flash.c:77-96 | succeeds exactly when the device is there and erases work; then the whole partition reads as erased records; on failure nothing changes |
| FsbStore.View | package/teltonika/fsb/src/fsb.c:69-77 | the records a scan sees are the first min(size, FSB_CONFIG_ARRAY_SIZE_MAX) of the partition |
| FsbStore.LastValid | package/teltonika/fsb/src/fsb.c:15-36 | the index returned is a valid record and no later record is valid, or -1 when none is |
| FsbStore.LastValidUnique | package/teltonika/fsb/src/fsb.c:15-36 | those conditions determine the index uniquely |
| FsbStore.FirstFree | package/teltonika/fsb/src/fsb.c:44-60 | the first erased record at or after min_idx, or -1 when there is none (or min_idx is negative) |
| FsbStore.FindValid | package/teltonika/fsb/src/fsb.c:15-36 | the downward scan returns the last valid record's index |
| FsbStore.FindFree | package/teltonika/fsb/src/fsb.c:44-60 | the upward scan returns the first free slot from min_idx |
| FsbStore.AppendThenFindValid | package/teltonika/fsb/src/fsb.c:102-157 | after writing a valid record, the next scan finds exactly that record where it was written, in both the append and the erase-and-restart branch |
| FsbStore.AppendKeepsHistory | package/teltonika/fsb/src/fsb.c:102-157 | appending keeps all earlier records; erasing happens only when no slot after the last valid record is free |
| FsbStore.Stored | package/teltonika/fsb/src/fsb.c:62-100 | a partition yields a record exactly when it is readable and holds a valid one, and that record validates |
| FsbStore.PartitionRead | package/teltonika/fsb/src/fsb.c:62-100 | the read returns 0 with the last valid record, or nonzero with none |
| FsbStore.AfterWrite | package/teltonika/fsb/src/fsb.c:102-157 | a successful write leaves the appended record; a failed write at index 0 after a successful erase leaves the partition erased; any other failure leaves it unchanged |
| FsbStore.PartitionWrite | package/teltonika/fsb/src/fsb.c:102-157 | succeeds exactly when the read and the write succeed and, with no free slot, the erase does too; the partition is then as AfterWrite says, including erased after a failed write at index 0; the other partition is untouched |
| FsbStore.ErasedHoldsNoRecord | package/teltonika/fsb/src/fsb.c:62-100 | a read of an erased partition finds no record |
| FsbStore.Loaded | package/teltonika/fsb/src/fsb.c:159-173 | the loaded record validates or is the default, and is the primary's whenever the primary has one |
| FsbStore.ConfigLoad | package/teltonika/fsb/src/fsb.c:159-173 | load tries primary, then secondary, then the default |
| FsbStore.SavedPartitions | package/teltonika/fsb/src/fsb.c:175-194 | the secondary is written first (possibly left erased by a failed write), and the primary is left alone if that write fails |
| FsbStore.ConfigSave | package/teltonika/fsb/src/fsb.c:175-194 | returns 0 exactly when both partition writes succeed, with the partitions as SavedPartitions says |
| FsbStore.SaveThenLoad | package/teltonika/fsb/src/fsb.c:159-194 | a successful save of a valid record is what the next load returns |
| FsbStore.FailedSaveAfterErase | package/teltonika/fsb/src/fsb.c:141-194 | when the secondary is erased by a failed write, the primary is untouched and load returns its record, or the default when it has none; when the primary is erased by a failed write after the secondary succeeded, load returns the new record from the secondary |
| FsbStore.InterruptedSaveLoadsPrimary | package/teltonika/fsb/src/fsb.c:159-194 | after only the secondary was written, load still returns the old primary record when there is one |
| FsbStore.ContextSaved | package/teltonika/fsb/src/fsb.c:217-222 | nothing is written when the stamped working record equals the active one |
| FsbStore.Context.Revert | package/boot/uboot-mt7621/src/include/tlt/fsb.h:197-200 | the working record becomes the active one |
| FsbStore.Context.Load | package/teltonika/fsb/src/fsb.c:196-201 | the active record is the loaded one, and the working record equals it |
| FsbStore.Context.Save | package/teltonika/fsb/src/fsb.c:208-232 | the working record is stamped; the write is skipped if it equals the active one; otherwise it is saved and adopted as active even if the save failed; 0 exactly when skipped or both partition writes succeed |
| FsbStore.SaveKeepsSync | package/teltonika/fsb/src/fsb.c:208-232 | when the active record mirrors flash, a save that succeeds keeps it so |
| FsbStore.FailedSaveThenRetrySkips | package/teltonika/fsb/src/fsb.c:208-232 | after a save whose secondary write failed (erased or not) the primary is untouched, the active record no longer mirrors flash, and retrying the same save skips the write and reports success |
| SlotSelector.RankInjective | package/teltonika/fsb/src/fsb.c:234-253 | two descriptors have the same rank exactly when force, priority, successful_boot and tries_remaining agree |
| SlotSelector.Compare | package/teltonika/fsb/src/fsb.c:234-253 | negative exactly when a ranks higher, positive exactly when b does |
| SlotSelector.CompareAntisymmetric | package/teltonika/fsb/src/fsb.c:234-253 | compare(a,b) = -compare(b,a), and 0 exactly for equal ranked fields |
| SlotSelector.CompareTransitive | package/teltonika/fsb/src/fsb.c:234-253 | "at least as good" is transitive |
| SlotSelector.ForceOutranksPriority | package/teltonika/fsb/src/fsb.c:234-253 | a forced slot beats an unforced one whatever the priorities |
| SlotSelector.BestAmong | package/teltonika/fsb/src/fsb.c:255-276 | the candidate is bootable, ranks highest among the bootable slots seen, and beats every earlier one; -1 exactly when none is bootable |
| SlotSelector.GetBestBootableSlot | package/teltonika/fsb/src/fsb.c:255-276 | the loop computes BestSlot |
| SlotSelector.BestSlotIsBest | package/teltonika/fsb/src/fsb.c:255-276 | when any slot is bootable the best one is bootable, ranks highest, and is the lowest index among equals |
| SlotSelector.PickSlot | package/teltonika/fsb/src/fsb.c:278-291 | a bootable slot when there is one, else chosen |
| SlotSelector.MarkSlot | package/teltonika/fsb/src/fsb.c:293-303 | chosen becomes the slot, whose force is cleared and tries decremented unless 0 or 15; nothing else changes |
| SlotSelector.MarkedTimesCountsDown | package/teltonika/fsb/src/fsb.c:293-303 | n marks leave max(t-n, 0) tries (15 stays 15), the priority, and the other slots unchanged |
| SlotSelector.RepeatedFailuresAbandonSlot | package/teltonika/fsb/src/fsb.c:255-303 | after as many attempts as it had tries, a slot with the countdown enabled is unbootable and no longer selected |
| SlotSelector.DefaultPicksNandA | package/boot/uboot-mt7621/src/include/tlt/fsb.h:107-133 | with the default record, rutos-a is picked |
| SlotSelector.ExhaustedFallsBackToChosen | package/teltonika/fsb/src/fsb.c:278-291 | with both NAND slots out of tries and recovery unbootable, pick returns chosen |
| FsUpdate.GetPrimary | package/boot/uboot-mt7621/src/lib/tlt/fsupdate.c:5-9 | the target is a NAND slot, never the NAND slot pick would boot; rutos-a exactly when pick would boot rutos-b |
| FsUpdate.GetSecondary | package/boot/uboot-mt7621/src/lib/tlt/fsupdate.c:11-14 | the other NAND slot |
| FsUpdate.BeganUpdate | package/boot/uboot-mt7621/src/lib/tlt/fsupdate.c:16-36 | no slot is forced; other slots are capped (recovery to 1, the sibling to 8, from 9 and up); the target gets priority 0, success 0, one try |
| FsUpdate.EndedUpdate | package/boot/uboot-mt7621/src/lib/tlt/fsupdate.c:38-43 | the target gets priority 9 and nothing else changes |
| FsUpdate.BeginMakesTargetUnselectable | package/boot/uboot-mt7621/src/lib/tlt/fsupdate.c:16-36 | after begin the target is unbootable and not the best slot |
| FsUpdate.FailedUpdatePicksSibling | package/boot/uboot-mt7621/src/lib/tlt/fsupdate.c:45-66 | if the formatter fails, the target stays at priority 0 with one try, and the sibling is picked when it is bootable and recovery is not |
| FsUpdate.CompletedUpdatePicksTarget | package/boot/uboot-mt7621/src/lib/tlt/fsupdate.c:45-66 | after a completed update the target is picked; one failed boot of it hands selection to another slot |
| FsUpdate.MarkUpdateBegin | package/boot/uboot-mt7621/src/lib/tlt/fsupdate.c:16-36 | the working record becomes the stamped BeganUpdate and is saved |
| FsUpdate.MarkUpdateEnd | package/boot/uboot-mt7621/src/lib/tlt/fsupdate.c:38-43 | the working record becomes the stamped EndedUpdate and is saved |
| FsUpdate.FsbUpdate | package/boot/uboot-mt7621/src/lib/tlt/fsupdate.c:45-66 | returns the formatter's result; flash holds the begin save, plus the end save only on success |
| FsUpdate.UpdateOutcomeOnFlash | package/boot/uboot-mt7621/src/lib/tlt/fsupdate.c:45-66 | with writable partitions, a failed update leaves the target demoted on flash, and a successful one makes it the next pick |
| ControlSurface.CString | package/teltonika/fsb/src/fsb_main.c:50-52 | the string kstrtoul sees is a prefix of the buffer, holds no NUL, and ends at the first NUL when there is one |
| ControlSurface.ReadValue | package/teltonika/fsb/src/fsb_main.c:33-54 | -EFAULT exactly when the first min(count, 63) bytes cannot be copied; otherwise the parse of the NUL-terminated copy |
| ControlSurface.InputTruncated | package/teltonika/fsb/src/fsb_main.c:33-54 | bytes past the 63rd of a write are never looked at |
| ControlSurface.FieldOf | package/teltonika/fsb/src/fsb_main.c:19-26 | the value shown fits the field's bit width |
| ControlSurface.WithField | package/teltonika/fsb/src/fsb_main.c:58-61 | sets exactly one field of the descriptor |
| ControlSurface.WriteResult | package/teltonika/fsb/src/fsb_main.c:33-64 | the result is the byte count exactly when the value parses and fits the field; otherwise -EFAULT or -EINVAL |
| ControlSurface.SlotFieldWrite | package/teltonika/fsb/src/fsb_main.c:88-119 | a write edits only that field of that slot of the working record, only on success; the active record is untouched |
| ControlSurface.ChosenShow | package/teltonika/fsb/src/fsb_main.c:240-247 | reports the name of the active record's chosen slot |
| ControlSurface.CommitWrite | package/teltonika/fsb/src/fsb_main.c:261-294 | only the value 1 saves; other input changes nothing; a failed save reports -EIO |
| ControlSurface.ModuleInit | package/teltonika/fsb/src/fsb_main.c:380-404 | the context starts with the loaded record as both active and working record |
| TltBoot.DtbDescription | package/boot/uboot-mt7621/src/cmd/tlt/mt7621/tltboot.c:19-30 | "RUTMxx..." gives "xx"; another name of 6 or more characters gives its first 6; otherwise "08" |
| TltBoot.MatchFrom | package/boot/uboot-mt7621/src/cmd/tlt/mt7621/tltboot.c:32-48 | a match is the first configuration whose description matches ignoring case, with all earlier ones present and not matching |
| TltBoot.ConfIndex | package/boot/uboot-mt7621/src/cmd/tlt/mt7621/tltboot.c:32-54 | the booted configuration number lies in 1..99 |
| TltBoot.SelectDtbConfig | package/boot/uboot-mt7621/src/cmd/tlt/mt7621/tltboot.c:32-51 | the loop settles on ConfIndex |
| TltBoot.FirstMatchIsBooted | package/boot/uboot-mt7621/src/cmd/tlt/mt7621/tltboot.c:32-51 | the first matching configuration is the one booted |
| TltBoot.BootNandMtd | package/boot/uboot-mt7621/src/cmd/tlt/mt7621/tltboot.c:84-89 | only slots 0 and 1 get a partition, rutos-a and rutos-b |
| TltBoot.NandMtdIsSlotName | package/boot/uboot-mt7621/src/cmd/tlt/mt7621/tltboot.c:89 | the partition booted carries the slot's name |
| TltBoot.Dispatch | package/boot/uboot-mt7621/src/cmd/tlt/mt7621/tltboot.c:177-188 | NAND slots boot NAND, slot 2 the recovery ramdisk, anything else nothing |
| TltBoot.SpentSlotsFallBack | package/boot/uboot-mt7621/src/cmd/tlt/mt7621/tltboot.c:170 | with every slot spent, the index picked is chosen |
| TltBoot.FailsafeIndexesPastSlots | package/boot/uboot-mt7621/src/cmd/tlt/mt7621/tltboot.c:170-174 | a valid record with chosen = 3 and no bootable slot makes the code index slot 3 |
| TltBoot.BootFailsafe | package/boot/uboot-mt7621/src/cmd/tlt/mt7621/tltboot.c:162-192 | returns 1; dispatches the picked slot; saves the marked record when the slot is in range |
| TltBoot.BootAttemptPersisted | package/boot/uboot-mt7621/src/cmd/tlt/mt7621/tltboot.c:167-175 | with writable partitions, the attempt is on flash before booting: the slot is chosen, its force is cleared and its tries counted down |
| TltBoot.DoBootNand | package/boot/uboot-mt7621/src/cmd/tlt/mt7621/tltboot.c:113-121 | usage error unless two arguments; never success |
| TltBoot.DoBootRecovery | package/boot/uboot-mt7621/src/cmd/tlt/mt7621/tltboot.c:150-158 | usage error unless one argument; never success |
| TltBoot.DoBootFailsafe | package/boot/uboot-mt7621/src/cmd/tlt/mt7621/tltboot.c:194-202 | usage error and no flash change unless one argument; otherwise failure after the fail-safe sequence |
| Common.Min | package/boot/uboot-mt7621/src/include/mtdutils/common.h:35 | at most both arguments and one of them |
| Common.Max | package/boot/uboot-mt7621/src/include/mtdutils/common.h:38 | at least both arguments and one of them |
| Common.RoundDownBounds | package/boot/uboot-mt7621/src/include/mtdutils/common.h:47-49 | for a power of two y: a multiple of y, at most x, less than y below x |
| Common.RoundDownIdempotent | package/boot/uboot-mt7621/src/include/mtdutils/common.h:49 | idempotent; leaves multiples of y unchanged |
| Common.RoundUpBounds | package/boot/uboot-mt7621/src/include/mtdutils/common.h:47-48 | for a power of two y and no wrap-around: a multiple of y, at least x, less than x + y |
| Common.ErrMsg | package/boot/uboot-mt7621/src/include/mtdutils/common.h:72-75 | evaluates to -1 |
| Common.SysErrMsg | package/boot/uboot-mt7621/src/include/mtdutils/common.h:78-83 | evaluates to -1 |
| UbiFormat.CheckPattern | package/boot/uboot-mt7621/src/lib/mtdutils/ubiformat.c:151-159 | 0 exactly when the first size bytes all equal the pattern, else -1 |
| UbiFormat.DropFfs | package/boot/uboot-mt7621/src/lib/mtdutils/ubiformat.c:95-108 | a multiple of writesize, covering every non-0xFF byte, less than one unit beyond; only 0xFF bytes are dropped; 0 exactly for an all-0xFF block |
| UbiFormat.DropFfsRounding | package/boot/uboot-mt7621/src/lib/mtdutils/ubiformat.c:104-106 | (n + w - 1) / w * w is the least multiple of w that is at least n |
| UbiFormat.RunAfterCountsTrailingRun | package/boot/uboot-mt7621/src/lib/mtdutils/ubiformat.c:114-127 | the static counter holds the length of the trailing run of consecutive bad eraseblocks, and the last one |
| UbiFormat.RunLimitIffFourInARow | package/boot/uboot-mt7621/src/lib/mtdutils/ubiformat.c:129-134 | the run reaches the limit exactly when the last four bad eraseblocks are consecutive |
| UbiFormat.BadBlockCounter.Check | package/boot/uboot-mt7621/src/lib/mtdutils/ubiformat.c:114-137 | updates the counter by one step; -1 exactly when the run has reached 4 |
| UbiFormat.ChangedEchValidates | package/boot/uboot-mt7621/src/lib/mtdutils/ubiformat.c:87-90 | the rewritten header validates, carries the new image_seq and ec, and keeps every other byte |
| UbiFormat.ChangeEch | package/boot/uboot-mt7621/src/lib/mtdutils/ubiformat.c:72-93 | 0 exactly when magic and CRC are good, and the header is then rewritten; otherwise -1 and the header is unchanged |
| UbiFormat.SelectEc | package/boot/uboot-mt7621/src/lib/mtdutils/ubiformat.c:311-316 | the forced value, else the block's counter plus one when valid, else the mean |
| UbiFormat.PolicyThresholds | package/boot/uboot-mt7621/src/lib/mtdutils/ubiformat.c:664-690 | fewer than 50% of good blocks with a valid counter forces 0; fewer than 95% forces the mean; otherwise nothing |
| UbiFormat.PolicyThenSelect | package/boot/uboot-mt7621/src/lib/mtdutils/ubiformat.c:470-475 | the counter each good eraseblock receives once the policy has run |
| UbiFormat.UbiformatArgs.ApplyEcPolicy | package/boot/uboot-mt7621/src/lib/mtdutils/ubiformat.c:664-690 | override_ec and ec become the policy's outcome; the other arguments are untouched |
| UbiFormat.FlashImageSizeCheck | package/boot/uboot-mt7621/src/lib/mtdutils/ubiformat.c:248-260 | 0 exactly when the image is whole eraseblocks and fits in the good ones, else -1 |
| UbiFormat.NegativeVidHdrOffsAccepted | package/boot/uboot-mt7621/src/lib/mtdutils/ubiformat.c:602-611 | the check as written accepts the offset -8 |
| UbiFormat.VidHdrOffsCorrection | package/boot/uboot-mt7621/src/lib/mtdutils/ubiformat.c:602-611 | the corrected check is the check as written restricted to non-negative offsets, and it leaves room for the VID header |
| UbiFormat.RoundedImageLen | package/boot/uboot-mt7621/src/lib/mtdutils/ubiformat.c:596-599 | an aligned length is kept; for a power-of-two eraseblock a misaligned one is rounded down to a multiple, by less than one eraseblock |
| UbiFormat.UbiformatChecks | package/boot/uboot-mt7621/src/lib/mtdutils/ubiformat.c:584-645 | with the corrected VID header offset check: formatting goes ahead exactly when the device exists, has a power-of-two I/O size, a valid VID offset (a nonzero one then positive and leaving room for the header), is writeable, scans, and has at least 2 good blocks; the image length is then rounded |
| MnfFields.TableEndsWithSentinel | package/boot/uboot-mt7621/src/board/mediatek/mt7621/mnf_fields.c:71-87 | 13 real entries, each with a restorer and a nonempty range, then the '\0' sentinel |
| MnfFields.FieldsDisjoint | package/boot/uboot-mt7621/src/board/mediatek/mt7621/mnf_fields.c:73-85 | the fields' byte ranges are pairwise disjoint, and short and long names are unique |
| MnfFields.HasPrefixIffCharsMatch | package/boot/uboot-mt7621/src/board/mediatek/mt7621/mnf_fields.c:31 | strncmp against a literal prefix is prefix equality |
| MnfFields.ValidateNum | package/boot/uboot-mt7621/src/board/mediatek/mt7621/mnf_fields.c:9-16 | 0 exactly when the first field->length characters are digits, else 1 |
| MnfFields.RestoreNum | package/boot/uboot-mt7621/src/board/mediatek/mt7621/mnf_fields.c:55-61 | the buffer holds length '0's and a NUL; the verdict is validate_num's |
| MnfFields.RestoredNumValidates | package/boot/uboot-mt7621/src/board/mediatek/mt7621/mnf_fields.c:55-61 | the restored value passes validate_num |
| MnfFields.HexRoundTrip | package/boot/uboot-mt7621/src/board/mediatek/mt7621/mnf_fields.c:25 | the %06x digits denote the number printed |
| MnfFields.UpperKeepsValue | package/boot/uboot-mt7621/src/board/mediatek/mt7621/mnf_fields.c:27-29 | upper-casing hex digits keeps their value |
| MnfFields.RestoreMac | package/boot/uboot-mt7621/src/board/mediatek/mt7621/mnf_fields.c:19-32 | the buffer holds the upper-cased vendor prefix and 24-bit identifier; 0 exactly when the stored value starts with the vendor prefix |
| MnfFields.RestoredMacAccepted | package/boot/uboot-mt7621/src/board/mediatek/mt7621/mnf_fields.c:19-32 | a restored MAC has the vendor prefix, and its digits denote the identifier drawn |
| MnfFields.RestoreName | package/boot/uboot-mt7621/src/board/mediatek/mt7621/mnf_fields.c:35-52 | the buffer holds the default model name; 0 exactly when the stored name starts with one of the build's good models |
| MnfFields.GoodModelAccepted | package/boot/uboot-mt7621/src/board/mediatek/mt7621/mnf_fields.c:35-52 | a RUTM build keeps exactly the names whose first six characters are a listed model; another build keeps exactly those beginning with CONFIG_DEVICE_MODEL |
| MnfFields.Clear | package/boot/uboot-mt7621/src/board/mediatek/mt7621/mnf_fields.c:64-69 | the buffer holds the empty string; always 0 |
| MnfFlash.ReadCode | package/boot/uboot-mt7621/src/board/mediatek/mt7621/mnf_flash.c:31 | 0 exactly when the range is inside the partition and reads work |
| MnfFlash.FieldsFitCache | package/boot/uboot-mt7621/src/board/mediatek/mt7621/mnf_flash.c:6 | every field lies inside the 64 KiB cache |
| MnfFlash.ApplyWritesKeepsUncovered | package/boot/uboot-mt7621/src/board/mediatek/mt7621/mnf_flash.c:45-49 | a series of field writes changes only bytes inside their ranges |
| MnfFlash.OtherFieldWriteKeeps | package/boot/uboot-mt7621/src/board/mediatek/mt7621/mnf_flash.c:47 | writing another table field keeps a field's bytes as written |
| MnfFlash.FinalizeAsWrittenFaults | package/boot/uboot-mt7621/src/board/mediatek/mt7621/mnf_flash.c:51-66 | the code as written faults exactly where the corrected one returns -ENODEV, and agrees with it otherwise |
| MnfFlash.InitWritesFinalize | package/boot/uboot-mt7621/src/board/mediatek/mt7621/mnf_flash.c:34-66 | a successful init/writes/finalize sequence leaves the cache in the first 64 KiB, the unwritten bytes as they were, and the rest erased |
| MnfFlash.MnfStore.Read | package/boot/uboot-mt7621/src/board/mediatek/mt7621/mnf_flash.c:23-32 | -ENODEV without a partition; on success the field's bytes; on failure the buffer is unchanged |
| MnfFlash.MnfStore.WriteInit | package/boot/uboot-mt7621/src/board/mediatek/mt7621/mnf_flash.c:34-43 | on success the cache holds the partition's first 64 KiB; on failure it is unchanged |
| MnfFlash.MnfStore.Write | package/boot/uboot-mt7621/src/board/mediatek/mt7621/mnf_flash.c:45-49 | copies the field's bytes into the cache; returns 0 |
| MnfFlash.MnfStore.WriteFinalize | package/boot/uboot-mt7621/src/board/mediatek/mt7621/mnf_flash.c:51-66 | the partition and result are those of the corrected Finalized |

## Left out

- Allocation failures (kzalloc of the scratch arrays, the context, procfs entries) are not modelled.
- NOR flash is modelled as whole-record writes. Torn writes, bit-clearing write semantics and partial mtd_read results are not. A write that fails leaves the partition as it was, and an erase that fails does too. The erase that succeeds before a failed write at index 0 is modelled.
- The kernel fsb_flash_write (package/teltonika/fsb/src/fsb_flash.c:66-70) sets MTD_WRITEABLE on the device and leaves it set on an error path. Device flags are not part of this model.
- The U-Boot fsb_flash.c (package/boot/uboot-mt7621/src/board/mediatek/mt7621/fsb_flash.c) is not modelled separately. It has the same contract as the kernel one modelled by `FsbFlash.Flash`.
- kstrtoul, rand/srand and get_timer, the CRC-32 algorithm, and the MTD and UBI layers are parameters or flags. mnf_info.c (the dispatcher that calls the restorers and the mnf_flash functions) is not part of this model.
- FsbRecord.HeaderByteFlipInvalidates covers only the magic and CRC bytes. Detection of changes to bytes 4..11 depends on the CRC-32 algorithm, which is uninterpreted here.
- The actual booting (ubi_part, ubi_volume_read, bootm, the recovery ramdisk), the bootmdtb command, and debug logging are left out. A boot routine that returns is taken to have failed, as the code does.
- The procfs show handlers are covered only by `ControlSurface.FieldOf` and `ControlSurface.ChosenShow`. Directory setup, registration and teardown are left out.
- The four per-slot write handlers are modelled by one method, `ControlSurface.SlotFieldWrite`, with the field as a parameter. The handlers differ only in the field written and its maximum.
- Concurrent access to the context from several procfs writers is not modelled.
- The UBI device loops are left out: flash_image's and format's per-eraseblock write, verify and torture, ubi_scan and ubigen. Their results enter as parameters (scan success and counts, the formatter result).
- Common.RoundDownBounds and Common.RoundUpBounds are stated for a power-of-two y only. The rounding macros are not meaningful for other y.
- UbiFormat.RoundedImageLen states "a multiple of the eraseblock size" as "the low bits are clear", not with `%`.
- The static bad-block counter (`UbiFormat.BadBlockCounter`) is not reset between runs of ubiformat. The model keeps it as one object for the program's lifetime, as the code does.
- Build configuration enters as parameters: CONFIG_DEVICE_MODEL_RUTM, CONFIG_DEVICE_MODEL and CONFIG_DEVICE_MODEL_MNF_DEFAULT.
- Where the design description and the code disagree, the model follows the code. At the start of an update, a recovery slot with priority 9 or more is demoted to priority 1, not 8 (package/boot/uboot-mt7621/src/lib/tlt/fsupdate.c:21-23).
- A save interrupted after the secondary was written leaves the old record authoritative: load prefers the primary. `FsbStore.InterruptedSaveLoadsPrimary` states this. It is not treated as a defect.

## Findings

| source | as written | input that shows it | evidently intended | confidence | as-written member | corrected member |
|---|---|---|---|---|---|---|
| package/boot/uboot-mt7621/src/cmd/tlt/mt7621/tltboot.c:170-187 | boot_failsafe reads `slots[slot].tries_remaining` and calls fsb_config_mark_slot(slot) before the switch rejects a slot outside 0..2 | a valid record with every slot spent and chosen = 3: pick_slot returns 3, one past the slot array | check the slot range before using it; save nothing for an unknown slot | low, not executed | TltBoot.FailsafeIndexesPastSlots | TltBoot.BootFailsafe |
| package/boot/uboot-mt7621/src/board/mediatek/mt7621/mnf_flash.c:53-59 | mnf_flash_write_finalize reads `mtd->size` into the erase request before checking `mtd` for NULL | no "config" partition: get_mtd_part returns NULL | return -ENODEV before using mtd | medium, not executed | MnfFlash.FinalizeAsWrittenFaults | MnfFlash.MnfStore.WriteFinalize |
| package/boot/uboot-mt7621/src/lib/mtdutils/ubiformat.c:602-611 | the int sum `vid_hdr_offs + 64` is compared with the unsigned erasesize, so it is converted to unsigned, and a negative offset that is a multiple of 8 passes | vid_hdr_offs = -8: 56 <= erasesize | reject negative offsets | low, not executed | UbiFormat.NegativeVidHdrOffsAccepted | UbiFormat.UbiformatChecks |
