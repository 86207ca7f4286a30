/** The boot commands of tltboot.c: the fail-safe boot sequence (load, pick,
    mark, save, dispatch), the NAND slot check and its MTD name, the
    MultiDTB description rule and configuration search, and the command
    return codes. Actually booting (UBI attach, volume read, bootm) is not
    part of this model: a boot routine that returns has failed. */
module TltBoot {
  import opened Options
  import opened FsbRecord
  import opened FsbFlash
  import opened FsbStore
  import opened SlotSelector

  /** U-Boot command results. */
  const CMD_RET_SUCCESS := 0
  const CMD_RET_FAILURE := 1
  const CMD_RET_USAGE := -1

  // ---------------------------------------------------------------------------
  // MultiDTB

  /** The device-tree description to look for, from the manufacturing "name"
      field (None when mnf_get_field fails): "RUTMxx..." gives "xx", any
      other name of at least 6 characters its first 6, and otherwise "08". */
  function DtbDescription(name: Option<string>): (desc: string)
    ensures name.Some? && |name.value| >= 6 && name.value[..4] == "RUTM" ==> desc == name.value[4..6]
    ensures name.Some? && |name.value| >= 6 && name.value[..4] != "RUTM" ==> desc == name.value[..6]
    ensures name.None? || |name.value| < 6 ==> desc == "08"
    ensures 2 <= |desc| <= 6 < 16
  {
    if name.Some? && |name.value| >= 6 then
      if name.value[..4] == "RUTM" then name.value[4..6] else name.value[..6]
    else "08"
  }

  /** ASCII tolower. */
  function Lower(c: char): char
  {
    if 'A' <= c <= 'Z' then (c as int + 32) as char else c
  }

  /** strcasecmp(a, b) == 0 */
  predicate SameIgnoringCase(a: string, b: string)
  {
    |a| == |b| && forall i :: 0 <= i < |a| ==> Lower(a[i]) == Lower(b[i])
  }

  /** Configurations "conf_mdtb@1" .. "conf_mdtb@99" are tried. */
  const MAX_CONF := 99

  /** The configuration the search of boot_multidtb settles on when it starts
      at "conf_mdtb@i": the first one whose description matches, the search
      stopping at the first missing node or description and after
      "conf_mdtb@99". `fitDesc(i)` is the description of "conf_mdtb@i" in the
      FIT image, or None when fit_conf_get_node or fit_get_desc fails. */
  function MatchFrom(desc: string, fitDesc: nat -> Option<string>, i: nat): (r: Option<nat>)
    decreases MAX_CONF + 1 - i
    ensures r.Some? ==> i <= r.value <= MAX_CONF && fitDesc(r.value).Some? && SameIgnoringCase(desc, fitDesc(r.value).value)
    ensures r.Some? ==> forall j :: i <= j < r.value ==> fitDesc(j).Some? && !SameIgnoringCase(desc, fitDesc(j).value)
  {
    if i > MAX_CONF || fitDesc(i).None? then None
    else if SameIgnoringCase(desc, fitDesc(i).value) then Some(i)
    else MatchFrom(desc, fitDesc, i + 1)
  }

  /** The configuration booted: the match, or "conf_mdtb@1" as fallback. */
  function ConfIndex(desc: string, fitDesc: nat -> Option<string>): (n: nat)
    ensures 1 <= n <= MAX_CONF
  {
    match MatchFrom(desc, fitDesc, 1)
    case Some(k) => k
    case None => 1
  }

  /** The configuration search of boot_multidtb; the result n names
      "conf_mdtb@n". */
  method SelectDtbConfig(desc: string, fitDesc: nat -> Option<string>) returns (n: nat)
    ensures n == ConfIndex(desc, fitDesc)
  {
    var i := 1;
    while i < MAX_CONF + 1
      invariant 1 <= i <= MAX_CONF + 1
      invariant MatchFrom(desc, fitDesc, i) == MatchFrom(desc, fitDesc, 1)
    {
      var dtbDesc := fitDesc(i);
      if dtbDesc.None? {
        break;
      }
      if SameIgnoringCase(desc, dtbDesc.value) {
        return i;
      }
      i := i + 1;
    }
    return 1;
  }

  /** A match at conf_mdtb@k is found when every configuration from i up to
      it exists and does not match, so the first match is the one booted. */
  lemma {:induction false} FirstMatchIsBooted(desc: string, fitDesc: nat -> Option<string>, i: nat, k: nat)
    requires 1 <= i <= k <= MAX_CONF && fitDesc(k).Some? && SameIgnoringCase(desc, fitDesc(k).value)
    requires forall j :: i <= j < k ==> fitDesc(j).Some? && !SameIgnoringCase(desc, fitDesc(j).value)
    ensures MatchFrom(desc, fitDesc, i) == Some(k)
    ensures i == 1 ==> ConfIndex(desc, fitDesc) == k
    decreases k - i
  {
    if i < k {
      FirstMatchIsBooted(desc, fitDesc, i + 1, k);
    }
  }

  // ---------------------------------------------------------------------------
  // Booting a slot

  /** The MTD partition boot_nand attaches, or None for a slot it rejects
      before touching UBI (it then returns 1). */
  function BootNandMtd(slot: int): (mtd: Option<string>)
    ensures mtd.Some? <==> slot == SLOT_NAND_A || slot == SLOT_NAND_B
    ensures slot == SLOT_NAND_A ==> mtd == Some("rutos-a")
    ensures slot == SLOT_NAND_B ==> mtd == Some("rutos-b")
  {
    if !(slot == 0 || slot == 1) then None
    else Some(if slot == 0 then "rutos-a" else "rutos-b")
  }

  /** boot_nand boots the partition that carries the slot's name, the same
      name the updater hands to ubiformat. */
  lemma {:induction false} NandMtdIsSlotName(slot: int)
    requires slot == SLOT_NAND_A || slot == SLOT_NAND_B
    ensures BootNandMtd(slot) == Some(SlotStr(slot))
  {
  }

  /** What boot_failsafe hands control to. */
  datatype BootTarget = Nand(slot: int) | RecoveryRamdisk | NoBoot

  /** The dispatch of boot_failsafe's switch. */
  function Dispatch(slot: int): (t: BootTarget)
    ensures t == NoBoot <==> !(0 <= slot < NUM_SLOTS)
    ensures t.Nand? ==> BootNandMtd(t.slot).Some? && t.slot == slot
    ensures t == RecoveryRamdisk <==> slot == SLOT_RECOVERY
  {
    if slot == 0 || slot == 1 then Nand(slot)
    else if slot == 2 then RecoveryRamdisk
    else NoBoot
  }

  // ---------------------------------------------------------------------------
  // Fail-safe boot

  /** The slot index boot_failsafe uses at its attempts log line and passes
      to fsb_config_mark_slot, before its switch checks the range. */
  function FailsafeIndexedSlot(active: Config): int
  {
    PickSlot(active)
  }

  /** Three descriptors with no priority and no tries left. */
  function SpentSlots(): SlotTable
  {
    [SlotInfo(0, 0, 0, 0, 0), SlotInfo(0, 0, 0, 0, 0), SlotInfo(0, 0, 0, 0, 0)]
  }

  /** With every slot spent the picked index is `chosen`, whatever it is. */
  lemma {:induction false} SpentSlotsFallBack(c: Config)
    requires c.slots == SpentSlots()
    ensures FailsafeIndexedSlot(c) == c.chosen
  {
    ExhaustedFallsBackToChosen(c);
  }

  /** A record that validates, holds no bootable slot and has chosen = 3
      makes boot_failsafe index slots[3], one past the array, and mark it,
      before the default branch of its switch rejects the slot. */
  lemma FailsafeIndexesPastSlots()
    ensures var c := Stamped(Config(0, VERSION, 3, SpentSlots(), 0));
      Validates(c) && FailsafeIndexedSlot(c) == 3 && FailsafeIndexedSlot(c) >= NUM_SLOTS
  {
    var c := Stamped(Config(0, VERSION, 3, SpentSlots(), 0));
    SpentSlotsFallBack(c);
  }

  /** The flash contents boot_failsafe leaves behind: the marked record
      saved when the picked slot is in range, nothing written otherwise. */
  function FailsafeSaved(primary: Partition, secondary: Partition): (Partition, Partition)
  {
    var c := Loaded(primary, secondary);
    var slot := PickSlot(c);
    if 0 <= slot < NUM_SLOTS then ContextSaved(c, Stamped(MarkSlot(c, slot)), primary, secondary)
    else (primary, secondary)
  }

  /** boot_failsafe, with the slot range checked before the slot is used.
      It returns 1 whenever it returns: the boot routines return only on
      failure. */
  method BootFailsafe(flash: Flash) returns (ret: int, target: BootTarget)
    modifies flash
    ensures ret == 1
    ensures target == Dispatch(PickSlot(Loaded(old(flash.primary), old(flash.secondary))))
    ensures (flash.primary, flash.secondary) == FailsafeSaved(old(flash.primary), old(flash.secondary))
  {
    var ctx := new Context();
    ctx.Load(flash);
    var slot := PickSlot(ctx.configActive);
    if !(0 <= slot < NUM_SLOTS) {
      return 1, NoBoot;
    }
    ctx.configNew := MarkSlot(ctx.configNew, slot);
    var _ := ctx.Save(flash);
    target := Dispatch(slot);
    return 1, target;
  }

  /** With both partitions writable, a boot attempt is on flash before the
      slot is booted: the next load sees the slot as chosen, its force flag
      cleared and one try fewer (unless the countdown is disabled). */
  lemma {:induction false} BootAttemptPersisted(primary: Partition, secondary: Partition)
    requires Writable(primary) && Writable(secondary)
    requires 0 <= PickSlot(Loaded(primary, secondary)) < NUM_SLOTS
    ensures var c := Loaded(primary, secondary);
      var slot := PickSlot(c);
      var after := FailsafeSaved(primary, secondary);
      Loaded(after.0, after.1) == Stamped(MarkSlot(c, slot)) &&
      Loaded(after.0, after.1).chosen == slot &&
      Loaded(after.0, after.1).slots[slot].force == 0
  {
    var c := Loaded(primary, secondary);
    SaveKeepsSync(c, MarkSlot(c, PickSlot(c)), primary, secondary);
  }

  // ---------------------------------------------------------------------------
  // Commands

  /** do_bootnand and do_bootrecovery: a usage error for the wrong argument
      count, else a failure once the boot routine has returned. */
  function DoBootNand(argc: int): (r: int)
    ensures r == CMD_RET_FAILURE <==> argc == 2
    ensures r != CMD_RET_SUCCESS
  {
    if argc != 2 then CMD_RET_USAGE else CMD_RET_FAILURE
  }

  function DoBootRecovery(argc: int): (r: int)
    ensures r == CMD_RET_FAILURE <==> argc == 1
    ensures r != CMD_RET_SUCCESS
  {
    if argc != 1 then CMD_RET_USAGE else CMD_RET_FAILURE
  }

  /** do_bootfailsafe */
  method DoBootFailsafe(flash: Flash, argc: int) returns (r: int)
    modifies flash
    ensures r == (if argc == 1 then CMD_RET_FAILURE else CMD_RET_USAGE)
    ensures argc == 1 ==> (flash.primary, flash.secondary) == FailsafeSaved(old(flash.primary), old(flash.secondary))
    ensures argc != 1 ==> flash.primary == old(flash.primary) && flash.secondary == old(flash.secondary)
  {
    if argc != 1 {
      return CMD_RET_USAGE;
    }
    var _, _ := BootFailsafe(flash);
    return CMD_RET_FAILURE;
  }
}
