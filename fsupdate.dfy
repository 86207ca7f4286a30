/** The image-update transaction of fsupdate.c: pick the NAND slot that is
    not in use as the target, demote the others and reset the target, persist,
    run the formatter, and only on its success raise the target to priority 9
    and persist again. */
module FsUpdate {
  import opened FsbRecord
  import opened FsbFlash
  import opened FsbStore
  import opened SlotSelector

  /** getprimary: the update target is rutos-a when pick_slot would boot
      rutos-b, and rutos-b otherwise (also when it would boot recovery). */
  function GetPrimary(c: Config): (r: SlotIndex)
    ensures r == SLOT_NAND_A || r == SLOT_NAND_B
    ensures r != PickSlot(c) || (PickSlot(c) != SLOT_NAND_A && PickSlot(c) != SLOT_NAND_B)
    ensures r == SLOT_NAND_A <==> PickSlot(c) == SLOT_NAND_B
  {
    if PickSlot(c) == SLOT_NAND_B then SLOT_NAND_A else SLOT_NAND_B
  }

  /** getsecondary: the NAND slot that is not `primary`. */
  function GetSecondary(primary: int): (r: SlotIndex)
    ensures r == SLOT_NAND_A || r == SLOT_NAND_B
    ensures (primary == SLOT_NAND_A || primary == SLOT_NAND_B) ==> r != primary
  {
    if primary == SLOT_NAND_B then SLOT_NAND_A else SLOT_NAND_B
  }

  /** The NAND slots are the only update targets. */
  type NandSlot = i: int | i == SLOT_NAND_A || i == SLOT_NAND_B

  /** The working record after the field assignments of mark_update_begin:
      recovery loses its force flag and drops to priority 1 if it was 9 or
      more, the other NAND slot loses its force flag and drops to 8 if it was 9
      or more, and the target gets force 0, priority 0, successful_boot 0 and
      a single try. */
  function BeganUpdate(c: Config, primary: NandSlot): (r: Config)
    ensures r.magic == c.magic && r.version == c.version && r.chosen == c.chosen && r.crc32 == c.crc32
    ensures forall j :: 0 <= j < NUM_SLOTS ==> r.slots[j].force == 0
    ensures forall j :: 0 <= j < NUM_SLOTS && j != primary ==> r.slots[j].priority <= 8
    ensures r.slots[primary] == c.slots[primary].(force := 0, priority := 0, successfulBoot := 0, triesRemaining := 1)
    ensures forall j :: 0 <= j < NUM_SLOTS && j != primary ==>
      r.slots[j].priority == (if c.slots[j].priority < 9 then c.slots[j].priority else if j == SLOT_RECOVERY then 1 else 8)
    ensures forall j :: 0 <= j < NUM_SLOTS && j != primary ==>
      r.slots[j] == c.slots[j].(force := 0, priority := r.slots[j].priority)
  {
    var secondary := GetSecondary(primary);
    var rec := c.slots[SLOT_RECOVERY];
    var rec' := rec.(force := 0, priority := if rec.priority >= 9 then 1 else rec.priority);
    var sec := c.slots[secondary];
    var sec' := sec.(force := 0, priority := if sec.priority >= 9 then 8 else sec.priority);
    var pri' := c.slots[primary].(force := 0, priority := 0, successfulBoot := 0, triesRemaining := 1);
    c.(slots := c.slots[SLOT_RECOVERY := rec'][secondary := sec'][primary := pri'])
  }

  /** The working record after the assignment of mark_update_end: the target
      is raised to priority 9, the highest any slot holds after begin, and
      nothing else changes. */
  function EndedUpdate(c: Config, primary: NandSlot): (r: Config)
    ensures r.magic == c.magic && r.version == c.version && r.chosen == c.chosen && r.crc32 == c.crc32
    ensures r.slots[primary].priority == 9 && r.slots[primary] == c.slots[primary].(priority := 9)
    ensures forall j :: 0 <= j < NUM_SLOTS && j != primary ==> r.slots[j] == c.slots[j]
  {
    c.(slots := c.slots[primary := c.slots[primary].(priority := 9)])
  }

  /** After begin the target cannot be selected: its priority is 0. */
  lemma {:induction false} BeginMakesTargetUnselectable(c: Config, primary: NandSlot)
    ensures !Bootable(BeganUpdate(c, primary).slots[primary])
    ensures BestSlot(BeganUpdate(c, primary)) != primary
    ensures BestSlot(Stamped(BeganUpdate(c, primary))) != primary
  {
  }

  /** A failed update: the formatter's failure leaves the target at priority
      0 with one try, and if the sibling NAND slot is bootable and recovery is
      not, the sibling is picked next. */
  lemma {:induction false} FailedUpdatePicksSibling(c: Config, primary: NandSlot)
    requires Bootable(c.slots[GetSecondary(primary)]) && !Bootable(c.slots[SLOT_RECOVERY])
    ensures var b := Stamped(BeganUpdate(c, primary));
      b.slots[primary].priority == 0 && b.slots[primary].triesRemaining == 1 &&
      b.slots[GetSecondary(primary)].priority <= 8 &&
      PickSlot(b) == GetSecondary(primary)
  {
    var b := Stamped(BeganUpdate(c, primary));
    var sec := GetSecondary(primary);
    assert Bootable(b.slots[sec]);
    assert !Bootable(b.slots[SLOT_RECOVERY]);
    assert forall i :: 0 <= i < NUM_SLOTS && i != sec ==> !Bootable(b.slots[i]) by {
      forall i | 0 <= i < NUM_SLOTS && i != sec
        ensures !Bootable(b.slots[i])
      {
        assert i == primary || i == SLOT_RECOVERY;
      }
    }
    BestSlotIsBest(b, sec);
  }

  /** A successful update: after begin and end the target alone has priority
      9 and no slot is forced, so it is the slot picked next; one failed boot
      of it (its single try used up) hands selection back to another slot. */
  lemma {:induction false} CompletedUpdatePicksTarget(c: Config, primary: NandSlot)
    ensures var e := Stamped(EndedUpdate(Stamped(BeganUpdate(c, primary)), primary));
      PickSlot(e) == primary && e.chosen == c.chosen &&
      !Bootable(MarkSlot(e, primary).slots[primary]) &&
      BestSlot(MarkSlot(e, primary)) != primary
  {
    var b := Stamped(BeganUpdate(c, primary));
    var e := Stamped(EndedUpdate(b, primary));
    assert Bootable(e.slots[primary]);
    forall i | 0 <= i < NUM_SLOTS && Bootable(e.slots[i])
      ensures Rank(e.slots[i]) <= Rank(e.slots[primary]) && (i != primary ==> Rank(e.slots[i]) < Rank(e.slots[primary]))
    {
      assert e.slots[i].force == 0;
      assert i != primary ==> e.slots[i].priority <= 8;
    }
    var best := BestSlot(e);
    BestSlotIsBest(e, primary);
  }

  /** mark_update_begin: edit the working record field by field, then save
      it (the result of the save is ignored). */
  method MarkUpdateBegin(ctx: Context, flash: Flash, primary: NandSlot)
    modifies ctx, flash
    ensures ctx.configNew == Stamped(BeganUpdate(old(ctx.configNew), primary)) && ctx.configActive == ctx.configNew
    ensures (flash.primary, flash.secondary) ==
      ContextSaved(old(ctx.configActive), ctx.configNew, old(flash.primary), old(flash.secondary))
  {
    var secondary := GetSecondary(primary);
    var slots := ctx.configNew.slots;

    slots := slots[SLOT_RECOVERY := slots[SLOT_RECOVERY].(force := 0)];
    if slots[SLOT_RECOVERY].priority >= 9 {
      slots := slots[SLOT_RECOVERY := slots[SLOT_RECOVERY].(priority := 1)];
    }

    slots := slots[secondary := slots[secondary].(force := 0)];
    if slots[secondary].priority >= 9 {
      slots := slots[secondary := slots[secondary].(priority := 8)];
    }

    slots := slots[primary := slots[primary].(force := 0)];
    slots := slots[primary := slots[primary].(priority := 0)];
    slots := slots[primary := slots[primary].(successfulBoot := 0)];
    slots := slots[primary := slots[primary].(triesRemaining := 1)];
    ctx.configNew := ctx.configNew.(slots := slots);
    assert ctx.configNew == BeganUpdate(old(ctx.configNew), primary);

    var _ := ctx.Save(flash);
  }

  /** mark_update_end: raise the target to priority 9 and save. */
  method MarkUpdateEnd(ctx: Context, flash: Flash, primary: NandSlot)
    modifies ctx, flash
    ensures ctx.configNew == Stamped(EndedUpdate(old(ctx.configNew), primary)) && ctx.configActive == ctx.configNew
    ensures (flash.primary, flash.secondary) ==
      ContextSaved(old(ctx.configActive), ctx.configNew, old(flash.primary), old(flash.secondary))
  {
    ctx.configNew := ctx.configNew.(slots := ctx.configNew.slots[primary := ctx.configNew.slots[primary].(priority := 9)]);
    var _ := ctx.Save(flash);
  }

  /** The flash contents fsb_update leaves behind: the begin save, and the
      end save only when the formatter succeeded. */
  function UpdatedPartitions(primary: Partition, secondary: Partition, formatResult: int): (Partition, Partition)
  {
    var c := Loaded(primary, secondary);
    var target := GetPrimary(c);
    var began := Stamped(BeganUpdate(c, target));
    var afterBegin := ContextSaved(c, began, primary, secondary);
    if formatResult != 0 then afterBegin
    else ContextSaved(began, Stamped(EndedUpdate(began, target)), afterBegin.0, afterBegin.1)
  }

  /** fsb_update. The formatter (ubiformat writing the image to the target's
      NAND partition) is not part of this model; `formatResult` is what it
      returns. */
  method FsbUpdate(flash: Flash, formatResult: int) returns (ret: int)
    modifies flash
    ensures ret == formatResult
    ensures (flash.primary, flash.secondary) == UpdatedPartitions(old(flash.primary), old(flash.secondary), formatResult)
  {
    var ctx := new Context();
    ctx.Load(flash);
    var primary := GetPrimary(ctx.configNew);
    MarkUpdateBegin(ctx, flash, primary);

    ret := formatResult;
    if ret != 0 {
      return ret;
    }

    MarkUpdateEnd(ctx, flash, primary);
    return 0;
  }

  /** When both partitions accept writes, a failed update leaves the target
      demoted on flash and a successful one leaves it picked next. */
  lemma {:induction false} UpdateOutcomeOnFlash(primary: Partition, secondary: Partition, formatResult: int)
    requires Writable(primary) && Writable(secondary)
    ensures var c := Loaded(primary, secondary);
      var target := GetPrimary(c);
      var after := UpdatedPartitions(primary, secondary, formatResult);
      var loaded := Loaded(after.0, after.1);
      (formatResult != 0 ==> loaded.slots[target].priority == 0 && loaded.slots[target].triesRemaining == 1) &&
      (formatResult == 0 ==> PickSlot(loaded) == target)
  {
    var c := Loaded(primary, secondary);
    var target := GetPrimary(c);
    var began := Stamped(BeganUpdate(c, target));
    SaveKeepsSync(c, BeganUpdate(c, target), primary, secondary);
    var afterBegin := ContextSaved(c, began, primary, secondary);
    assert Writable(afterBegin.0) && Writable(afterBegin.1);
    if formatResult == 0 {
      SaveKeepsSync(began, EndedUpdate(began, target), afterBegin.0, afterBegin.1);
      CompletedUpdatePicksTarget(c, target);
    }
  }
}
