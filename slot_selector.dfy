/** Slot selection of fsb.c: the comparator, the best-bootable-slot scan,
    pick_slot with its fallback to `chosen`, and mark_slot. */
module SlotSelector {
  import opened FsbRecord

  /** The ranking key the comparator orders by: force, then priority, then
      successful_boot, then tries_remaining; a larger key is better. */
  function Rank(s: SlotInfo): nat
  {
    s.force * 0x200 + s.priority * 0x20 + s.successfulBoot * 0x10 + s.triesRemaining
  }

  /** Two descriptors have the same key exactly when the four ranked fields
      agree. */
  lemma {:induction false} RankInjective(a: SlotInfo, b: SlotInfo)
    ensures Rank(a) == Rank(b) <==>
      a.force == b.force && a.priority == b.priority &&
      a.successfulBoot == b.successfulBoot && a.triesRemaining == b.triesRemaining
  {
    if Rank(a) == Rank(b) {
      var ka := a.priority * 0x20 + a.successfulBoot * 0x10 + a.triesRemaining;
      var kb := b.priority * 0x20 + b.successfulBoot * 0x10 + b.triesRemaining;
      assert ka < 0x200 && kb < 0x200;
      assert a.force == b.force;
      assert a.successfulBoot * 0x10 + a.triesRemaining < 0x20;
      assert a.priority == b.priority;
      assert a.successfulBoot == b.successfulBoot;
    }
  }

  /** fsb_slotinfo_compare: negative when `a` is better, positive when `b`
      is, zero when they rank equal. */
  function Compare(a: SlotInfo, b: SlotInfo): (r: int)
    ensures r < 0 <==> Rank(a) > Rank(b)
    ensures r > 0 <==> Rank(a) < Rank(b)
  {
    if a.force != b.force then b.force - a.force
    else if a.priority != b.priority then b.priority - a.priority
    else if a.successfulBoot != b.successfulBoot then b.successfulBoot - a.successfulBoot
    else if a.triesRemaining != b.triesRemaining then b.triesRemaining - a.triesRemaining
    else 0
  }

  /** The comparator is antisymmetric, and it returns 0 only for descriptors
      whose four ranked fields are equal. */
  lemma {:induction false} CompareAntisymmetric(a: SlotInfo, b: SlotInfo)
    ensures Compare(a, b) == -Compare(b, a)
    ensures Compare(a, b) == 0 <==>
      a.force == b.force && a.priority == b.priority &&
      a.successfulBoot == b.successfulBoot && a.triesRemaining == b.triesRemaining
  {
    RankInjective(a, b);
  }

  /** "a is at least as good as b" is transitive. */
  lemma {:induction false} CompareTransitive(a: SlotInfo, b: SlotInfo, c: SlotInfo)
    requires Compare(a, b) <= 0 && Compare(b, c) <= 0
    ensures Compare(a, c) <= 0
  {
  }

  /** A forced slot outranks any unforced one, whatever the priorities. */
  lemma {:induction false} ForceOutranksPriority(a: SlotInfo, b: SlotInfo)
    requires a.force == 1 && b.force == 0
    ensures Compare(a, b) < 0
  {
  }

  /** A slot is skipped when its priority or its tries_remaining is 0. */
  predicate Bootable(s: SlotInfo)
  {
    s.priority != 0 && s.triesRemaining != 0
  }

  /** The candidate held by fsb_config_get_best_bootable_slot after it has
      looked at slots 0..n-1. */
  function BestAmong(slots: SlotTable, n: nat): (r: int)
    requires n <= NUM_SLOTS
    ensures -1 <= r < n
    ensures r == -1 <==> forall i :: 0 <= i < n ==> !Bootable(slots[i])
    ensures r >= 0 ==> Bootable(slots[r])
    ensures r >= 0 ==> forall i :: 0 <= i < n && Bootable(slots[i]) ==> Rank(slots[i]) <= Rank(slots[r])
    ensures r >= 0 ==> forall i :: 0 <= i < r && Bootable(slots[i]) ==> Rank(slots[i]) < Rank(slots[r])
  {
    if n == 0 then -1
    else
      var prev := BestAmong(slots, n - 1);
      if Bootable(slots[n - 1]) && (prev < 0 || Compare(slots[n - 1], slots[prev]) < 0) then n - 1
      else prev
  }

  /** The best bootable slot of a record, ties to the lowest index, or -1. */
  function BestSlot(c: Config): int
  {
    BestAmong(c.slots, NUM_SLOTS)
  }

  /** fsb_config_get_best_bootable_slot */
  method GetBestBootableSlot(c: Config) returns (chosen: int)
    ensures chosen == BestSlot(c)
  {
    chosen := -1;
    var i := 0;
    while i < NUM_SLOTS
      invariant 0 <= i <= NUM_SLOTS
      invariant chosen == BestAmong(c.slots, i)
    {
      var slot := c.slots[i];
      if slot.priority != 0 && slot.triesRemaining != 0 {
        if chosen < 0 || Compare(slot, c.slots[chosen]) < 0 {
          chosen := i;
        }
      }
      i := i + 1;
    }
  }

  /** Among bootable slots, BestSlot is the best one, and the lowest index
      among equally good ones. */
  lemma {:induction false} BestSlotIsBest(c: Config, i: int)
    requires 0 <= i < NUM_SLOTS && Bootable(c.slots[i])
    ensures 0 <= BestSlot(c) < NUM_SLOTS && Bootable(c.slots[BestSlot(c)])
    ensures Rank(c.slots[BestSlot(c)]) >= Rank(c.slots[i])
    ensures Rank(c.slots[BestSlot(c)]) == Rank(c.slots[i]) ==> BestSlot(c) <= i
  {
  }

  /** fsb_config_pick_slot: the best bootable slot, else the last chosen. */
  function PickSlot(c: Config): (r: int)
    ensures (exists i :: 0 <= i < NUM_SLOTS && Bootable(c.slots[i])) ==> 0 <= r < NUM_SLOTS && Bootable(c.slots[r])
    ensures (forall i :: 0 <= i < NUM_SLOTS ==> !Bootable(c.slots[i])) ==> r == c.chosen
  {
    var slot := BestSlot(c);
    if slot < 0 then c.chosen else slot
  }

  /** fsb_config_mark_slot: record the attempt. Only `chosen` and the
      marked slot's force and tries_remaining change. */
  function MarkSlot(c: Config, slot: SlotIndex): (r: Config)
    ensures r.magic == c.magic && r.version == c.version && r.crc32 == c.crc32
    ensures r.chosen == slot
    ensures forall j :: 0 <= j < NUM_SLOTS && j != slot ==> r.slots[j] == c.slots[j]
    ensures r.slots[slot] == c.slots[slot].(force := 0, triesRemaining := r.slots[slot].triesRemaining)
    ensures c.slots[slot].triesRemaining in {0, 15} ==> r.slots[slot].triesRemaining == c.slots[slot].triesRemaining
    ensures c.slots[slot].triesRemaining !in {0, 15} ==> r.slots[slot].triesRemaining == c.slots[slot].triesRemaining - 1
  {
    var s := c.slots[slot];
    var t := if s.triesRemaining != 0 && s.triesRemaining != 15 then s.triesRemaining - 1 else s.triesRemaining;
    c.(chosen := slot, slots := c.slots[slot := s.(force := 0, triesRemaining := t)])
  }

  /** `n` boots of the same slot in a row. */
  function MarkedTimes(c: Config, slot: SlotIndex, n: nat): Config
  {
    if n == 0 then c else MarkSlot(MarkedTimes(c, slot, n - 1), slot)
  }

  /** Each boot uses up one try until none are left, unless the countdown is
      disabled with 15; the other slots are untouched. */
  lemma {:induction false} MarkedTimesCountsDown(c: Config, slot: SlotIndex, n: nat)
    ensures var t := c.slots[slot].triesRemaining;
      MarkedTimes(c, slot, n).slots[slot].triesRemaining ==
        if t == 15 then 15 else if n <= t then t - n else 0
    ensures forall j :: 0 <= j < NUM_SLOTS && j != slot ==> MarkedTimes(c, slot, n).slots[j] == c.slots[j]
    ensures MarkedTimes(c, slot, n).slots[slot].priority == c.slots[slot].priority
  {
    if n > 0 {
      MarkedTimesCountsDown(c, slot, n - 1);
    }
  }

  /** A slot whose countdown is enabled becomes unbootable after as many
      boot attempts as it had tries, so selection moves on. */
  lemma {:induction false} RepeatedFailuresAbandonSlot(c: Config, slot: SlotIndex)
    requires c.slots[slot].triesRemaining != 15
    ensures !Bootable(MarkedTimes(c, slot, c.slots[slot].triesRemaining).slots[slot])
    ensures BestSlot(MarkedTimes(c, slot, c.slots[slot].triesRemaining)) != slot
  {
    MarkedTimesCountsDown(c, slot, c.slots[slot].triesRemaining);
  }

  /** With the factory default record the two NAND slots tie and the lower
      index, rutos-a, is picked. */
  lemma DefaultPicksNandA()
    ensures BestSlot(DefaultConfig()) == SLOT_NAND_A && PickSlot(DefaultConfig()) == SLOT_NAND_A
  {
  }

  /** With both NAND slots out of tries and recovery unbootable nothing
      qualifies, and pick_slot falls back to `chosen`. */
  lemma {:induction false} ExhaustedFallsBackToChosen(c: Config)
    requires c.slots[SLOT_NAND_A].triesRemaining == 0 && c.slots[SLOT_NAND_B].triesRemaining == 0
    requires !Bootable(c.slots[SLOT_RECOVERY])
    ensures BestSlot(c) == -1 && PickSlot(c) == c.chosen
  {
    assert forall i :: 0 <= i < NUM_SLOTS ==> !Bootable(c.slots[i]) by {
      forall i | 0 <= i < NUM_SLOTS
        ensures !Bootable(c.slots[i])
      {
        assert i == SLOT_NAND_A || i == SLOT_NAND_B || i == SLOT_RECOVERY;
      }
    }
  }
}
