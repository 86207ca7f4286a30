/** The procfs control surface of fsb_main.c: per slot, the files
    priority, tries_remaining, successful_boot and force edit the working
    record config_new; "chosen" reports config_active; writing 1 to "commit"
    saves. */
module ControlSurface {
  import opened Options
  import opened FsbRecord
  import opened FsbFlash
  import opened FsbStore

  const EFAULT := 14
  /** sizeof(kbuf) - 1: at most this many bytes of a write are looked at. */
  const INPUT_MAX := 63

  /** kstrtoul(s, 0, &val) of the kernel library, which is not part of this
      model: Some(val) when it accepts the string, None when it returns an
      error. */
  type Parser = string -> Option<nat>

  /** The outcome of reading one value from a write(2) call. */
  datatype Parsed = Fault | Invalid | Value(n: nat)

  /** The string a C reader sees in a buffer: everything before the first
      NUL. */
  function CString(s: string): (r: string)
    ensures r <= s && '\0' !in r
    ensures |r| < |s| ==> s[|r|] == '\0'
  {
    if |s| == 0 || s[0] == '\0' then [] else [s[0]] + CString(s[1..])
  }

  /** The common prologue of every write handler: copy min(count, 63) bytes
      from the user buffer (of which `user` is the readable part) into kbuf,
      NUL-terminate it and parse it with kstrtoul. */
  function ReadValue(parse: Parser, user: string, count: nat): (r: Parsed)
    ensures r == Fault <==> (if count < INPUT_MAX then count else INPUT_MAX) > |user|
    ensures r.Value? ==> parse(CString(user[..if count < INPUT_MAX then count else INPUT_MAX])) == Some(r.n)
    ensures r == Invalid ==> parse(CString(user[..if count < INPUT_MAX then count else INPUT_MAX])).None?
  {
    var len := if count < INPUT_MAX then count else INPUT_MAX;
    if len > |user| then Fault
    else
      match parse(CString(user[..len]))
      case None => Invalid
      case Some(v) => Value(v)
  }

  /** Bytes past the 63rd of a write are never seen: a longer write parses
      as its first 63 bytes. */
  lemma {:induction false} InputTruncated(parse: Parser, user: string, count: nat)
    requires count >= INPUT_MAX && |user| >= INPUT_MAX
    ensures ReadValue(parse, user, count) == ReadValue(parse, user[..INPUT_MAX], INPUT_MAX)
  {
    assert user[..INPUT_MAX][..INPUT_MAX] == user[..INPUT_MAX];
  }

  /** The four per-slot files. */
  datatype SlotField = Priority | TriesRemaining | SuccessfulBoot | Force

  /** The largest value each file accepts: the width of the bitfield. */
  function FieldMax(f: SlotField): nat
  {
    match f
    case Priority => 15
    case TriesRemaining => 15
    case SuccessfulBoot => 1
    case Force => 1
  }

  /** What the file's show handler prints. */
  function FieldOf(s: SlotInfo, f: SlotField): (v: nat)
    ensures v <= FieldMax(f)
  {
    match f
    case Priority => s.priority
    case TriesRemaining => s.triesRemaining
    case SuccessfulBoot => s.successfulBoot
    case Force => s.force
  }

  /** The bitfield assignment of a write handler. */
  function WithField(s: SlotInfo, f: SlotField, v: nat): (r: SlotInfo)
    requires v <= FieldMax(f)
    ensures FieldOf(r, f) == v
    ensures forall g :: g != f ==> FieldOf(r, g) == FieldOf(s, g)
    ensures r.reserved == s.reserved
  {
    match f
    case Priority => s.(priority := v)
    case TriesRemaining => s.(triesRemaining := v)
    case SuccessfulBoot => s.(successfulBoot := v)
    case Force => s.(force := v)
  }

  /** A write handler's result: -EFAULT, -EINVAL for an unparsable value or
      one above the field's width, else the byte count. */
  function WriteResult(input: Parsed, f: SlotField, count: nat): (ret: int)
    ensures ret >= 0 <==> input.Value? && input.n <= FieldMax(f)
    ensures ret >= 0 ==> ret == count
    ensures input == Fault ==> ret == -EFAULT
  {
    match input
    case Fault => -EFAULT
    case Invalid => -EINVAL
    case Value(v) => if v > FieldMax(f) then -EINVAL else count
  }

  /** fsb_proc_slotprio_write, fsb_proc_slottries_write,
      fsb_proc_slotsuccess_write and fsb_proc_slotforce_write: the file of
      field `f` of slot `slot` is bound to config_new.slots[slot]. Only that
      field of the working record changes, and only on success. */
  method SlotFieldWrite(ctx: Context, slot: SlotIndex, f: SlotField, parse: Parser, user: string, count: nat)
    returns (ret: int)
    modifies ctx
    ensures ret == WriteResult(ReadValue(parse, user, count), f, count)
    ensures ctx.configActive == old(ctx.configActive)
    ensures ret < 0 ==> ctx.configNew == old(ctx.configNew)
    ensures ret >= 0 ==> ctx.configNew == old(ctx.configNew).(slots := old(ctx.configNew).slots[slot := WithField(old(ctx.configNew).slots[slot], f, ReadValue(parse, user, count).n)])
  {
    var len := if count < INPUT_MAX then count else INPUT_MAX;
    if len > |user| {
      return -EFAULT;
    }
    var kbuf := user[..len];
    var val := parse(CString(kbuf));
    if val.None? {
      return -EINVAL;
    }
    if val.value > FieldMax(f) {
      return -EINVAL;
    }
    var s := ctx.configNew.slots[slot];
    ctx.configNew := ctx.configNew.(slots := ctx.configNew.slots[slot := WithField(s, f, val.value)]);
    return count;
  }

  /** fsb_proc_chosen_show: the name of config_active.chosen, so it reports
      the slot booted last, not the working copy. */
  function ChosenShow(ctx: Context): (s: string)
    reads ctx
    ensures s == SlotStr(ctx.configActive.chosen)
    ensures ctx.configActive.chosen < NUM_SLOTS <==> s != "<invalid>"
  {
    SlotStr(ctx.configActive.chosen)
  }

  /** fsb_proc_commit_write: only the value 1 commits; a failed save is
      reported as -EIO. */
  method CommitWrite(ctx: Context, flash: Flash, parse: Parser, user: string, count: nat) returns (ret: int)
    modifies ctx, flash
    ensures var input := ReadValue(parse, user, count);
      (input == Fault ==> ret == -EFAULT) &&
      (input == Invalid || (input.Value? && input.n != 1) ==> ret == -EINVAL) &&
      (input != Value(1) ==> ctx.configNew == old(ctx.configNew) && ctx.configActive == old(ctx.configActive) &&
                             flash.primary == old(flash.primary) && flash.secondary == old(flash.secondary))
    ensures ReadValue(parse, user, count) == Value(1) ==>
      ctx.configNew == Stamped(old(ctx.configNew)) && ctx.configActive == ctx.configNew &&
      (flash.primary, flash.secondary) == ContextSaved(old(ctx.configActive), ctx.configNew, old(flash.primary), old(flash.secondary)) &&
      (ret == count <==> ctx.configNew == old(ctx.configActive) || (WriteSucceeds(old(flash.secondary)) && WriteSucceeds(old(flash.primary)))) &&
      (ret != count ==> ret == -EIO)
  {
    var len := if count < INPUT_MAX then count else INPUT_MAX;
    if len > |user| {
      return -EFAULT;
    }
    var kbuf := user[..len];
    var val := parse(CString(kbuf));
    if val.None? {
      return -EINVAL;
    }
    if val.value != 1 {
      return -EINVAL;
    }
    ret := ctx.Save(flash);
    if ret != 0 {
      return -EIO;
    }
    return count;
  }

  /** fsb_module_init: a zeroed context loaded from flash, so the working
      copy starts equal to the active record. Allocation and procfs
      registration failures are not part of this model. */
  method ModuleInit(flash: Flash) returns (ctx: Context)
    ensures fresh(ctx)
    ensures ctx.configActive == Loaded(flash.primary, flash.secondary) && ctx.configNew == ctx.configActive
  {
    ctx := new Context();
    ctx.Load(flash);
  }
}
