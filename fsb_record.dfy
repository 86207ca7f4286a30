/** The fail-safe boot (FSB) record: the 16-byte, CRC-protected boot
    configuration kept in NOR flash, its packed slot descriptors, the default
    record and the helpers around it. */
module FsbRecord {
  import opened Bytes

  const NUM_SLOTS := 3
  const MAGIC: u32 := 0xBABAB0E1
  const VERSION: byte := 0x01
  /** sizeof(fsb_config) */
  const RECORD_SIZE := 16
  /** offsetof(fsb_config, crc32): the bytes the CRC covers */
  const CRC_OFFSET := 12

  const SLOT_NAND_A := 0
  const SLOT_NAND_B := 1
  const SLOT_RECOVERY := 2

  type U1 = x: int | 0 <= x < 2
  type U4 = x: int | 0 <= x < 0x10
  type U6 = x: int | 0 <= x < 0x40

  type SlotIndex = i: int | 0 <= i < NUM_SLOTS

  /** One slot descriptor. priority 0 means unbootable; triesRemaining 0 means
      failed, 15 means the countdown is disabled. */
  datatype SlotInfo = SlotInfo(priority: U4, triesRemaining: U4, successfulBoot: U1, force: U1, reserved: U6)

  type SlotTable = s: seq<SlotInfo> | |s| == NUM_SLOTS
    witness [SlotInfo(0, 0, 0, 0, 0), SlotInfo(0, 0, 0, 0, 0), SlotInfo(0, 0, 0, 0, 0)]

  /** fsb_config: slot 0 is rutos-a, 1 is rutos-b, 2 is the recovery ramdisk. */
  datatype Config = Config(magic: u32, version: byte, chosen: byte, slots: SlotTable, crc32: u32)

  /** The raw bytes of one record as they lie in flash. */
  type Block = s: seq<byte> | |s| == RECORD_SIZE witness seq(16, _ => 0)

  // ---------------------------------------------------------------------------
  // Packed layout (little-endian mt7621, bitfields allocated from bit 0)

  /** byte 0 = priority | tries_remaining << 4;
      byte 1 = successful_boot | force << 1 | reserved << 2 */
  function EncodeSlot(s: SlotInfo): (bs: seq<byte>)
    ensures |bs| == 2
  {
    [s.priority + s.triesRemaining * 0x10,
     s.successfulBoot + s.force * 0x2 + s.reserved * 0x4]
  }

  /** Each field is the byte masked and shifted back: `b0 & 0xF`, `b0 >> 4`,
      `b1 & 1`, `(b1 >> 1) & 1`, `b1 >> 2`. */
  function DecodeSlot(b0: byte, b1: byte): SlotInfo
  {
    SlotInfo(b0 % 0x10, b0 / 0x10, b1 % 0x2, (b1 / 0x2) % 0x2, b1 / 0x4)
  }

  lemma {:induction false} SlotRoundTrip(s: SlotInfo)
    ensures DecodeSlot(EncodeSlot(s)[0], EncodeSlot(s)[1]) == s
  {
  }

  /** Every 2-byte pattern is some descriptor: the layout has no padding. */
  lemma {:induction false} SlotBytesRoundTrip(b0: byte, b1: byte)
    ensures EncodeSlot(DecodeSlot(b0, b1)) == [b0, b1]
  {
  }

  function Serialize(c: Config): (b: Block)
  {
    Le32(c.magic) + [c.version, c.chosen]
      + EncodeSlot(c.slots[0]) + EncodeSlot(c.slots[1]) + EncodeSlot(c.slots[2])
      + Le32(c.crc32)
  }

  function Parse(b: Block): Config
  {
    Config(FromLe32(b[0..4]), b[4], b[5],
           [DecodeSlot(b[6], b[7]), DecodeSlot(b[8], b[9]), DecodeSlot(b[10], b[11])],
           FromLe32(b[12..16]))
  }

  /** The record format round-trips every in-range field value. */
  lemma {:induction false} ParseSerialize(c: Config)
    ensures Parse(Serialize(c)) == c
  {
    var b := Serialize(c);
    assert b[0..4] == Le32(c.magic);
    assert b[12..16] == Le32(c.crc32);
    Le32RoundTrip(c.magic);
    Le32RoundTrip(c.crc32);
    SlotRoundTrip(c.slots[0]);
    SlotRoundTrip(c.slots[1]);
    SlotRoundTrip(c.slots[2]);
    assert Parse(b).slots == c.slots;
  }

  /** Every 16-byte block is the serialization of the record it parses to. */
  lemma {:induction false} SerializeParse(b: Block)
    ensures Serialize(Parse(b)) == b
  {
    var c := Parse(b);
    FromLe32RoundTrip(b[0..4]);
    FromLe32RoundTrip(b[12..16]);
    SlotBytesRoundTrip(b[6], b[7]);
    SlotBytesRoundTrip(b[8], b[9]);
    SlotBytesRoundTrip(b[10], b[11]);
    assert Serialize(c) == b[0..4] + b[4..6] + b[6..8] + b[8..10] + b[10..12] + b[12..16];
  }

  /** Two configs with the same bytes are the same config, so the byte-wise
      memcmp of the source is equality of records. */
  lemma {:induction false} SerializeInjective(a: Config, b: Config)
    requires Serialize(a) == Serialize(b)
    ensures a == b
  {
    ParseSerialize(a);
    ParseSerialize(b);
  }

  // ---------------------------------------------------------------------------
  // CRC and validity

  /** fsb_config_crc_calc: crc32 seeded with the magic over the 12 bytes that
      precede the crc32 field. */
  function CrcOf(b: Block): u32
  {
    Crc32(MAGIC, b[..CRC_OFFSET])
  }

  function CrcCalc(c: Config): u32
  {
    CrcOf(Serialize(c))
  }

  /** The CRC does not depend on the crc32 field itself. */
  lemma {:induction false} CrcCalcIgnoresCrcField(c: Config, x: u32)
    ensures CrcCalc(c.(crc32 := x)) == CrcCalc(c)
  {
    assert Serialize(c.(crc32 := x))[..CRC_OFFSET] == Serialize(c)[..CRC_OFFSET];
  }

  /** fsb_config_crc_update: only the crc32 field changes, and afterwards it
      matches the recomputed CRC. */
  function CrcUpdate(c: Config): (r: Config)
    ensures r == c.(crc32 := r.crc32)
    ensures CrcCalc(r) == r.crc32
  {
    CrcCalcIgnoresCrcField(c, CrcCalc(c));
    c.(crc32 := CrcCalc(c))
  }

  /** What fsb_array_find_valid accepts: the magic matches and the stored CRC
      equals the recomputed one. */
  predicate IsValidBlock(b: Block)
  {
    FromLe32(b[0..4]) == MAGIC && FromLe32(b[12..16]) == CrcOf(b)
  }

  predicate Validates(c: Config)
  {
    c.magic == MAGIC && c.crc32 == CrcCalc(c)
  }

  lemma {:induction false} ValidBlockIffValidates(c: Config)
    ensures IsValidBlock(Serialize(c)) <==> Validates(c)
  {
    var b := Serialize(c);
    assert b[0..4] == Le32(c.magic);
    assert b[12..16] == Le32(c.crc32);
    Le32RoundTrip(c.magic);
    Le32RoundTrip(c.crc32);
  }

  /** A block parsed from flash validates exactly when the block does. */
  lemma {:induction false} ParsedValidatesIffValidBlock(b: Block)
    ensures Validates(Parse(b)) <==> IsValidBlock(b)
  {
    SerializeParse(b);
    ValidBlockIffValidates(Parse(b));
  }

  /** Changing any single byte of the magic or of the stored CRC of a valid
      record makes it invalid. (Bytes 4..11 are protected only by the CRC-32
      itself, whose error detection is not part of this model.) */
  lemma {:induction false} HeaderByteFlipInvalidates(c: Config, k: int, v: byte)
    requires Validates(c)
    requires 0 <= k < 4 || CRC_OFFSET <= k < RECORD_SIZE
    requires v != Serialize(c)[k]
    ensures !IsValidBlock(Serialize(c)[k := v])
  {
    var b := Serialize(c);
    var b' := b[k := v];
    assert b[0..4] == Le32(c.magic);
    assert b[12..16] == Le32(c.crc32);
    if k < 4 {
      assert b'[0..4] != b[0..4] by { assert b'[0..4][k] != b[0..4][k]; }
      if FromLe32(b'[0..4]) == MAGIC {
        FromLe32RoundTrip(b'[0..4]);
      }
    } else {
      assert b'[..CRC_OFFSET] == b[..CRC_OFFSET];
      assert b'[12..16] != b[12..16] by { assert b'[12..16][k - 12] != b[12..16][k - 12]; }
      if FromLe32(b'[12..16]) == CrcOf(b') {
        FromLe32RoundTrip(b'[12..16]);
      }
    }
  }

  /** The 16 bytes of erased NOR flash. */
  function ErasedBlock(): Block
  {
    Fill(0xFF, RECORD_SIZE)
  }

  /** Erased flash never passes as a record: its magic reads 0xFFFFFFFF. */
  lemma {:induction false} ErasedNeverValid()
    ensures !IsValidBlock(ErasedBlock())
  {
    assert ErasedBlock()[0..4] == [0xFF, 0xFF, 0xFF, 0xFF];
  }

  /** What fsb_context_save does to config_new before writing it: stamp the
      magic and recompute the CRC. The result always validates. */
  function Stamped(c: Config): (r: Config)
    ensures r.version == c.version && r.chosen == c.chosen && r.slots == c.slots
    ensures Validates(r) && IsValidBlock(Serialize(r))
  {
    var r := CrcUpdate(c.(magic := MAGIC));
    ValidBlockIffValidates(r);
    r
  }

  /** Stamping a stamped record changes nothing. */
  lemma {:induction false} StampedIdempotent(c: Config)
    ensures Stamped(Stamped(c)) == Stamped(c)
  {
    var r := Stamped(c);
    assert r.(magic := MAGIC) == r;
    assert CrcUpdate(r) == r.(crc32 := CrcCalc(r));
  }

  // ---------------------------------------------------------------------------
  // Defaults and names

  /** fsb_config_default. The compound literal leaves magic, crc32 and the
      reserved bits zero. */
  function DefaultConfig(): Config
  {
    Config(0, 0x01, 0,
           [SlotInfo(2, 5, 0, 0, 0),    // rutos-a
            SlotInfo(2, 5, 0, 0, 0),    // rutos-b
            SlotInfo(0, 15, 0, 0, 0)],  // recovery
           0)
  }

  /** The default record does not validate until it has been stamped and saved,
      because its magic is 0. */
  lemma DefaultDoesNotValidate()
    ensures !Validates(DefaultConfig()) && !IsValidBlock(Serialize(DefaultConfig()))
    ensures DefaultConfig().version == VERSION && DefaultConfig().chosen == SLOT_NAND_A
  {
    ValidBlockIffValidates(DefaultConfig());
  }

  /** fsb_slot_str. The three slot names are distinct, and only the slot
      indices have a name other than "<invalid>". */
  function SlotStr(idx: int): (s: string)
    ensures 0 <= idx < NUM_SLOTS <==> s != "<invalid>"
  {
    match idx
    case 0 => "rutos-a"
    case 1 => "rutos-b"
    case 2 => "recovery"
    case _ => "<invalid>"
  }

  lemma SlotStrInjective(i: int, j: int)
    requires 0 <= i < NUM_SLOTS && 0 <= j < NUM_SLOTS && SlotStr(i) == SlotStr(j)
    ensures i == j
  {
  }

  /** The all-zero record a freshly allocated (zeroed) context holds. */
  function ZeroConfig(): Config
  {
    Config(0, 0, 0, [SlotInfo(0, 0, 0, 0, 0), SlotInfo(0, 0, 0, 0, 0), SlotInfo(0, 0, 0, 0, 0)], 0)
  }
}
