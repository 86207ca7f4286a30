/** The manufacturing-information fields of mnf_fields.c: the table of
    fields (where each one lives in the 64 KiB manufacturing block) and the
    checks and restorers that repair a field whose stored value is not
    acceptable. A restorer writes the replacement value into the caller's
    buffer `buf` and returns 0 when the stored value `stored` was acceptable
    and nonzero when it needs replacing.

    Strings read by the restorers are NUL-terminated C strings; the model
    passes their characters before the terminator, and a read at or past the
    end sees the terminator '\0' (see At). */
module MnfFields {
  import opened Options

  /** The restore routine a field is bound to. */
  datatype Restorer = RestoreMacFn | RestoreNameFn | RestoreNumFn | ClearFn

  /** mnf_field_t: short option letter, long name, description, byte offset
      and length in the block, restore routine, and MNF_FIELD_BINARY. */
  datatype MnfField = MnfField(
    shortName: char, name: string, description: string,
    offset: nat, length: nat, restore: Option<Restorer>, binary: bool)

  /** The mnf_fields table, ending with the all-zero sentinel entry. */
  const MNF_FIELDS: seq<MnfField> := [
    MnfField('m', "mac",       "MAC address",         0x00,   6, Some(RestoreMacFn),  true),
    MnfField('n', "name",      "Model name",          0x10,  12, Some(RestoreNameFn), false),
    MnfField('w', "wps",       "WPS PIN",             0x20,   8, Some(ClearFn),       false),
    MnfField('s', "sn",        "Serial number",       0x30,  10, Some(RestoreNumFn),  false),
    MnfField('b', "batch",     "Batch number",        0x40,   4, Some(RestoreNumFn),  false),
    MnfField('H', "hwver",     "HW version (major)",  0x50,   4, Some(RestoreNumFn),  false),
    MnfField('L', "hwver_lo",  "HW version (minor)",  0x54,   4, Some(RestoreNumFn),  false),
    MnfField('B', "branch",    "HW branch",           0x58,   4, Some(ClearFn),       false),
    MnfField('W', "wifi_pass", "WiFi password",       0x90,  16, Some(ClearFn),       false),
    MnfField('x', "passwd",    "Linux password",      0xA0, 106, Some(ClearFn),       false),
    MnfField('C', "simcfg",    "SIM configuration",  0x110,  32, Some(ClearFn),       false),
    MnfField('P', "profiles",  "eSIM profiles",      0x130, 128, Some(ClearFn),       false),
    MnfField('c', "mob_cfg",   "Mob config",          0x66,   4, Some(ClearFn),       false),
    MnfField('\0', "",         "",                    0,      0, None,                false)
  ]

  /** The real entries: every one before the sentinel. */
  const FIELD_COUNT := 13

  /** Two fields whose byte ranges do not overlap. */
  predicate Disjoint(f: MnfField, g: MnfField)
  {
    f.offset + f.length <= g.offset || g.offset + g.length <= f.offset
  }

  /** The table ends with its sentinel, the only entry whose short name is
      '\0' (where a scan of the table stops), and every real entry has a
      restore routine and a nonempty range. */
  lemma TableEndsWithSentinel()
    ensures |MNF_FIELDS| == FIELD_COUNT + 1
    ensures MNF_FIELDS[FIELD_COUNT].shortName == '\0' && MNF_FIELDS[FIELD_COUNT].restore.None?
    ensures forall i :: 0 <= i < FIELD_COUNT ==>
      MNF_FIELDS[i].shortName != '\0' && MNF_FIELDS[i].restore.Some? && MNF_FIELDS[i].length > 0
  {
  }

  /** The real entries occupy pairwise disjoint byte ranges, and their short
      and long names are unique, so a field is found by either name. */
  lemma FieldsDisjoint()
    ensures forall i, j :: 0 <= i < j < FIELD_COUNT ==> Disjoint(MNF_FIELDS[i], MNF_FIELDS[j])
    ensures forall i, j :: 0 <= i < j < FIELD_COUNT ==>
      MNF_FIELDS[i].shortName != MNF_FIELDS[j].shortName && MNF_FIELDS[i].name != MNF_FIELDS[j].name
  {
  }

  // ---------------------------------------------------------------------------
  // C strings

  /** The character a C reader sees at index i of string s: past its
      characters lies the terminator. */
  function At(s: string, i: nat): char
  {
    if i < |s| then s[i] else '\0'
  }

  /** strncmp(s, p, strlen(p)) == 0, for a string literal p. */
  predicate HasPrefix(s: string, p: string)
  {
    |p| <= |s| && s[..|p|] == p
  }

  /** strncmp compares character by character and stops at a difference,
      so for a prefix without NUL characters its verdict is HasPrefix. */
  lemma {:induction false} HasPrefixIffCharsMatch(s: string, p: string)
    requires '\0' !in p
    ensures HasPrefix(s, p) <==> forall i :: 0 <= i < |p| ==> At(s, i) == p[i]
  {
    if |p| > |s| {
      assert p[|s|] in p;
      assert At(s, |s|) != p[|s|];
    }
  }

  /** strcpy(buf, s) and the NUL that sprintf appends: s and a terminator at
      the start of buf, nothing else changed. */
  method PutString(buf: array<char>, s: string)
    requires |s| < buf.Length
    modifies buf
    ensures buf[..|s| + 1] == s + ['\0']
    ensures buf[|s| + 1..] == old(buf[|s| + 1..])
  {
    forall i | 0 <= i < |s| {
      buf[i] := s[i];
    }
    buf[|s|] := '\0';
    assert buf[..|s| + 1] == buf[..|s|] + [buf[|s|]];
  }

  // ---------------------------------------------------------------------------
  // validate_num, restore_num

  /** isdigit */
  predicate IsDigit(c: char)
  {
    '0' <= c <= '9'
  }

  /** The first n characters of s are decimal digits. */
  predicate AllDigits(s: string, n: nat)
  {
    forall i :: 0 <= i < n ==> IsDigit(At(s, i))
  }

  /** validate_num: 0 when the first field->length characters of the stored
      value are decimal digits, 1 otherwise. A stored value shorter than the
      field fails at its terminator. */
  method ValidateNum(field: MnfField, stored: string) returns (r: int)
    ensures r == 0 || r == 1
    ensures r == 0 <==> AllDigits(stored, field.length)
  {
    var i := 0;
    while i < field.length
      invariant 0 <= i <= field.length
      invariant AllDigits(stored, i)
    {
      if !IsDigit(At(stored, i)) {
        return 1;
      }
      i := i + 1;
    }
    return 0;
  }

  /** field->length '0' characters. */
  function Zeros(n: nat): (s: string)
    ensures |s| == n && forall i :: 0 <= i < n ==> s[i] == '0'
  {
    seq(n, _ => '0')
  }

  /** restore_num: write field->length '0' characters and a terminator, and
      report whether the stored value was all digits. */
  method RestoreNum(field: MnfField, stored: string, buf: array<char>) returns (r: int)
    requires field.length < buf.Length
    modifies buf
    ensures buf[..field.length + 1] == Zeros(field.length) + ['\0']
    ensures buf[field.length + 1..] == old(buf[field.length + 1..])
    ensures r == 0 || r == 1
    ensures r == 0 <==> AllDigits(stored, field.length)
  {
    PutString(buf, Zeros(field.length));
    r := ValidateNum(field, stored);
  }

  /** The value restore_num writes is one validate_num accepts, so restoring
      is needed at most once. */
  lemma {:induction false} RestoredNumValidates(n: nat)
    ensures AllDigits(Zeros(n), n)
    ensures !AllDigits(Zeros(n) + ['x'], n + 1)
  {
    assert At(Zeros(n) + ['x'], n) == 'x';
  }

  // ---------------------------------------------------------------------------
  // restore_mac

  /** CONFIG_MAC_VID_STR: the vendor prefix of Teltonika MAC addresses. */
  const MAC_VID := "001E42"

  /** One hexadecimal digit, as printf's %x (lower case) prints it. */
  function HexDigit(d: nat): char
    requires d < 16
  {
    if d < 10 then ('0' as int + d) as char else ('a' as int + d - 10) as char
  }

  /** toupper */
  function ToUpper(c: char): char
  {
    if 'a' <= c <= 'z' then (c as int - 32) as char else c
  }

  /** n as k hexadecimal digits, most significant first (%0kx for n < 16^k). */
  function Hex(n: nat, k: nat): (s: string)
    ensures |s| == k
    ensures forall i :: 0 <= i < k ==> '0' <= s[i] <= '9' || 'a' <= s[i] <= 'f'
  {
    if k == 0 then [] else Hex(n / 16, k - 1) + [HexDigit(n % 16)]
  }

  /** s with every character through toupper. */
  function Upper(s: string): (u: string)
    ensures |u| == |s| && forall i :: 0 <= i < |s| ==> u[i] == ToUpper(s[i])
  {
    if |s| == 0 then [] else Upper(s[..|s| - 1]) + [ToUpper(s[|s| - 1])]
  }

  /** The value of a hexadecimal digit of either case. */
  function DigitValue(c: char): nat
  {
    if '0' <= c <= '9' then c as int - '0' as int
    else if 'a' <= c <= 'f' then c as int - 'a' as int + 10
    else if 'A' <= c <= 'F' then c as int - 'A' as int + 10
    else 0
  }

  /** The number a string of hexadecimal digits denotes. */
  function FromHex(s: string): nat
  {
    if |s| == 0 then 0 else FromHex(s[..|s| - 1]) * 16 + DigitValue(s[|s| - 1])
  }

  function Pow16(k: nat): (p: nat)
    ensures p > 0
  {
    if k == 0 then 1 else 16 * Pow16(k - 1)
  }

  /** The digits printed by %0kx denote the number printed. */
  lemma {:induction false} HexRoundTrip(n: nat, k: nat)
    requires n < Pow16(k)
    ensures FromHex(Hex(n, k)) == n
  {
    if k > 0 {
      var q := n / 16;
      var m := n % 16;
      assert n == q * 16 + m;
      assert q < Pow16(k - 1);
      HexRoundTrip(q, k - 1);
      var h := Hex(n, k);
      assert h[..k - 1] == Hex(q, k - 1);
      assert DigitValue(h[k - 1]) == m;
    }
  }

  /** toupper does not change the value of a string of hex digits. */
  lemma {:induction false} UpperKeepsValue(s: string)
    requires forall i :: 0 <= i < |s| ==> '0' <= s[i] <= '9' || 'a' <= s[i] <= 'f'
    ensures FromHex(Upper(s)) == FromHex(s)
  {
    if |s| > 0 {
      var u := Upper(s);
      assert u[..|s| - 1] == Upper(s[..|s| - 1]);
      UpperKeepsValue(s[..|s| - 1]);
      assert DigitValue(ToUpper(s[|s| - 1])) == DigitValue(s[|s| - 1]);
    }
  }

  /** The MAC address string restore_mac leaves in buf, before its
      terminator: the vendor prefix and the identifier in upper-case hex. */
  function RestoredMac(nid: nat): string
  {
    Upper(MAC_VID + Hex(nid, 6))
  }

  /** restore_mac: draw a 24-bit identifier (from `random`, the value of
      rand(), which is not part of this model), print the vendor prefix and
      the identifier as six hex digits, upper-case the string in place, and
      report whether the stored value lacked the vendor prefix. */
  method RestoreMac(field: MnfField, stored: string, buf: array<char>, random: nat) returns (r: int)
    requires buf.Length > 12
    modifies buf
    ensures buf[..13] == RestoredMac(random % 0x100_0000) + ['\0']
    ensures buf[13..] == old(buf[13..])
    ensures r == 0 || r == 1
    ensures r == 0 <==> HasPrefix(stored, MAC_VID)
  {
    var nid := random % 0x100_0000;
    var printed := MAC_VID + Hex(nid, 6);
    PutString(buf, printed);
    var i := 0;
    while i < |printed|
      invariant 0 <= i <= |printed|
      invariant forall j :: 0 <= j < i ==> buf[j] == ToUpper(printed[j])
      invariant forall j :: i <= j < |printed| ==> buf[j] == printed[j]
      invariant buf[|printed|] == '\0'
      invariant buf[13..] == old(buf[13..])
    {
      buf[i] := ToUpper(buf[i]);
      i := i + 1;
    }
    assert buf[..13] == Upper(printed) + ['\0'];
    r := if HasPrefix(stored, MAC_VID) then 0 else 1;
  }

  /** A restored MAC address carries the vendor prefix, so restore_mac
      accepts it, and its digits denote the identifier drawn. */
  lemma RestoredMacAccepted(random: nat)
    ensures HasPrefix(RestoredMac(random % 0x100_0000), MAC_VID)
    ensures FromHex(RestoredMac(random % 0x100_0000)[6..]) == random % 0x100_0000
  {
    var nid := random % 0x100_0000;
    HexRoundTrip(nid, 6);
    UpperKeepsValue(Hex(nid, 6));
    assert RestoredMac(nid)[6..] == Upper(Hex(nid, 6));
  }

  // ---------------------------------------------------------------------------
  // restore_name, clear

  /** good_models for a CONFIG_DEVICE_MODEL_RUTM build. */
  const RUTM_MODELS: seq<string> := [
    "RUTM08", "RUTM09", "RUTM10", "RUTM11", "RUTM12", "RUTM13",
    "RUTM14", "RUTM20", "RUTM30", "RUTM31", "RUTMR1", "RUTM50",
    "RUTM51", "RUTM52", "RUTM54", "RUTM55", "RUTM56", "RUTM59"]

  /** good_models: the RUTM list, or only CONFIG_DEVICE_MODEL in other
      builds. */
  function GoodModels(rutmBuild: bool, deviceModel: string): seq<string>
  {
    if rutmBuild then RUTM_MODELS else [deviceModel]
  }

  /** The stored name starts with one of the models. */
  predicate StartsWithModel(stored: string, models: seq<string>)
  {
    exists i :: 0 <= i < |models| && HasPrefix(stored, models[i])
  }

  /** restore_name: write the build's default model name
      (CONFIG_DEVICE_MODEL_MNF_DEFAULT) and report 0 when the stored name
      begins with one of the build's good model names, 1 otherwise. */
  method RestoreName(field: MnfField, stored: string, buf: array<char>, rutmBuild: bool, deviceModel: string, defaultName: string)
    returns (r: int)
    requires |defaultName| < buf.Length
    modifies buf
    ensures buf[..|defaultName| + 1] == defaultName + ['\0']
    ensures buf[|defaultName| + 1..] == old(buf[|defaultName| + 1..])
    ensures r == 0 || r == 1
    ensures r == 0 <==> StartsWithModel(stored, GoodModels(rutmBuild, deviceModel))
  {
    PutString(buf, defaultName);
    var models := GoodModels(rutmBuild, deviceModel);
    var i := 0;
    while i < |models|
      invariant 0 <= i <= |models|
      invariant forall j :: 0 <= j < i ==> !HasPrefix(stored, models[j])
    {
      var m := models[i];
      if |m| <= |stored| && stored[..|m|] == m {
        return 0;
      }
      i := i + 1;
    }
    return 1;
  }

  /** Which stored names restore_name keeps: in a RUTM build, exactly those
      whose first six characters are one of the listed models (every listed
      name is six characters long); in any other build, exactly those that
      begin with CONFIG_DEVICE_MODEL. */
  lemma GoodModelAccepted(stored: string, rutmBuild: bool, deviceModel: string)
    ensures rutmBuild ==>
      (StartsWithModel(stored, GoodModels(rutmBuild, deviceModel)) <==> |stored| >= 6 && stored[..6] in RUTM_MODELS)
    ensures !rutmBuild ==>
      (StartsWithModel(stored, GoodModels(rutmBuild, deviceModel)) <==> HasPrefix(stored, deviceModel))
  {
    if rutmBuild {
      assert forall i :: 0 <= i < |RUTM_MODELS| ==> |RUTM_MODELS[i]| == 6;
      if |stored| >= 6 && stored[..6] in RUTM_MODELS {
        var i :| 0 <= i < |RUTM_MODELS| && RUTM_MODELS[i] == stored[..6];
        assert HasPrefix(stored, RUTM_MODELS[i]);
      }
    } else {
      assert GoodModels(rutmBuild, deviceModel)[0] == deviceModel;
    }
  }

  /** clear: the empty string. */
  method Clear(field: MnfField, stored: string, buf: array<char>) returns (r: int)
    requires buf.Length > 0
    modifies buf
    ensures buf[0] == '\0' && buf[1..] == old(buf[1..])
    ensures r == 0
  {
    PutString(buf, "");
    return 0;
  }
}
