/**
 * The computational parts of webfrontend.cpp: mapping idmap file names to
 * sensor ids and back, the guard on the sensor id of the configuration
 * form, and the loop that turns the reading cache into the rows of the
 * "current readings" table.
 *
 * C strings are modelled by their characters up to (not including) the
 * terminating NUL, so a `string` here never needs one.
 */
module WebFrontend {
  import opened Globals
  import opened LaCrosse

  // ---------------------------------------------------------------------
  // Character classes and digit values of the C library
  // ---------------------------------------------------------------------

  /** `isspace` in the "C" locale. */
  predicate IsSpace(c: char) {
    c == ' ' || c == '\t' || c == '\n' || c == '\U{000B}' || c == '\U{000C}' || c == '\r'
  }

  /**
   * The value `strtol` gives a digit character in any base up to 16, or 16
   * for a character that is no digit at all.
   */
  function DigitValue(c: char): (v: nat)
    ensures v <= 16
    ensures v < 10 <==> '0' <= c <= '9'
    ensures v < 16 <==> ('0' <= c <= '9' || 'a' <= c <= 'f' || 'A' <= c <= 'F')
  {
    if '0' <= c <= '9' then c as int - '0' as int
    else if 'a' <= c <= 'f' then c as int - 'a' as int + 10
    else if 'A' <= c <= 'F' then c as int - 'A' as int + 10
    else 16
  }

  /** A digit of `base` (10 or 16). */
  predicate IsDigitOf(c: char, base: nat) {
    DigitValue(c) < base
  }

  /** The index of the first non-space character at or after `i`. */
  function SkipSpaces(s: string, i: nat): (j: nat)
    requires i <= |s|
    ensures i <= j <= |s|
    ensures forall k :: i <= k < j ==> IsSpace(s[k])
    ensures j < |s| ==> !IsSpace(s[j])
    decreases |s| - i
  {
    if i < |s| && IsSpace(s[i]) then SkipSpaces(s, i + 1) else i
  }

  /** The index just past the run of `base` digits that starts at `i`. */
  function DigitRunEnd(s: string, i: nat, base: nat): (j: nat)
    requires i <= |s|
    ensures i <= j <= |s|
    ensures forall k :: i <= k < j ==> IsDigitOf(s[k], base)
    ensures j < |s| ==> !IsDigitOf(s[j], base)
    decreases |s| - i
  {
    if i < |s| && IsDigitOf(s[i], base) then DigitRunEnd(s, i + 1, base) else i
  }

  /** The value of a string of `base` digits, most significant first. */
  function DigitsValue(s: string, base: nat): (v: nat)
    requires forall k :: 0 <= k < |s| ==> IsDigitOf(s[k], base)
  {
    if s == [] then 0
    else
      var init := s[..|s| - 1];
      assert forall k :: 0 <= k < |init| ==> init[k] == s[k];
      var high := DigitsValue(init, base);
      MulNat(high, base);
      high * base + DigitValue(s[|s| - 1])
  }

  lemma MulNat(a: nat, b: nat)
    ensures a * b >= 0
  {
  }

  /** What `strtol` returns: the value and the offset of `*endptr`. */
  datatype Parsed = Parsed(value: int, end: nat)

  /**
   * `strtol(s, &end, base)` for base 10 or 16: leading white space, an
   * optional sign, for base 16 an optional "0x"/"0X" that is only taken as a
   * prefix when a hex digit follows it, then the longest run of digits. With
   * no digits at all nothing is consumed: the value is 0 and `end` points at
   * the start of the string.
   */
  function Strtol(s: string, base: nat): (p: Parsed)
    requires base == 10 || base == 16
    ensures p.end <= |s|
    ensures p.end == 0 ==> p.value == 0
  {
    var i := SkipSpaces(s, 0);
    var signed := i < |s| && (s[i] == '-' || s[i] == '+');
    var j := if signed then i + 1 else i;
    var k := if base == 16 && j + 2 < |s| && s[j] == '0' && (s[j + 1] == 'x' || s[j + 1] == 'X')
                && IsDigitOf(s[j + 2], 16)
             then j + 2 else j;
    var e := DigitRunEnd(s, k, base);
    if e == k then Parsed(0, 0)
    else
      assert forall t :: 0 <= t < e - k ==> s[k..e][t] == s[k + t];
      var v: int := DigitsValue(s[k..e], base);
      Parsed(if signed && s[i] == '-' then -v else v, e)
  }

  // ---------------------------------------------------------------------
  // Sensor ids in idmap file names
  // ---------------------------------------------------------------------

  /**
   * `name2id(fname, start)`: the sensor id spelled by the two characters of
   * `fname` after `start`, or -1. The name must be exactly two characters
   * longer than `start`, and `strtol` in base 16 must consume both of them
   * (the source's `*end != '\0'` and `end - fname - start != 2` tests
   * coincide for a two-character rest). `errno` is never set by a parse of
   * two characters.
   */
  function Name2Id(fname: string, start: nat): (id: int)
    ensures |fname| != start + 2 ==> id == -1
    ensures -15 <= id < SENSOR_NUM
  {
    if |fname| - start != 2 then -1
    else
      var rest := fname[start..];
      var p := Strtol(rest, 16);
      if p.end != 2 then -1
      else
        Name2IdValue(rest);
        p.value
  }

  /** The value of a full two-character parse lies in -15..255. */
  lemma Name2IdValue(rest: string)
    requires |rest| == 2 && Strtol(rest, 16).end == 2
    ensures -15 <= Strtol(rest, 16).value < SENSOR_NUM
  {
    var i := SkipSpaces(rest, 0);
    var signed := i < |rest| && (rest[i] == '-' || rest[i] == '+');
    var j := if signed then i + 1 else i;
    var e := DigitRunEnd(rest, j, 16);
    assert e == 2;
    if j == 0 {
      assert rest[..2] == rest;
      HexPairValue(rest);
    } else {
      assert j == 1;
      DigitsOne(rest[1..2], 16);
    }
  }

  lemma HexPairValue(s: string)
    requires |s| == 2 && IsDigitOf(s[0], 16) && IsDigitOf(s[1], 16)
    ensures DigitsValue(s, 16) == 16 * DigitValue(s[0]) + DigitValue(s[1])
    ensures DigitsValue(s, 16) < 256
  {
    DigitsOne(s[..1], 16);
  }

  lemma DigitsOne(s: string, base: nat)
    requires |s| == 1 && IsDigitOf(s[0], base)
    ensures DigitsValue(s, base) == DigitValue(s[0])
  {
    assert s[..0] == [];
  }

  /**
   * Every input that `name2id` accepts, spelled out: two hex digits, or a
   * blank or a sign followed by one hex digit. Everything else gives -1.
   */
  function Name2IdCases(fname: string, start: nat): (id: int)
  {
    if |fname| != start + 2 then -1
    else
      var a := fname[start];
      var b := fname[start + 1];
      if !IsDigitOf(b, 16) then -1
      else if IsDigitOf(a, 16) then 16 * DigitValue(a) + DigitValue(b)
      else if IsSpace(a) || a == '+' then DigitValue(b)
      else if a == '-' then -(DigitValue(b) as int)
      else -1
  }

  /** `name2id` agrees with the case table on every input. */
  lemma Name2IdMatchesCases(fname: string, start: nat)
    ensures Name2Id(fname, start) == Name2IdCases(fname, start)
  {
    if |fname| == start + 2 {
      var rest := fname[start..];
      assert rest[0] == fname[start] && rest[1] == fname[start + 1];
      var i := SkipSpaces(rest, 0);
      var signed := i < |rest| && (rest[i] == '-' || rest[i] == '+');
      var j := if signed then i + 1 else i;
      assert Strtol(rest, 16).end == 0 || Strtol(rest, 16).end == DigitRunEnd(rest, j, 16);
      if IsDigitOf(rest[0], 16) {
        assert i == 0 && j == 0;
        if IsDigitOf(rest[1], 16) {
          assert DigitRunEnd(rest, 1, 16) == 2;
          assert rest[0..2] == rest;
          HexPairValue(rest);
        }
      } else if IsSpace(rest[0]) || rest[0] == '+' || rest[0] == '-' {
        if IsSpace(rest[0]) {
          assert i >= 1;
          if i == 1 {
            assert !IsSpace(rest[1]);
          }
        } else {
          assert i == 0 && j == 1;
        }
        if IsDigitOf(rest[1], 16) {
          assert !IsSpace(rest[1]);
          assert i == 1 || (i == 0 && j == 1);
          assert DigitRunEnd(rest, 1, 16) == 2;
          DigitsOne(rest[1..2], 16);
        }
      }
    }
  }

  /** A lower-case hex digit, as `String(i, HEX)` prints it. */
  function LowerHexDigit(d: nat): (c: char)
    requires d < 16
    ensures IsDigitOf(c, 16) && DigitValue(c) == d
  {
    if d < 10 then ('0' as int + d) as char else ('a' as int + d - 10) as char
  }

  /** `String(i, HEX)`: base 16 without leading zeros, lower case. */
  function LowerHex(n: nat): (s: string)
    ensures |s| >= 1
    ensures n < 16 ==> |s| == 1
    ensures 16 <= n < 256 ==> |s| == 2
  {
    if n < 16 then [LowerHexDigit(n)] else LowerHex(n / 16) + [LowerHexDigit(n % 16)]
  }

  const IDMAP_DIR: string := "/idmap/"

  /** The file the name of sensor `i` is saved in, as the source builds it. */
  function IdmapFileName(i: nat): string {
    IDMAP_DIR + (if i < 10 then "0" else "") + LowerHex(i)
  }

  /**
   * The file name as intended: the id is always padded to two hex digits.
   */
  function IdmapFileNamePadded(i: nat): string {
    IDMAP_DIR + (if i < 16 then "0" else "") + LowerHex(i)
  }

  /** The two characters after the directory of a padded name spell `i`. */
  lemma PaddedDigits(i: nat)
    requires i < SENSOR_NUM
    ensures |IdmapFileNamePadded(i)| == |IDMAP_DIR| + 2
    ensures IdmapFileNamePadded(i)[|IDMAP_DIR|] == LowerHexDigit(i / 16)
    ensures IdmapFileNamePadded(i)[|IDMAP_DIR| + 1] == LowerHexDigit(i % 16)
  {
    if i >= 16 {
      assert LowerHex(i) == LowerHex(i / 16) + [LowerHexDigit(i % 16)];
    }
  }

  /** Reading back a padded file name gives the id it was saved under. */
  lemma PaddedNameRoundTrip(i: nat)
    requires i < SENSOR_NUM
    ensures Name2Id(IdmapFileNamePadded(i), |IDMAP_DIR|) == i
  {
    PaddedDigits(i);
    Name2IdMatchesCases(IdmapFileNamePadded(i), |IDMAP_DIR|);
  }

  /**
   * The source's name and the padded one coincide except for ids 10..15;
   * existing files for every other id keep their names.
   */
  lemma FileNamesAgree(i: nat)
    ensures IdmapFileName(i) == IdmapFileNamePadded(i) <==> !(10 <= i < 16)
  {
    if 10 <= i < 16 {
      assert |IdmapFileName(i)| != |IdmapFileNamePadded(i)|;
    }
  }

  /** Every id outside 10..15 survives the round trip through its file name. */
  lemma FileNameRoundTrip(i: nat)
    requires i < SENSOR_NUM && !(10 <= i < 16)
    ensures Name2Id(IdmapFileName(i), |IDMAP_DIR|) == i
  {
    FileNamesAgree(i);
    PaddedNameRoundTrip(i);
  }

  /**
   * Ids 10..15 are saved under a one-digit name ("/idmap/a" .. "/idmap/f"),
   * which `name2id` rejects: their names are lost on the next load.
   */
  lemma FileNameLosesIds10To15(i: nat)
    requires 10 <= i < 16
    ensures Name2Id(IdmapFileName(i), |IDMAP_DIR|) == -1
  {
  }

  // ---------------------------------------------------------------------
  // The sensor id of the configuration form
  // ---------------------------------------------------------------------

  /** `String::toInt`, which is `atol`: `strtol` in base 10, end ignored. */
  function ToInt(s: string): int {
    Strtol(s, 10).value
  }

  /**
   * The guard of the "id" argument of the configuration form: the first
   * character must be a decimal digit (an empty argument reads as NUL and
   * fails), and the number it starts must be below SENSOR_NUM.
   */
  function ConfigId(arg: string): (r: Option<nat>)
    ensures r.Some? <==> |arg| > 0 && '0' <= arg[0] <= '9' && ToInt(arg) < SENSOR_NUM
    ensures r.Some? ==> r.value < SENSOR_NUM && r.value == ToInt(arg)
  {
    if |arg| > 0 && '0' <= arg[0] <= '9' then
      StartsWithDigit(arg);
      var id := ToInt(arg);
      if 0 <= id < SENSOR_NUM then Some(id) else None
    else None
  }

  /** A number that starts with a digit is never negative. */
  lemma StartsWithDigit(s: string)
    requires |s| > 0 && '0' <= s[0] <= '9'
    ensures ToInt(s) >= 0
  {
    assert !IsSpace(s[0]);
    assert SkipSpaces(s, 0) == 0;
  }

  /** A decimal digit character. */
  function DecimalDigit(d: nat): (c: char)
    requires d < 10
    ensures IsDigitOf(c, 10) && DigitValue(c) == d
  {
    ('0' as int + d) as char
  }

  /** The decimal spelling of `n` without leading zeros. */
  function Decimal(n: nat): (s: string)
    ensures |s| >= 1
    ensures forall k :: 0 <= k < |s| ==> IsDigitOf(s[k], 10)
    ensures DigitsValue(s, 10) == n
  {
    if n < 10 then
      DigitsOne([DecimalDigit(n)], 10);
      [DecimalDigit(n)]
    else
      var s := Decimal(n / 10) + [DecimalDigit(n % 10)];
      assert s[..|s| - 1] == Decimal(n / 10);
      s
  }

  /** A run of digits reaches to the end of a string of digits only. */
  lemma {:induction false} DigitRunToEnd(s: string, i: nat, base: nat)
    requires i <= |s|
    requires forall k :: 0 <= k < |s| ==> IsDigitOf(s[k], base)
    ensures DigitRunEnd(s, i, base) == |s|
    decreases |s| - i
  {
    if i < |s| {
      DigitRunToEnd(s, i + 1, base);
    }
  }

  /** `toInt` reads back every decimal number. */
  lemma ToIntDecimal(n: nat)
    ensures ToInt(Decimal(n)) == n
  {
    var s := Decimal(n);
    assert !IsSpace(s[0]) && s[0] != '-' && s[0] != '+';
    assert SkipSpaces(s, 0) == 0;
    DigitRunToEnd(s, 0, 10);
    assert s[0..|s|] == s;
  }

  /**
   * Every sensor id typed in decimal is accepted as itself, and every larger
   * number is refused.
   */
  lemma ConfigIdDecimal(n: nat)
    ensures ConfigId(Decimal(n)) == (if n < SENSOR_NUM then Some(n) else None)
  {
    ToIntDecimal(n);
  }

  /** Leading zeros and characters after the number are ignored. */
  lemma ConfigIdLeadingZeros()
    ensures ConfigId("007") == Some(7)
  {
    var a := "007";
    assert SkipSpaces(a, 0) == 0;
    DigitRunToEnd(a, 0, 10);
    assert a[0..3] == a && a[..2] == "00" && "00"[..1] == "0";
    DigitsOne("0", 10);
  }

  lemma ConfigIdTrailingText()
    ensures ConfigId("12abc") == Some(12)
  {
    var b := "12abc";
    assert SkipSpaces(b, 0) == 0;
    assert DigitRunEnd(b, 2, 10) == 2;
    assert b[0..2] == "12" && "12"[..1] == "1";
    DigitsOne("1", 10);
  }

  lemma ConfigIdRefusesBlankOrSign()
    ensures ConfigId(" 1") == None && ConfigId("+1") == None && ConfigId("") == None
  {
  }

  /** The sensor-name table and the "configuration changed" flag of the web frontend. */
  class ConfigPage {
    var id2name: seq<string>
    var configChanged: bool

    ghost predicate Valid()
      reads this
    {
      |id2name| == SENSOR_NUM
    }

    constructor()
      ensures Valid() && !configChanged
      ensures forall i :: 0 <= i < SENSOR_NUM ==> id2name[i] == ""
    {
      id2name := seq(SENSOR_NUM, _ => "");
      configChanged := false;
    }

    /**
     * The sensor-name part of `handle_config`: with both an "id" and a
     * "name" argument and an id that passes the guard, that id's name is
     * replaced and the configuration is marked changed; otherwise nothing
     * changes.
     */
    method HandleConfig(idArg: Option<string>, nameArg: Option<string>)
      requires Valid()
      modifies this
      ensures Valid()
      ensures idArg.Some? && nameArg.Some? && ConfigId(idArg.value).Some? ==>
                id2name == old(id2name)[ConfigId(idArg.value).value := nameArg.value]
                && configChanged
      ensures !(idArg.Some? && nameArg.Some? && ConfigId(idArg.value).Some?) ==>
                id2name == old(id2name) && configChanged == old(configChanged)
    {
      if idArg.Some? && nameArg.Some? {
        var arg := idArg.value;
        var name := nameArg.value;
        if |arg| > 0 && '0' <= arg[0] <= '9' {
          var id := ToInt(arg);
          if id >= 0 && id < SENSOR_NUM {
            id2name := id2name[id := name];
            configChanged := true;
          }
        }
      }
    }
  }

  // ---------------------------------------------------------------------
  // The table of current readings
  // ---------------------------------------------------------------------

  /**
   * The rate a slot's reading was received at: slots 128..255 at 9579
   * bit/s, 0..127 at 17241 bit/s.
   */
  function SlotRate(i: nat): (rate: int)
    ensures rate == SLOW_RATE || rate == 17241
    ensures rate == SLOW_RATE <==> (i / 0x80) % 2 == 1
    ensures i < SENSOR_NUM ==> (rate == SLOW_RATE <==> i >= 0x80)
  {
    if (i / 0x80) % 2 == 1 then SLOW_RATE else 17241
  }

  /** The slow rate is chosen exactly when bit 7 of the slot number is set. */
  lemma SlotRateBit7(i: nat)
    ensures SlotRate(i) == SLOW_RATE <==> Bit7(ToByte(i))
  {
    ToByteValue(i);
    var q, r := i / 256, i % 256;
    assert i == 256 * q + r;
    assert i / 0x80 == 2 * q + r / 0x80;
    assert (i / 0x80) % 2 == r / 0x80;
  }

  /** One row of the table: the decoded reading and the facts about its slot. */
  datatype Row = Row(
    id: byte,
    temp: int,
    rssi: int8,
    name: string,
    age: uint32,
    batteryLow: bool,
    newBattery: bool,
    raw: Option<string>)

  /** An upper-case hex digit, as `%X` prints it. */
  function UpperHexDigit(d: nat): (c: char)
    requires d < 16
    ensures IsDigitOf(c, 16) && DigitValue(c) == d
    ensures !('a' <= c <= 'f')
  {
    if d < 10 then ('0' as int + d) as char else ('A' as int + d - 10) as char
  }

  /** `%02X` of one byte. */
  function HexByte(b: byte): string {
    var v := b as int;
    [UpperHexDigit(v / 16), UpperHexDigit(v % 16)]
  }

  /** `%02X` of every byte, concatenated. */
  function HexBytes(d: seq<byte>): (s: string)
    ensures |s| == 2 * |d|
  {
    if d == [] then "" else HexBytes(d[..|d| - 1]) + HexByte(d[|d| - 1])
  }

  /** The raw-frame column: "0x" and two hex digits per byte. */
  function RawColumn(d: seq<byte>): string {
    "0x" + HexBytes(d)
  }

  /** Each pair of digits of the raw column reads back as its byte. */
  lemma {:induction false} HexBytesReadBack(d: seq<byte>)
    ensures forall k :: 0 <= k < |d| ==>
              IsDigitOf(HexBytes(d)[2 * k], 16) && IsDigitOf(HexBytes(d)[2 * k + 1], 16)
              && 16 * DigitValue(HexBytes(d)[2 * k]) + DigitValue(HexBytes(d)[2 * k + 1]) == d[k] as int
  {
    if d != [] {
      var init := d[..|d| - 1];
      HexBytesReadBack(init);
      forall k | 0 <= k < |d|
        ensures IsDigitOf(HexBytes(d)[2 * k], 16) && IsDigitOf(HexBytes(d)[2 * k + 1], 16)
                && 16 * DigitValue(HexBytes(d)[2 * k]) + DigitValue(HexBytes(d)[2 * k + 1]) == d[k] as int
      {
        if k < |init| {
          assert HexBytes(d)[2 * k] == HexBytes(init)[2 * k];
          assert HexBytes(d)[2 * k + 1] == HexBytes(init)[2 * k + 1];
          assert init[k] == d[k];
        }
      }
    }
  }

  /** The raw column of a frame is "0x" and ten hex digits that spell its bytes. */
  lemma RawColumnSpellsFrame(d: FrameBytes)
    ensures |RawColumn(d)| == 2 + 2 * FRAME_LENGTH
    ensures RawColumn(d)[..2] == "0x"
    ensures forall k :: 0 <= k < FRAME_LENGTH ==>
              16 * DigitValue(RawColumn(d)[2 + 2 * k]) + DigitValue(RawColumn(d)[3 + 2 * k]) == d[k] as int
  {
    HexBytesReadBack(d);
    forall k | 0 <= k < FRAME_LENGTH
      ensures 16 * DigitValue(RawColumn(d)[2 + 2 * k]) + DigitValue(RawColumn(d)[3 + 2 * k]) == d[k] as int
    {
      assert RawColumn(d)[2 + 2 * k] == HexBytes(d)[2 * k];
      assert RawColumn(d)[3 + 2 * k] == HexBytes(d)[2 * k + 1];
    }
  }

  /** A slot is shown when it was ever written and its frame passes the checks. */
  predicate Shown(e: CacheEntry, i: nat) {
    e.timestamp != 0 && TryHandleData(e.data, SlotRate(i)).0
  }

  /** The row the table shows for slot `i`. */
  function RowOf(e: CacheEntry, i: nat, names: seq<string>, now: uint32, rawdata: bool): Row
    requires |names| == SENSOR_NUM
  {
    var f := TryHandleData(e.data, SlotRate(i)).1;
    Row(f.id, f.temp, e.rssi, names[f.id as int], (now - e.timestamp) % 0x1_0000_0000,
        f.batlo, f.init, if rawdata then Some(RawColumn(e.data)) else None)
  }

  /** The slots below `n` that the table shows, in increasing order. */
  function ShownSlots(cache: seq<CacheEntry>, n: nat): (slots: seq<nat>)
    requires n <= |cache|
    ensures forall k :: 0 <= k < |slots| ==> slots[k] < n && Shown(cache[slots[k]], slots[k])
    ensures forall i :: 0 <= i < n && Shown(cache[i], i) ==> i in slots
    ensures forall k, l :: 0 <= k < l < |slots| ==> slots[k] < slots[l]
  {
    if n == 0 then []
    else ShownSlots(cache, n - 1) + (if Shown(cache[n - 1], n - 1) then [n - 1] else [])
  }

  /** The rows for the slots below `n`, slot by slot. */
  function TableRows(cache: seq<CacheEntry>, n: nat, names: seq<string>, now: uint32, rawdata: bool): seq<Row>
    requires n <= |cache| && |names| == SENSOR_NUM
  {
    if n == 0 then []
    else
      TableRows(cache, n - 1, names, now, rawdata)
      + (if Shown(cache[n - 1], n - 1) then [RowOf(cache[n - 1], n - 1, names, now, rawdata)] else [])
  }

  /** The table has exactly one row per shown slot, in slot order. */
  lemma {:induction false} TableRowsFollowShownSlots(cache: seq<CacheEntry>, n: nat, names: seq<string>,
                                                     now: uint32, rawdata: bool)
    requires n <= |cache| && |names| == SENSOR_NUM
    ensures |TableRows(cache, n, names, now, rawdata)| == |ShownSlots(cache, n)|
    ensures forall k :: 0 <= k < |ShownSlots(cache, n)| ==>
              TableRows(cache, n, names, now, rawdata)[k]
              == RowOf(cache[ShownSlots(cache, n)[k]], ShownSlots(cache, n)[k], names, now, rawdata)
  {
    if n > 0 {
      TableRowsFollowShownSlots(cache, n - 1, names, now, rawdata);
    }
  }

  /**
   * The row of a shown slot: a valid frame, whose id is in the slot's half
   * of the table (128 and up exactly for the slots read at 9579 bit/s), with
   * the name stored for that id and the time since the slot was written,
   * modulo 2^32.
   */
  lemma RowOfShownSlot(e: CacheEntry, i: nat, names: seq<string>, now: uint32, rawdata: bool)
    requires i < SENSOR_NUM && |names| == SENSOR_NUM && Shown(e, i)
    ensures FrameChecksPass(e.data)
    ensures RowOf(e, i, names, now, rawdata).id as int >= 128 <==> i >= 128
    ensures RowOf(e, i, names, now, rawdata).name == names[RowOf(e, i, names, now, rawdata).id as int]
    ensures (RowOf(e, i, names, now, rawdata).age + e.timestamp) % 0x1_0000_0000 == now
    ensures rawdata <==> RowOf(e, i, names, now, rawdata).raw.Some?
  {
    IdDecomposes(e.data, SlotRate(i));
  }

  /** The raw-frame cell: "0x", then `%02X` of each byte in turn. */
  method FormatRaw(data: FrameBytes) returns (s: string)
    ensures s == RawColumn(data)
  {
    s := "0x";
    for j := 0 to FRAME_LENGTH
      invariant s == "0x" + HexBytes(data[..j])
    {
      assert data[..j + 1][..j] == data[..j];
      s := s + HexByte(data[j]);
    }
    assert data[..FRAME_LENGTH] == data;
  }

  /**
   * The loop of `add_current_table` over the first `slots` cache slots:
   * skip slots never written, decode the frame at the rate of the slot's
   * half, skip invalid frames, and emit a row, with the raw bytes in hex
   * when `rawdata` is set.
   */
  method CollectRows(fcache: array<CacheEntry>, names: seq<string>, now: uint32, rawdata: bool, slots: nat)
    returns (rows: seq<Row>)
    requires slots <= fcache.Length && |names| == SENSOR_NUM
    ensures rows == TableRows(fcache[..], slots, names, now, rawdata)
  {
    rows := [];
    for i := 0 to slots
      invariant rows == TableRows(fcache[..], i, names, now, rawdata)
    {
      var e := fcache[i];
      if e.timestamp == 0 {
        continue;
      }
      SlotRateBit7(i);
      var rate := if Bit7(ToByte(i)) then 9579 else 17241;
      var handled := TryHandleData(e.data, rate);
      if !handled.0 {
        continue;
      }
      var f := handled.1;
      var raw: Option<string> := None;
      if rawdata {
        var s := FormatRaw(e.data);
        raw := Some(s);
      }
      rows := rows + [Row(f.id, f.temp, e.rssi, names[f.id as int], (now - e.timestamp) % 0x1_0000_0000,
                          f.batlo, f.init, raw)];
    }
  }

  /** `add_current_table` as written: slots 0..254. */
  method AddCurrentTable(fcache: array<CacheEntry>, names: seq<string>, now: uint32, rawdata: bool)
    returns (rows: seq<Row>)
    requires fcache.Length == SENSOR_NUM && |names| == SENSOR_NUM
    ensures rows == TableRows(fcache[..], 255, names, now, rawdata)
  {
    rows := CollectRows(fcache, names, now, rawdata, 255);
  }

  /** `add_current_table` as intended: every slot of the cache. */
  method AddCurrentTableAllSlots(fcache: array<CacheEntry>, names: seq<string>, now: uint32, rawdata: bool)
    returns (rows: seq<Row>)
    requires fcache.Length == SENSOR_NUM && |names| == SENSOR_NUM
    ensures rows == TableRows(fcache[..], SENSOR_NUM, names, now, rawdata)
  {
    rows := CollectRows(fcache, names, now, rawdata, SENSOR_NUM);
  }

  /** The table shows a row for a slot exactly when that slot is shown. */
  lemma AllSlotsShowEveryReading(cache: seq<CacheEntry>, i: nat)
    requires |cache| == SENSOR_NUM && i < SENSOR_NUM
    ensures i in ShownSlots(cache, SENSOR_NUM) <==> Shown(cache[i], i)
  {
  }

  /** As written, the table never depends on slot 255. */
  lemma {:induction false} TableIgnoresSlot255(c: seq<CacheEntry>, d: seq<CacheEntry>, n: nat,
                                               names: seq<string>, now: uint32, rawdata: bool)
    requires |c| == |d| == SENSOR_NUM && n <= 255 && |names| == SENSOR_NUM
    requires forall i :: 0 <= i < 255 ==> c[i] == d[i]
    ensures TableRows(c, n, names, now, rawdata) == TableRows(d, n, names, now, rawdata)
  {
    if n > 0 {
      TableIgnoresSlot255(c, d, n - 1, names, now, rawdata);
    }
  }

  /** A valid reading of sensor 255 (received at 9579 bit/s), stored in slot 255. */
  const SLOT255_FRAME: FrameBytes := [0x9F, 0xC6, 0x05, 0x7D, 0x06]

  function OnlySlot255(): (c: seq<CacheEntry>)
    ensures |c| == SENSOR_NUM
    ensures forall i :: 0 <= i < SENSOR_NUM ==> c[i].data == SLOT255_FRAME && (c[i].timestamp == 0 <==> i != 255)
  {
    seq(SENSOR_NUM, i => CacheEntry(if i == 255 then 1 else 0, SLOT255_FRAME, -60))
  }

  /**
   * The frame in slot 255 passes the checksum and, read at 9579 bit/s,
   * belongs to sensor 255: base 63 with the second-channel humidity marker.
   */
  lemma Slot255FrameValid()
    ensures FrameChecksPass(SLOT255_FRAME)
    ensures DecodeFrame(SLOT255_FRAME, SLOW_RATE)
            == Frame(id := 255, init := false, batlo := false, humi := 125, temp := 205,
                     rate := SLOW_RATE, valid := true)
  {
    var p4: seq<byte> := [0x9F, 0xC6, 0x05, 0x7D];
    var p3: seq<byte> := [0x9F, 0xC6, 0x05];
    var p2: seq<byte> := [0x9F, 0xC6];
    var p1: seq<byte> := [0x9F];
    assert SLOT255_FRAME[..4] == p4 && p4[..3] == p3 && p3[..2] == p2 && p2[..1] == p1 && p1[..0] == [];
    CrcUpdateIsTableLookup(0x00, 0x9F);
    assert Crc(p1) == 0x17;
    CrcUpdateIsTableLookup(0x17, 0xC6);
    assert Crc(p2) == 0x35;
    CrcUpdateIsTableLookup(0x35, 0x05);
    assert Crc(p3) == 0xC5;
    CrcUpdateIsTableLookup(0xC5, 0x7D);
    assert Crc(p4) == 0x06;
    DecodedValid(SLOT255_FRAME, SLOW_RATE);
  }

  /** A cache whose first reading sits in slot `n` shows nothing below `n`, then `n`. */
  lemma FirstShownSlot(c: seq<CacheEntry>, n: nat)
    requires n < |c| && Shown(c[n], n)
    requires forall i :: 0 <= i < n ==> c[i].timestamp == 0
    ensures ShownSlots(c, n) == []
    ensures |ShownSlots(c, n + 1)| == 1 && ShownSlots(c, n + 1)[0] == n
  {
    NothingWrittenNothingShown(c, n);
  }

  /** Slots that were never written contribute no rows. */
  lemma {:induction false} NothingWrittenNothingShown(c: seq<CacheEntry>, n: nat)
    requires n <= |c|
    requires forall i :: 0 <= i < n ==> c[i].timestamp == 0
    ensures ShownSlots(c, n) == []
  {
    if n > 0 {
      NothingWrittenNothingShown(c, n - 1);
    }
  }

  lemma OnlySlot255Shown()
    ensures Shown(OnlySlot255()[255], 255)
  {
    Slot255FrameValid();
    assert OnlySlot255()[255].data == SLOT255_FRAME;
  }

  /**
   * A cache whose only reading sits in slot 255 gives an empty table as
   * written, and one row in the table over all slots.
   */
  lemma Slot255Missing(names: seq<string>, now: uint32)
    requires |names| == SENSOR_NUM
    ensures TableRows(OnlySlot255(), 255, names, now, false) == []
    ensures |TableRows(OnlySlot255(), SENSOR_NUM, names, now, false)| == 1
  {
    OnlySlot255Shown();
    FirstShownSlot(OnlySlot255(), 255);
    TableRowsFollowShownSlots(OnlySlot255(), 255, names, now, false);
    TableRowsFollowShownSlots(OnlySlot255(), SENSOR_NUM, names, now, false);
  }
}
