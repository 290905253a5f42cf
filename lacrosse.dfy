/**
 * The LaCrosse frame decoder and its CRC-8 (lacrosse.cpp).
 *
 * Frame layout, five bytes:
 *   SSSS.DDDD DDN_.TTTT TTTT.TTTT WHHH.HHHH CCCC.CCCC
 * S start nibble (0x9), D sensor id, N new battery, T BCD temperature,
 * W weak battery, H humidity (125 marks a second temperature channel),
 * C CRC-8 of the first four bytes.
 */
module LaCrosse {
  import opened Globals

  const CRC_POLYNOMIAL: byte := 0x31

  /** The data rate of slow sensors; frames captured at it get id bit 7. */
  const SLOW_RATE: int := 9579

  /** Humidity value that marks a sensor's second temperature channel. */
  const SECOND_CHANNEL_HUMIDITY: int := 125

  /**
   * A decoded frame (`struct LaCrosse::Frame`). The temperature is kept in
   * tenths of a degree Celsius instead of the source's float.
   */
  datatype Frame = Frame(
    id: byte,
    init: bool,
    batlo: bool,
    humi: int,
    temp: int,
    rate: int,
    valid: bool)

  // ---------------------------------------------------------------------------
  // CRC-8, polynomial 0x31, most significant bit first, initial value 0
  // ---------------------------------------------------------------------------

  /** One pass of the loop in UpdateCRC: test bit 7 of res^val, shift, reduce. */
  function CrcStep(res: byte, val: byte): byte {
    if (res ^ val) & 0x80 != 0 then (res << 1) ^ CRC_POLYNOMIAL else res << 1
  }

  /** The register after the first n passes of UpdateCRC's loop on (res, val). */
  function CrcSteps(res: byte, val: byte, n: nat): byte
    decreases n
  {
    if n == 0 then res else CrcSteps(CrcStep(res, val), val << 1, n - 1)
  }

  /** UpdateCRC: feed one byte into the CRC register. */
  function CrcUpdate(res: byte, val: byte): byte {
    CrcSteps(res, val, 8)
  }

  /** CalculateCRC: the left fold of CrcUpdate from 0 over the bytes. */
  function Crc(data: seq<byte>): byte {
    if |data| == 0 then 0 else CrcUpdate(Crc(data[..|data| - 1]), data[|data| - 1])
  }

  /** LaCrosse::UpdateCRC, eight shift-and-reduce steps over local copies of res and val. */
  method UpdateCrc(res: byte, val: byte) returns (r: byte)
    ensures r == CrcUpdate(res, val)
  {
    r := res;
    var v := val;
    for i := 0 to 8
      invariant CrcSteps(r, v, 8 - i) == CrcUpdate(res, val)
    {
      var tmp := (r ^ v) & 0x80;
      r := r << 1;
      if tmp != 0 {
        r := r ^ CRC_POLYNOMIAL;
      }
      v := v << 1;
    }
  }

  /** LaCrosse::CalculateCRC over data[0..len). */
  method CalculateCrc(data: seq<byte>, len: byte) returns (r: byte)
    requires len as int <= |data|
    ensures r == Crc(data[..len])
  {
    r := 0;
    for j := 0 to len as int
      invariant r == Crc(data[..j])
    {
      r := UpdateCrc(r, data[j]);
      assert data[..j + 1][..j] == data[..j];
    }
  }

  // --- algebra of the CRC register -------------------------------------------

  /** One pass of UpdateCRC's loop with input 0: multiply the register by x modulo the polynomial. */
  function MulX(u: byte): byte {
    CrcStep(u, 0)
  }

  /** n passes with input 0: multiply by x^n modulo the polynomial. */
  function MulXPow(u: byte, n: nat): byte
    decreases n
  {
    if n == 0 then u else MulXPow(MulX(u), n - 1)
  }

  /** The input byte as UpdateCRC's loop holds it after n passes. */
  function Shifted(val: byte, n: nat): byte
    decreases n
  {
    if n == 0 then val else Shifted(val << 1, n - 1)
  }

  /** The entry of a table-driven CRC-8 for index u: u times x^8 modulo the polynomial. */
  function Table(u: byte): byte {
    MulXPow(u, 8)
  }

  lemma MulXCases(u: byte)
    ensures u & 0x80 != 0 ==> MulX(u) == (u << 1) ^ CRC_POLYNOMIAL
    ensures u & 0x80 == 0 ==> MulX(u) == u << 1
  {
    assert u ^ 0 == u;
  }

  lemma ShiftXor(a: byte, b: byte)
    ensures (a ^ b) << 1 == (a << 1) ^ (b << 1)
  {
  }

  /** One pass on (s, v) leaves s ^ v multiplied by x, once the shifted input is xored back in. */
  lemma StepFold(s: byte, v: byte, t: byte)
    requires s ^ v == t
    ensures CrcStep(s, v) ^ (v << 1) == MulX(t)
  {
    MulXCases(t);
    ShiftXor(s, v);
    assert (s ^ v) & 0x80 == t & 0x80;
  }

  lemma {:induction false} CrcStepsFold(s: byte, v: byte, t: byte, n: nat)
    requires s ^ v == t
    decreases n
    ensures CrcSteps(s, v, n) ^ Shifted(v, n) == MulXPow(t, n)
  {
    if n > 0 {
      var s1, v1, t1 := CrcStep(s, v), v << 1, MulX(t);
      StepFold(s, v, t);
      CrcStepsFold(s1, v1, t1, n - 1);
      assert CrcSteps(s, v, n) == CrcSteps(s1, v1, n - 1);
      assert Shifted(v, n) == Shifted(v1, n - 1);
      assert MulXPow(t, n) == MulXPow(t1, n - 1);
    }
  }

  /** After eight passes every bit of the input byte has been shifted out. */
  lemma ShiftedOut(val: byte)
    ensures Shifted(val, 8) == 0
  {
    var v1 := val << 1;
    var v2 := v1 << 1;
    var v3 := v2 << 1;
    var v4 := v3 << 1;
    var v5 := v4 << 1;
    var v6 := v5 << 1;
    var v7 := v6 << 1;
    assert Shifted(val, 8) == Shifted(v1, 7) == Shifted(v2, 6) == Shifted(v3, 5) == Shifted(v4, 4)
        == Shifted(v5, 3) == Shifted(v6, 2) == Shifted(v7, 1) == v7 << 1 == 0;
  }

  /**
   * UpdateCRC depends only on res ^ val: it is the table entry for res ^ val,
   * which is how table-driven CRC-8 implementations compute the same value.
   */
  lemma CrcUpdateIsTableLookup(res: byte, val: byte)
    ensures CrcUpdate(res, val) == Table(res ^ val)
  {
    CrcStepsFold(res, val, res ^ val, 8);
    ShiftedOut(val);
  }

  /** The polynomial has bit 0 set, so multiplying by x loses no information. */
  lemma MulXInjective(a: byte, b: byte)
    ensures MulX(a) == MulX(b) ==> a == b
  {
    MulXCases(a);
    MulXCases(b);
  }

  lemma {:induction false} MulXPowInjective(a: byte, b: byte, n: nat)
    decreases n
    ensures MulXPow(a, n) == MulXPow(b, n) ==> a == b
  {
    if n > 0 {
      MulXPowInjective(MulX(a), MulX(b), n - 1);
      MulXInjective(a, b);
    }
  }

  /** Two updates agree exactly when their res ^ val agree. */
  lemma CrcUpdateInjective(r1: byte, v1: byte, r2: byte, v2: byte)
    ensures CrcUpdate(r1, v1) == CrcUpdate(r2, v2) <==> r1 ^ v1 == r2 ^ v2
  {
    CrcUpdateIsTableLookup(r1, v1);
    CrcUpdateIsTableLookup(r2, v2);
    MulXPowInjective(r1 ^ v1, r2 ^ v2, 8);
  }

  /** Feeding the same byte into two different registers keeps them different. */
  lemma CrcUpdateKeepsDifference(r1: byte, r2: byte, v: byte)
    ensures CrcUpdate(r1, v) == CrcUpdate(r2, v) ==> r1 == r2
  {
    CrcUpdateInjective(r1, v, r2, v);
  }

  /** Feeding two different bytes into the same register gives different results. */
  lemma CrcUpdateSeparatesBytes(r: byte, v1: byte, v2: byte)
    ensures CrcUpdate(r, v1) == CrcUpdate(r, v2) ==> v1 == v2
  {
    CrcUpdateInjective(r, v1, r, v2);
  }

  /** Two messages that differ only in their last byte have different CRCs. */
  lemma CrcLastByteDiffers(a: seq<byte>, b: seq<byte>)
    requires |a| == |b| > 0
    requires a[..|a| - 1] == b[..|b| - 1] && a[|a| - 1] != b[|b| - 1]
    ensures Crc(a) != Crc(b)
  {
    CrcUpdateSeparatesBytes(Crc(a[..|a| - 1]), a[|a| - 1], b[|b| - 1]);
  }

  /** Appending the same byte to two messages with different CRCs keeps the CRCs different. */
  lemma CrcDifferencePersists(a: seq<byte>, b: seq<byte>)
    requires |a| == |b| > 0
    requires Crc(a[..|a| - 1]) != Crc(b[..|b| - 1]) && a[|a| - 1] == b[|b| - 1]
    ensures Crc(a) != Crc(b)
  {
    CrcUpdateKeepsDifference(Crc(a[..|a| - 1]), Crc(b[..|b| - 1]), a[|a| - 1]);
  }

  /** Any corruption confined to one byte changes the CRC. */
  lemma {:induction false} CrcDetectsByteError(a: seq<byte>, b: seq<byte>, k: nat)
    requires |a| == |b| && k < |a|
    requires a[k] != b[k]
    requires forall j :: 0 <= j < |a| && j != k ==> a[j] == b[j]
    ensures Crc(a) != Crc(b)
  {
    var n := |a|;
    if k == n - 1 {
      assert a[..n - 1] == b[..n - 1];
      CrcLastByteDiffers(a, b);
    } else {
      CrcDetectsByteError(a[..n - 1], b[..n - 1], k);
      CrcDifferencePersists(a, b);
    }
  }

  /** Flipping any single bit of the data changes the CRC. */
  lemma CrcDetectsSingleBitFlip(data: seq<byte>, k: nat, bit: nat)
    requires k < |data| && bit < 8
    ensures Crc(data[k := data[k] ^ (1 << bit)]) != Crc(data)
  {
    var flipped := data[k := data[k] ^ (1 << bit)];
    assert (1 as byte) << bit != 0;
    CrcDetectsByteError(flipped, data, k);
  }

  // ---------------------------------------------------------------------------
  // Frame decoding
  // ---------------------------------------------------------------------------

  // The masks and shifts DecodeFrame applies, each with what it computes on
  // the byte's value. A mask is first rewritten as shifts, whose arithmetic
  // meaning is stated separately.

  lemma MaskLow4(b: byte)
    ensures b & 0xF == (b << 4) >> 4
  {
  }

  lemma LowBits4(b: byte)
    ensures ((b << 4) >> 4) as int == b as int % 16
  {
  }

  lemma MaskLow7(b: byte)
    ensures b & 0x7F == (b << 1) >> 1
  {
  }

  lemma LowBits7(b: byte)
    ensures ((b << 1) >> 1) as int == b as int % 128
  {
  }

  lemma HighBits4(b: byte)
    ensures (b & 0xF0) >> 4 == b >> 4
    ensures (b >> 4) as int == b as int / 16
  {
  }

  lemma HighBits5(b: byte)
    ensures b & 0x20 != 0 <==> (b >> 5) & 1 == 1
    ensures (b >> 5) as int == b as int / 32
  {
  }

  lemma HighBits6(b: byte)
    ensures (b & 0xC0) >> 6 == b >> 6
    ensures (b >> 6) as int == b as int / 64
  {
  }

  lemma LowestBit(x: byte)
    ensures x & 1 == 1 <==> x as int % 2 == 1
  {
  }

  lemma ShiftLeft2(x: byte)
    requires x < 16
    ensures (x << 2) as int == 4 * x as int
  {
  }

  lemma DisjointOr2(x: byte, y: byte)
    requires x & 3 == 0 && y < 4
    ensures (x | y) as int == x as int + y as int
  {
  }

  /** `b & 0xF`: the low nibble. */
  function LowNibble(b: byte): (r: byte)
    ensures r as int == b as int % 16
  {
    MaskLow4(b);
    LowBits4(b);
    b & 0xF
  }

  /** `(b & 0xF0) >> 4`: the high nibble. */
  function HighNibble(b: byte): (r: byte)
    ensures r as int == b as int / 16
  {
    HighBits4(b);
    (b & 0xF0) >> 4
  }

  /** `b & 0x7F`: the low seven bits. */
  function Low7(b: byte): (r: byte)
    ensures r as int == b as int % 128
  {
    MaskLow7(b);
    LowBits7(b);
    b & 0x7F
  }

  /** `b & 0x80 != 0`: the top bit. */
  predicate Bit7(b: byte)
    ensures Bit7(b) <==> b as int >= 128
  {
    b & 0x80 != 0
  }

  /** `b & 0x20 != 0`: bit 5. */
  predicate Bit5(b: byte)
    ensures Bit5(b) <==> (b as int / 32) % 2 == 1
  {
    HighBits5(b);
    LowestBit(b >> 5);
    b & 0x20 != 0
  }

  /** `(b & 0xF0) == 0x90`: the start nibble is 9. */
  predicate StartNibbleOk(b: byte)
    ensures StartNibbleOk(b) <==> b as int / 16 == 9
  {
    b & 0xF0 == 0x90
  }

  /** `((b0 & 0xF) << 2) | ((b1 & 0xC0) >> 6)`: the low nibble of b0 above the top two bits of b1. */
  function BaseIdBits(b0: byte, b1: byte): (base: byte)
    ensures base as int == 4 * (b0 as int % 16) + b1 as int / 64
  {
    var hi := (b0 & 0xF) << 2;
    var lo := (b1 & 0xC0) >> 6;
    MaskLow4(b0);
    LowBits4(b0);
    ShiftLeft2(b0 & 0xF);
    HighBits6(b1);
    DisjointOr2(hi, lo);
    hi | lo
  }

  /** `base | channel | slow` with the channel marker 0x40 and the slow-rate marker 0x80. */
  function SensorId(base: byte, channel: bool, slow: bool): (id: byte)
    requires base as int < 64
    ensures id as int == base as int + (if channel then 64 else 0) + (if slow then 128 else 0)
  {
    var c: byte := if channel then 0x40 else 0;
    var s: byte := if slow then 0x80 else 0;
    base | c | s
  }

  /** The 6-bit base id carried in the frame, before the channel and rate bits. */
  function BaseId(bytes: seq<byte>): (base: int)
    requires |bytes| >= 2
    ensures 0 <= base < 64
  {
    4 * ((bytes[0] as int) % 16) + (bytes[1] as int) / 64
  }

  /** The CRC and start-nibble checks that decide whether a frame is valid. */
  predicate FrameChecksPass(bytes: seq<byte>)
    requires |bytes| >= FRAME_LENGTH
  {
    bytes[4] == Crc(bytes[..4]) && (bytes[0] as int) / 16 == 9
  }

  /**
   * LaCrosse::DecodeFrame on bytes captured at data rate `rate`. Every field
   * is filled whether or not the frame is valid.
   */
  function DecodeFrame(bytes: seq<byte>, rate: int): (f: Frame)
    requires |bytes| >= FRAME_LENGTH
    ensures f.rate == rate
  {
    var humi := Low7(bytes[3]);
    Frame(
      id := SensorId(BaseIdBits(bytes[0], bytes[1]), humi == 0x7D, rate == SLOW_RATE),
      init := Bit5(bytes[1]),
      batlo := Bit7(bytes[3]),
      humi := humi as int,
      temp := LowNibble(bytes[1]) as int * 100 + HighNibble(bytes[2]) as int * 10
              + LowNibble(bytes[2]) as int - 400,
      rate := rate,
      valid := bytes[4] == Crc(bytes[..FRAME_LENGTH - 1]) && StartNibbleOk(bytes[0]))
  }

  /** Humidity is the low seven bits of byte 3, the weak-battery flag its top bit, the new-battery flag bit 5 of byte 1. */
  lemma DecodedFields(bytes: seq<byte>, rate: int)
    requires |bytes| >= FRAME_LENGTH
    ensures DecodeFrame(bytes, rate).humi == (bytes[3] as int) % 128
    ensures DecodeFrame(bytes, rate).batlo <==> bytes[3] as int >= 128
    ensures DecodeFrame(bytes, rate).init <==> ((bytes[1] as int) / 32) % 2 == 1
  {
  }

  /** A decoded frame is valid exactly when the CRC byte matches and the start nibble is 9. */
  lemma DecodedValid(bytes: seq<byte>, rate: int)
    requires |bytes| >= FRAME_LENGTH
    ensures DecodeFrame(bytes, rate).valid <==> FrameChecksPass(bytes)
  {
  }

  /**
   * The sensor id of a decoded frame: the base id, plus 64 when the humidity
   * field carries the second-channel marker, plus 128 at the slow data rate.
   */
  lemma DecodedId(bytes: seq<byte>, rate: int)
    requires |bytes| >= FRAME_LENGTH
    ensures DecodeFrame(bytes, rate).id as int
            == BaseId(bytes)
               + (if (bytes[3] as int) % 128 == SECOND_CHANNEL_HUMIDITY then 64 else 0)
               + (if rate == SLOW_RATE then 128 else 0)
  {
  }

  /** The temperature of a decoded frame: three BCD digits in tenths of a degree, offset by 40 degrees. */
  lemma DecodedTemp(bytes: seq<byte>, rate: int)
    requires |bytes| >= FRAME_LENGTH
    ensures DecodeFrame(bytes, rate).temp
            == 100 * ((bytes[1] as int) % 16) + 10 * ((bytes[2] as int) / 16) + (bytes[2] as int) % 16 - 400
  {
  }

  /** LaCrosse::TryHandleData: decode into the frame and report its validity. */
  function TryHandleData(data: seq<byte>, rate: int): (r: (bool, Frame))
    requires |data| >= FRAME_LENGTH
    ensures r.0 <==> FrameChecksPass(data)
    ensures r.1.rate == rate && r.1.valid == r.0
  {
    DecodedValid(data, rate);
    var f := DecodeFrame(data, rate);
    (f.valid, f)
  }

  /** The gate of LaCrosse::DisplayFrame: only valid frames are shown. */
  function DisplayFrame(f: Frame): bool {
    f.valid
  }

  // --- properties of the decoder ----------------------------------------------

  /** A frame shown by DisplayFrame has passed the CRC and start-nibble checks, and conversely. */
  lemma DisplayedIffChecksPass(data: seq<byte>, rate: int)
    requires |data| >= FRAME_LENGTH
    ensures DisplayFrame(TryHandleData(data, rate).1)
            <==> data[4] == Crc(data[..4]) && data[0] & 0xF0 == 0x90
  {
  }

  /** Ranges of the decoded fields, for every input. */
  lemma FieldRanges(bytes: seq<byte>, rate: int)
    requires |bytes| >= FRAME_LENGTH
    ensures 0 <= DecodeFrame(bytes, rate).humi <= 127
    ensures -400 <= DecodeFrame(bytes, rate).temp <= 1265
    ensures DecodeFrame(bytes, rate).id as int < SENSOR_NUM
  {
  }

  /** Appending the CRC of four bytes gives a frame that is valid exactly when the start nibble is 9. */
  lemma CrcRoundTrip(payload: seq<byte>, rate: int)
    requires |payload| == 4
    ensures DecodeFrame(payload + [Crc(payload)], rate).valid <==> payload[0] >> 4 == 9
  {
    assert (payload + [Crc(payload)])[..4] == payload;
  }

  /** Flipping any one bit of a valid frame makes it invalid. */
  lemma SingleBitFlipInvalidates(bytes: seq<byte>, rate: int, k: nat, bit: nat)
    requires |bytes| == FRAME_LENGTH
    requires DecodeFrame(bytes, rate).valid
    requires k < FRAME_LENGTH && bit < 8
    ensures !DecodeFrame(bytes[k := bytes[k] ^ (1 << bit)], rate).valid
  {
    var flipped := bytes[k := bytes[k] ^ (1 << bit)];
    assert (1 as byte) << bit != 0;
    if k < 4 {
      assert flipped[..4] == bytes[..4][k := bytes[k] ^ (1 << bit)];
      CrcDetectsSingleBitFlip(bytes[..4], k, bit);
    }
  }

  /** Frames that differ only in the humidity channel marker get ids exactly 64 apart. */
  lemma ChannelBitPartition(a: seq<byte>, b: seq<byte>, rate: int)
    requires |a| == |b| == FRAME_LENGTH
    requires a[0] == b[0] && a[1] == b[1] && a[2] == b[2]
    requires (a[3] as int) % 128 == SECOND_CHANNEL_HUMIDITY
    requires (b[3] as int) % 128 != SECOND_CHANNEL_HUMIDITY
    ensures DecodeFrame(a, rate).id as int == DecodeFrame(b, rate).id as int + 64
  {
  }

  /** A frame decoded at the slow rate gets an id exactly 128 above the same frame at the fast rate. */
  lemma RateBitPartition(bytes: seq<byte>)
    requires |bytes| >= FRAME_LENGTH
    ensures DecodeFrame(bytes, SLOW_RATE).id as int == DecodeFrame(bytes, 17241).id as int + 128
  {
  }

  /** An id built from a 6-bit base and the two marker bits gives each of them back. */
  lemma IdBitsSplit(base: int, channel: bool, slow: bool)
    requires 0 <= base < 64
    ensures var id := base + (if channel then 64 else 0) + (if slow then 128 else 0);
      && id % 64 == base
      && ((id / 64) % 2 == 1 <==> channel)
      && (id >= 128 <==> slow)
  {
  }

  /** The id splits back into base id, channel bit and rate bit. */
  lemma IdDecomposes(bytes: seq<byte>, rate: int)
    requires |bytes| >= FRAME_LENGTH
    ensures DecodeFrame(bytes, rate).id as int % 64 == BaseId(bytes)
    ensures (DecodeFrame(bytes, rate).id as int / 64) % 2 == 1
            <==> DecodeFrame(bytes, rate).humi == SECOND_CHANNEL_HUMIDITY
    ensures DecodeFrame(bytes, rate).id as int >= 128 <==> rate == SLOW_RATE
  {
    DecodedId(bytes, rate);
    DecodedFields(bytes, rate);
    var f := DecodeFrame(bytes, rate);
    IdBitsSplit(BaseId(bytes), f.humi == SECOND_CHANNEL_HUMIDITY, rate == SLOW_RATE);
  }

  /** Every field but the validity flag is the same whatever the CRC byte holds. */
  lemma FieldsIgnoreCrcByte(a: seq<byte>, b: seq<byte>, rate: int)
    requires |a| == |b| == FRAME_LENGTH
    requires a[..4] == b[..4]
    ensures DecodeFrame(a, rate).(valid := false) == DecodeFrame(b, rate).(valid := false)
  {
    assert a[0] == b[0] && a[1] == b[1] && a[2] == b[2] && a[3] == b[3];
  }

  /** The frame 9A 2D 43 38 with its CRC 4E, decoded at the fast rate. */
  lemma ExampleFrame()
    ensures Crc([0x9A, 0x2D, 0x43, 0x38]) == 0x4E
    ensures DecodeFrame([0x9A, 0x2D, 0x43, 0x38, 0x4E], 17241)
            == Frame(id := 40, init := true, batlo := false, humi := 56, temp := 943,
                     rate := 17241, valid := true)
  {
    var data: seq<byte> := [0x9A, 0x2D, 0x43, 0x38, 0x4E];
    var p4: seq<byte> := [0x9A, 0x2D, 0x43, 0x38];
    var p3: seq<byte> := [0x9A, 0x2D, 0x43];
    var p2: seq<byte> := [0x9A, 0x2D];
    var p1: seq<byte> := [0x9A];
    assert data[..4] == p4 && p4[..3] == p3 && p3[..2] == p2 && p2[..1] == p1 && p1[..0] == [];
    CrcUpdateIsTableLookup(0x00, 0x9A);
    assert Crc(p1) == 0xE2;
    CrcUpdateIsTableLookup(0xE2, 0x2D);
    assert Crc(p2) == 0x69;
    CrcUpdateIsTableLookup(0x69, 0x43);
    assert Crc(p3) == 0x5D;
    CrcUpdateIsTableLookup(0x5D, 0x38);
    assert Crc(p4) == 0x4E;
  }
}
