/**
 * The SX127x receive driver (SX127x.cpp, SX127x.h) as a class over a
 * simulated radio chip.  The SPI bus is replaced by a `Chip` value — the
 * stored register values plus the receive FIFO — that the driver's register
 * reads inspect and its register writes update, and by a log of every
 * register write in the order it went out.
 */
module SX127xDriver {
  import opened Globals

  // Register addresses of the SX1276 FSK register map.
  const REG_FIFO: byte := 0x00
  const REG_OPMODE: byte := 0x01
  const REG_BITRATEMSB: byte := 0x02
  const REG_BITRATELSB: byte := 0x03
  const REG_FRFMSB: byte := 0x06
  const REG_FRFMID: byte := 0x07
  const REG_FRFLSB: byte := 0x08
  const REG_RSSIVALUE: byte := 0x11
  const REG_PAYLOADLENGTH: byte := 0x32
  const REG_FIFOTHRESH: byte := 0x35
  const REG_IRQFLAGS2: byte := 0x3F
  const REG_VERSION: byte := 0x42

  // Bits of RegIrqFlags2.
  const RF_IRQFLAGS2_FIFOEMPTY: byte := 0x40
  const RF_IRQFLAGS2_FIFOLEVEL: byte := 0x20
  const RF_IRQFLAGS2_FIFOOVERRUN: byte := 0x10
  const RF_IRQFLAGS2_PAYLOADREADY: byte := 0x04

  // RegOpMode: the mode lives in bits 2..0, the mask keeps the other bits.
  const RF_OPMODE_MASK: byte := 0xF8
  const RF_OPMODE_STANDBY: byte := 0x01
  const RF_OPMODE_RECEIVER: byte := 0x05

  // RegFifoThresh: start condition bit.
  const RF_FIFOTHRESH_TXSTARTCONDITION_FIFONOTEMPTY: byte := 0x80

  /** Size of the driver's receive buffer `m_payload`. */
  const PAYLOADSIZE: nat := 64

  /** Depth of the chip's FIFO. */
  const FIFO_DEPTH: nat := 64

  /** Crystal frequency in Hz. */
  const FXOSC: nat := 32000000

  /** The silicon version an SX1276 reports in RegVersion. */
  const CHIP_VERSION: byte := 0x12

  /** Data rates in bit/s that NextDataRate cycles through (`_rates`). */
  const RATES: seq<int> := [9579, 17241]

  /** Frequency the constructor records, in kHz. */
  const DEFAULT_FREQUENCY: nat := 868300

  /** The constructor's default reset pin argument (`byte reset=-1`). */
  const DEFAULT_RESET_ARG: int := -1

  /** The reset pin number meaning "no reset pin". */
  const NO_RESET_PIN: byte := 0xFF

  /** A count held in a `byte` variable, as a number. */
  type ByteCount = x: nat | x < 256

  /** SPI header of a register read: the address with bit 7 cleared. */
  function ReadHeader(addr: byte): (h: byte)
    ensures h & 0x80 == 0
    ensures h & 0x7F == addr & 0x7F
  {
    addr & 0x7F
  }

  /** SPI header of a register write: the address with bit 7 set. */
  function WriteHeader(addr: byte): (h: byte)
    ensures h & 0x80 == 0x80
    ensures h & 0x7F == addr & 0x7F
  {
    addr | 0x80
  }

  /** The register a header byte selects: its low seven bits. */
  function HeaderAddress(h: byte): byte {
    h & 0x7F
  }

  /** A read and a write of the same address reach the same register. */
  lemma HeadersAgree(addr: byte)
    ensures HeaderAddress(WriteHeader(addr)) == addr & 0x7F
    ensures HeaderAddress(ReadHeader(addr)) == addr & 0x7F
    ensures ReadHeader(addr) != WriteHeader(addr)
  {
  }

  /** One register write as the driver issued it. */
  datatype RegWrite = RegWrite(addr: byte, value: byte)

  /**
   * The radio as the driver sees it: stored register values by address (a
   * register never written holds 0) and the receive FIFO, oldest byte first.
   */
  datatype Chip = Chip(regs: map<int, byte>, fifo: seq<byte>)
  {
    /** The FIFO never holds more than the chip's 64 bytes. */
    predicate Valid() {
      |fifo| <= FIFO_DEPTH
    }

    function Stored(a: byte): byte {
      if a as int in regs then regs[a as int] else 0
    }

    /**
     * What a read of register `a` returns.  RegIrqFlags2 reports FifoEmpty
     * while the FIFO is empty and drops PayloadReady once it is drained; its
     * other bits, and every other register, read as stored.
     */
    function Read(a: byte): byte {
      if a == REG_IRQFLAGS2 then
        var others := Stored(a) & 0xBB;
        var payloadReady := if fifo == [] then 0 else Stored(a) & RF_IRQFLAGS2_PAYLOADREADY;
        var fifoEmpty := if fifo == [] then RF_IRQFLAGS2_FIFOEMPTY else 0;
        others | payloadReady | fifoEmpty
      else
        Stored(a)
    }

    /** The chip has flagged FifoLevel and PayloadReady and holds received bytes. */
    predicate FrameWaiting() {
      Stored(REG_IRQFLAGS2) & RF_IRQFLAGS2_FIFOLEVEL != 0
      && Stored(REG_IRQFLAGS2) & RF_IRQFLAGS2_PAYLOADREADY != 0
      && fifo != []
    }

    /** Reading the FIFO register takes out the oldest byte; an empty FIFO reads 0. */
    function Pop(): (Chip, byte) {
      if fifo == [] then (this, 0) else (Chip(regs, fifo[1..]), fifo[0])
    }

    /**
     * The chip after a write to register `a`.  A write to the FIFO queues the
     * byte while there is room.  RegIrqFlags2 holds flags, not data: writing
     * FifoOverrun to it empties the FIFO and clears the flags, any other value
     * changes nothing.  Every other register stores the value.
     */
    function Write(a: byte, v: byte): Chip {
      if a == REG_FIFO then
        if |fifo| < FIFO_DEPTH then Chip(regs, fifo + [v]) else this
      else if a == REG_IRQFLAGS2 then
        if v & RF_IRQFLAGS2_FIFOOVERRUN != 0 then Chip(regs[a as int := 0], []) else this
      else
        Chip(regs[a as int := v], fifo)
    }
  }

  /** The chip after one write has gone out over SPI. */
  function Deliver(c: Chip, w: RegWrite): Chip {
    c.Write(HeaderAddress(WriteHeader(w.addr)), w.value)
  }

  /** The chip after a sequence of writes, in order. */
  function Apply(c: Chip, ws: seq<RegWrite>): Chip
    decreases |ws|
  {
    if ws == [] then c else Deliver(Apply(c, ws[..|ws| - 1]), ws[|ws| - 1])
  }

  lemma ApplyOne(c: Chip, w: RegWrite)
    ensures Apply(c, [w]) == Deliver(c, w)
  {
    assert [w][..0] == [];
  }

  lemma ApplySnoc(c: Chip, ws: seq<RegWrite>, w: RegWrite)
    ensures Apply(c, ws + [w]) == Deliver(Apply(c, ws), w)
  {
    assert (ws + [w])[..|ws|] == ws;
  }

  /** Writes keep the FIFO within its depth. */
  lemma {:induction false} ApplyValid(c: Chip, ws: seq<RegWrite>)
    requires c.Valid()
    ensures Apply(c, ws).Valid()
    decreases |ws|
  {
    if ws != [] {
      ApplyValid(c, ws[..|ws| - 1]);
    }
  }

  /**
   * A write to an ordinary register is what a later read of that address
   * returns.
   */
  lemma WriteThenRead(c: Chip, addr: byte, v: byte)
    requires addr & 0x7F != REG_FIFO && addr & 0x7F != REG_IRQFLAGS2
    ensures Deliver(c, RegWrite(addr, v)).Read(HeaderAddress(ReadHeader(addr))) == v
  {
    HeadersAgree(addr);
  }

  /** Writes to other registers leave a register's value alone. */
  lemma WriteLeavesOthers(c: Chip, addr: byte, v: byte, other: byte)
    requires addr & 0x7F != REG_FIFO && addr & 0x7F != REG_IRQFLAGS2
    requires other != REG_IRQFLAGS2 && other != addr & 0x7F
    ensures Deliver(c, RegWrite(addr, v)).Read(other) == c.Read(other)
  {
    HeadersAgree(addr);
  }

  /** FXOSC / rate rounded, as `unsigned long` arithmetic computes it. */
  function BitRateQuotient(rate: int): nat
    requires rate > 0
  {
    (FXOSC + rate / 2) / rate
  }

  /** Bit rate register value for `rate` bit/s, kept to 16 bits (`word`). */
  function BitRateWord(rate: int): nat
    requires rate > 0
  {
    BitRateQuotient(rate) % 0x1_0000
  }

  /** The two writes that program a bit rate word, MSB first. */
  function BitRateWrites(r: nat): seq<RegWrite> {
    [RegWrite(REG_BITRATEMSB, ToByte(r / 256)), RegWrite(REG_BITRATELSB, ToByte(r % 256))]
  }

  /**
   * Frequency register value for `kHz`, in 32-bit `unsigned long`
   * arithmetic: kHz * 1000, shifted left by 2, divided by FXOSC >> 11 (15625),
   * shifted left by 6, each step wrapping at 2^32.
   */
  function FrequencyWord(kHz: nat): nat {
    var hz := (kHz * 1000) % 0x1_0000_0000;
    var scaled := (hz * 4) % 0x1_0000_0000;
    (scaled / 15625 * 64) % 0x1_0000_0000
  }

  /** The three writes that program a carrier frequency word, MSB first. */
  function FrequencyWrites(f: nat): seq<RegWrite> {
    [RegWrite(REG_FRFMSB, ToByte(f / 0x1_0000)),
     RegWrite(REG_FRFMID, ToByte(f / 256)),
     RegWrite(REG_FRFLSB, ToByte(f))]
  }

  /** The opmode register value selecting `mode` while keeping the bits outside the mode field. */
  function WithMode(opmode: byte, mode: byte): byte {
    (opmode & RF_OPMODE_MASK) | mode
  }

  /** The write that clears the FIFO (ClearFifo). */
  const CLEAR_FIFO: RegWrite := RegWrite(REG_IRQFLAGS2, RF_IRQFLAGS2_FIFOOVERRUN)

  /** The writes EnableReceiver issues, given the opmode register it read. */
  function ReceiverWrites(enable: bool, len: int, opmode: byte): seq<RegWrite> {
    if !enable then
      [RegWrite(REG_OPMODE, WithMode(opmode, RF_OPMODE_STANDBY))]
    else
      [RegWrite(REG_OPMODE, WithMode(opmode, RF_OPMODE_RECEIVER)),
       RegWrite(REG_FIFOTHRESH, RF_FIFOTHRESH_TXSTARTCONDITION_FIFONOTEMPTY | ToByte(len - 1)),
       RegWrite(REG_PAYLOADLENGTH, ToByte(len)),
       CLEAR_FIFO]
  }

  /** Whether `init` pulses the reset line, as written: a byte compared with -1. */
  predicate ResetPinGiven(reset: byte) {
    reset as int != -1
  }

  /** Whether `init` pulses the reset line, as evidently intended: unless no pin was given. */
  predicate ResetPinGivenFixed(reset: byte) {
    reset != NO_RESET_PIN
  }

  /** How the flags in RegIrqFlags2 read, in terms of the stored flags and the FIFO. */
  lemma FlagsRead(c: Chip)
    ensures c.Read(REG_IRQFLAGS2) & RF_IRQFLAGS2_FIFOEMPTY != 0 <==> c.fifo == []
    ensures c.Read(REG_IRQFLAGS2) & RF_IRQFLAGS2_PAYLOADREADY != 0
            <==> c.Stored(REG_IRQFLAGS2) & RF_IRQFLAGS2_PAYLOADREADY != 0 && c.fifo != []
    ensures c.Read(REG_IRQFLAGS2) & RF_IRQFLAGS2_FIFOLEVEL == c.Stored(REG_IRQFLAGS2) & RF_IRQFLAGS2_FIFOLEVEL
  {
  }

  /** Selecting a mode sets the mode field and keeps every bit outside it. */
  lemma WithModeBits(opmode: byte, mode: byte)
    requires mode & RF_OPMODE_MASK == 0
    ensures WithMode(opmode, mode) & 0x07 == mode
    ensures WithMode(opmode, mode) & RF_OPMODE_MASK == opmode & RF_OPMODE_MASK
  {
  }

  /**
   * After EnableReceiver(true, len) the chip is in receive mode with the other
   * opmode bits kept, expects `len`-byte payloads, starts a FIFO threshold of
   * len - 1 and has an empty FIFO with no frame flagged.
   */
  lemma ReceiverEnabled(c: Chip, len: int)
    ensures var after := Apply(c, ReceiverWrites(true, len, c.Read(REG_OPMODE)));
      && after.Read(REG_OPMODE) & 0x07 == RF_OPMODE_RECEIVER
      && after.Read(REG_OPMODE) & RF_OPMODE_MASK == c.Read(REG_OPMODE) & RF_OPMODE_MASK
      && after.Read(REG_PAYLOADLENGTH) == ToByte(len)
      && after.Read(REG_FIFOTHRESH) == RF_FIFOTHRESH_TXSTARTCONDITION_FIFONOTEMPTY | ToByte(len - 1)
      && after.fifo == []
      && !after.FrameWaiting()
  {
    var ws := ReceiverWrites(true, len, c.Read(REG_OPMODE));
    var c1 := Deliver(c, ws[0]);
    var c2 := Deliver(c1, ws[1]);
    var c3 := Deliver(c2, ws[2]);
    ApplyOne(c, ws[0]);
    ApplySnoc(c, ws[..1], ws[1]);
    ApplySnoc(c, ws[..2], ws[2]);
    ApplySnoc(c, ws[..3], ws[3]);
    assert ws[..1] + [ws[1]] == ws[..2] && ws[..2] + [ws[2]] == ws[..3] && ws[..3] + [ws[3]] == ws;
    WithModeBits(c.Read(REG_OPMODE), RF_OPMODE_RECEIVER);
    WriteThenRead(c, REG_OPMODE, ws[0].value);
    WriteLeavesOthers(c1, REG_FIFOTHRESH, ws[1].value, REG_OPMODE);
    WriteLeavesOthers(c2, REG_PAYLOADLENGTH, ws[2].value, REG_OPMODE);
    WriteLeavesOthers(c2, REG_PAYLOADLENGTH, ws[2].value, REG_FIFOTHRESH);
    WriteThenRead(c1, REG_FIFOTHRESH, ws[1].value);
    WriteThenRead(c2, REG_PAYLOADLENGTH, ws[2].value);
  }

  /**
   * After EnableReceiver(false) the chip is in standby with the other opmode
   * bits kept; the FIFO and every other register are as before.
   */
  lemma ReceiverDisabled(c: Chip, len: int, other: byte)
    requires other != REG_OPMODE
    ensures var after := Apply(c, ReceiverWrites(false, len, c.Read(REG_OPMODE)));
      && after.Read(REG_OPMODE) & 0x07 == RF_OPMODE_STANDBY
      && after.Read(REG_OPMODE) & RF_OPMODE_MASK == c.Read(REG_OPMODE) & RF_OPMODE_MASK
      && after.fifo == c.fifo
      && after.Read(other) == c.Read(other)
  {
    var w := ReceiverWrites(false, len, c.Read(REG_OPMODE))[0];
    ApplyOne(c, w);
    WithModeBits(c.Read(REG_OPMODE), RF_OPMODE_STANDBY);
    WriteThenRead(c, REG_OPMODE, w.value);
    if other != REG_IRQFLAGS2 {
      WriteLeavesOthers(c, REG_OPMODE, w.value, other);
    }
  }

  /** The two bytes of a bit rate word, MSB first, put back together give the word. */
  lemma BitRateBytesReassemble(r: nat)
    requires r < 0x1_0000
    ensures var ws := BitRateWrites(r); ws[0].value as int * 256 + ws[1].value as int == r
  {
    ToByteValue(r / 256);
    ToByteValue(r % 256);
    Digits16(r);
  }

  /** Base-256 digits of a number below 2^16. */
  lemma Digits16(r: nat)
    requires r < 0x1_0000
    ensures (r / 256) % 256 * 256 + r % 256 == r
  {
    assert r / 256 < 256;
  }

  /**
   * For every rate from 489 bit/s up the quotient fits the 16-bit word, so
   * nothing is cut off, and it is FXOSC / rate rounded to the nearest integer
   * (halves up).
   */
  lemma BitRateWordNearest(rate: int)
    requires rate >= 489
    ensures BitRateQuotient(rate) < 0x1_0000
    ensures var r := BitRateQuotient(rate);
      r * rate - FXOSC <= rate / 2 && FXOSC - r * rate < rate - rate / 2
  {
    var n := FXOSC + rate / 2;
    var q := BitRateQuotient(rate);
    DivBounds(n, rate);
    assert q * rate <= n < q * rate + rate;
    assert q < 0x1_0000 by {
      if q >= 0x1_0000 {
        MulMono(0x1_0000, q, rate);
      }
    }
  }

  lemma DivBounds(n: nat, d: int)
    requires d > 0
    ensures (n / d) * d <= n < (n / d) * d + d
  {
  }

  lemma MulMono(a: int, b: int, c: nat)
    requires a <= b
    ensures a * c <= b * c
  {
  }

  /** The bit rate words of both data rates, as written to the chip. */
  lemma BitRateWordsOfRates()
    ensures BitRateWord(RATES[0]) == 0x0D0D
    ensures BitRateWord(RATES[1]) == 0x0740
    ensures BitRateWrites(BitRateWord(RATES[0])) == [RegWrite(REG_BITRATEMSB, 0x0D), RegWrite(REG_BITRATELSB, 0x0D)]
    ensures BitRateWrites(BitRateWord(RATES[1])) == [RegWrite(REG_BITRATEMSB, 0x07), RegWrite(REG_BITRATELSB, 0x40)]
  {
    assert BitRateQuotient(9579) == 0x0D0D;
    assert BitRateQuotient(17241) == 0x0740;
    assert 0x0D0D / 256 == 0x0D && 0x0D0D % 256 == 0x0D;
    assert 0x0740 / 256 == 0x07 && 0x0740 % 256 == 0x40;
    assert ToByte(0x0D) == 0x0D && ToByte(0x07) == 0x07 && ToByte(0x40) == 0x40;
  }

  /**
   * While kHz * 4000 fits 32 bits nothing wraps: the frequency word is a
   * multiple of 64 at most 64 below the exact kHz * 16.384, truncated, not
   * rounded.
   */
  lemma FrequencyWordTruncates(kHz: nat)
    requires kHz * 4000 < 0x1_0000_0000
    ensures var f := FrequencyWord(kHz);
      && f % 64 == 0
      && f == kHz * 4000 / 15625 * 64
      && f * 1000 <= kHz * 16384 < f * 1000 + 64000
  {
    FrequencyNoWrap(kHz);
    ScaledBounds(kHz, kHz * 4000 / 15625);
  }

  lemma FrequencyNoWrap(kHz: nat)
    requires kHz * 4000 < 0x1_0000_0000
    ensures FrequencyWord(kHz) == kHz * 4000 / 15625 * 64
  {
    var hz := kHz * 1000;
    assert hz % 0x1_0000_0000 == hz;
    assert (hz * 4) % 0x1_0000_0000 == kHz * 4000;
    var q := kHz * 4000 / 15625;
    assert q * 64 < 0x1_0000_0000;
  }

  lemma ScaledBounds(k: nat, q: nat)
    requires q == k * 4000 / 15625
    ensures q * 64000 <= k * 16384 < q * 64000 + 64000
  {
    assert q * 15625 <= k * 4000 < q * 15625 + 15625;
  }

  /**
   * Below 1024000 kHz the word fits the 24-bit frequency register and its
   * three bytes, MSB first, put back together give the word.
   */
  lemma FrequencyBytesReassemble(kHz: nat)
    requires kHz < 1024000
    ensures var f := FrequencyWord(kHz); var ws := FrequencyWrites(f);
      && f < 0x100_0000
      && ws[0].value as int * 0x1_0000 + ws[1].value as int * 256 + ws[2].value as int == f
  {
    FrequencyWordTruncates(kHz);
    var f := FrequencyWord(kHz);
    ToByteValue(f / 0x1_0000);
    ToByteValue(f / 256);
    ToByteValue(f);
    Digits24(f);
  }

  /** Base-256 digits of a number below 2^24. */
  lemma Digits24(f: nat)
    requires f < 0x100_0000
    ensures (f / 0x1_0000) % 256 * 0x1_0000 + (f / 256) % 256 * 256 + f % 256 == f
  {
    var hi := f / 0x1_0000;
    var mid := f / 256;
    assert hi < 256;
    assert mid == hi * 256 + mid % 256;
    assert f == mid * 256 + f % 256;
  }

  /** 868.3 MHz is programmed as D9 13 00. */
  lemma FrequencyExample()
    ensures FrequencyWord(DEFAULT_FREQUENCY) == 0xD91300
    ensures FrequencyWrites(FrequencyWord(DEFAULT_FREQUENCY))
      == [RegWrite(REG_FRFMSB, 0xD9), RegWrite(REG_FRFMID, 0x13), RegWrite(REG_FRFLSB, 0x00)]
  {
    DefaultFrequencyWord();
    DefaultFrequencyWrites();
  }

  lemma DefaultFrequencyWord()
    ensures FrequencyWord(DEFAULT_FREQUENCY) == 0xD91300
  {
    assert DEFAULT_FREQUENCY * 1000 * 4 == 3473200000;
    assert 3473200000 / 15625 == 222284;
  }

  lemma DefaultFrequencyWrites()
    ensures FrequencyWrites(0xD91300)
      == [RegWrite(REG_FRFMSB, 0xD9), RegWrite(REG_FRFMID, 0x13), RegWrite(REG_FRFLSB, 0x00)]
  {
    assert 0xD91300 / 0x1_0000 == 0xD9 && 0xD91300 / 256 == 0xD913;
    assert 0xD9 % 256 == 0xD9 && 0xD913 % 256 == 0x13 && 0xD91300 % 256 == 0;
    assert ToByte(0xD9) == 0xD9;
    assert ToByte(0xD913) == 0x13;
    assert ToByte(0xD91300) == 0;
  }

  /** As written, the reset line is pulsed for every pin number, the "no pin" default included. */
  lemma ResetPinAlwaysGiven(reset: byte)
    ensures ResetPinGiven(reset)
    ensures ResetPinGiven(NO_RESET_PIN)
  {
  }

  /**
   * The default argument -1 is stored as the byte 0xFF. The test as written
   * still pulses the reset line for it; the corrected test skips exactly
   * that pin and pulses every other.
   */
  lemma ResetPinFixedSkipsDefault(reset: byte)
    ensures ToByte(DEFAULT_RESET_ARG) == NO_RESET_PIN
    ensures ResetPinGiven(ToByte(DEFAULT_RESET_ARG))
    ensures !ResetPinGivenFixed(ToByte(DEFAULT_RESET_ARG))
    ensures ResetPinGivenFixed(reset) <==> reset != ToByte(DEFAULT_RESET_ARG)
  {
    assert DEFAULT_RESET_ARG % 256 == 255;
    assert ToByte(DEFAULT_RESET_ARG) == 0xFF;
  }

  class SX127x {
    /** Reset pin (`m_reset`); NO_RESET_PIN when none is wired. */
    var resetPin: byte
    /** How often `init` has pulsed the reset line. */
    var resetPulses: nat
    /** Index into RATES of the current data rate (`m_datarate`). */
    var datarate: int
    /** Carrier frequency in kHz (`m_frequency`). */
    var frequency: nat
    var payloadReady: bool
    const payload: array<byte>
    /** Raw RegRssiValue captured with the last frame (`m_rssi`). */
    var rssi: byte
    /** The simulated radio. */
    var chip: Chip
    /** Every register write so far, oldest first. */
    var writes: seq<RegWrite>

    ghost predicate Valid()
      reads this
    {
      payload.Length == PAYLOADSIZE && 0 <= datarate < |RATES| && !payloadReady && chip.Valid()
    }

    /** The driver's own fields other than the chip and the write log are as before. */
    twostate predicate SettingsUnchanged()
      reads this
    {
      resetPin == old(resetPin) && resetPulses == old(resetPulses)
      && datarate == old(datarate) && frequency == old(frequency)
      && payloadReady == old(payloadReady) && rssi == old(rssi)
    }

    constructor(reset: byte, radio: Chip)
      requires radio.Valid()
      ensures Valid()
      ensures resetPin == reset && resetPulses == 0
      ensures datarate == 0 && frequency == DEFAULT_FREQUENCY && !payloadReady
      ensures chip == radio && writes == []
      ensures fresh(payload)
    {
      resetPin := reset;
      resetPulses := 0;
      datarate := 0;
      frequency := DEFAULT_FREQUENCY;
      payloadReady := false;
      payload := new byte[PAYLOADSIZE];
      rssi := 0;
      chip := radio;
      writes := [];
    }

    /** A register read over SPI; reading the FIFO is GetByteFromFifo. */
    function ReadReg(addr: byte): byte
      requires ReadHeader(addr) != REG_FIFO
      reads this
    {
      chip.Read(HeaderAddress(ReadHeader(addr)))
    }

    method WriteReg(addr: byte, value: byte)
      modifies this
      ensures writes == old(writes) + [RegWrite(addr, value)]
      ensures chip == Deliver(old(chip), RegWrite(addr, value))
      ensures SettingsUnchanged()
    {
      writes := writes + [RegWrite(addr, value)];
      chip := Deliver(chip, RegWrite(addr, value));
    }

    method GetByteFromFifo() returns (b: byte)
      modifies this
      ensures old(chip.fifo) != [] ==> b == old(chip.fifo[0]) && chip.fifo == old(chip.fifo[1..])
      ensures old(chip.fifo) == [] ==> b == 0 && chip.fifo == []
      ensures chip.regs == old(chip.regs) && writes == old(writes)
      ensures SettingsUnchanged()
    {
      var next := chip.Pop();
      chip := next.0;
      b := next.1;
    }

    method ClearFifo()
      modifies this
      ensures writes == old(writes) + [CLEAR_FIFO]
      ensures chip == Deliver(old(chip), CLEAR_FIFO)
      ensures chip.fifo == [] && !chip.FrameWaiting()
      ensures SettingsUnchanged()
    {
      WriteReg(REG_IRQFLAGS2, RF_IRQFLAGS2_FIFOOVERRUN);
    }

    /** Reads RegIrqFlags2 once; true iff FifoLevel and PayloadReady are both set. */
    method Ready() returns (r: bool)
      ensures r <==> chip.FrameWaiting()
    {
      var flags := ReadReg(REG_IRQFLAGS2);
      FlagsRead(chip);
      if flags & RF_IRQFLAGS2_FIFOLEVEL == 0 {
        return false;
      }
      if flags & RF_IRQFLAGS2_PAYLOADREADY == 0 {
        return false;
      }
      return true;
    }

    method EnableReceiver(enable: bool, len: int)
      modifies this
      ensures writes == old(writes) + ReceiverWrites(enable, len, old(ReadReg(REG_OPMODE)))
      ensures chip == Apply(old(chip), ReceiverWrites(enable, len, old(ReadReg(REG_OPMODE))))
      ensures SettingsUnchanged()
    {
      ghost var c0 := chip;
      var opmode := ReadReg(REG_OPMODE);
      ghost var ws := ReceiverWrites(enable, len, opmode);
      if !enable {
        WriteReg(REG_OPMODE, WithMode(opmode, RF_OPMODE_STANDBY));
        ApplyOne(c0, ws[0]);
        return;
      }
      WriteReg(REG_OPMODE, WithMode(opmode, RF_OPMODE_RECEIVER));
      WriteReg(REG_FIFOTHRESH, RF_FIFOTHRESH_TXSTARTCONDITION_FIFONOTEMPTY | ToByte(len - 1));
      WriteReg(REG_PAYLOADLENGTH, ToByte(len));
      ClearFifo();
      ApplyOne(c0, ws[0]);
      ApplySnoc(c0, ws[..1], ws[1]);
      ApplySnoc(c0, ws[..2], ws[2]);
      ApplySnoc(c0, ws[..3], ws[3]);
      assert ws[..1] + [ws[1]] == ws[..2] && ws[..2] + [ws[2]] == ws[..3] && ws[..3] + [ws[3]] == ws;
    }

    /**
     * The drain loop of Receive: while PayloadReady reads set, moves one FIFO
     * byte into `payload`, stopping after the read that leaves the FIFO empty.
     * Returns how many bytes it moved.
     */
    method DrainFifo() returns (i: ByteCount)
      requires payload.Length == PAYLOADSIZE && chip.Valid() && chip.FrameWaiting()
      modifies this, payload
      ensures i == |old(chip.fifo)|
      ensures chip == Chip(old(chip.regs), [])
      ensures payload[..i] == old(chip.fifo)
      ensures forall j :: i <= j < PAYLOADSIZE ==> payload[j] == old(payload[j])
      ensures writes == old(writes) && SettingsUnchanged()
    {
      i := 0;
      ghost var f0 := chip.fifo;
      ghost var regs0 := chip.regs;
      while ReadReg(REG_IRQFLAGS2) & RF_IRQFLAGS2_PAYLOADREADY != 0
        invariant chip.regs == regs0 && chip.Stored(REG_IRQFLAGS2) & RF_IRQFLAGS2_PAYLOADREADY != 0
        invariant i + |chip.fifo| == |f0| && chip.fifo == f0[i..]
        invariant forall j :: 0 <= j < i ==> payload[j] == f0[j]
        invariant forall j :: i <= j < PAYLOADSIZE ==> payload[j] == old(payload[j])
        invariant writes == old(writes) && SettingsUnchanged()
        decreases |chip.fifo|
      {
        FlagsRead(chip);
        var bt := GetByteFromFifo();
        payload[i] := bt;
        i := i + 1;
        FlagsRead(chip);
        if ReadReg(REG_IRQFLAGS2) & RF_IRQFLAGS2_FIFOEMPTY != 0 {
          break;
        }
      }
      FlagsRead(chip);
      assert payload[..i] == f0;
    }

    /**
     * Drains a flagged frame from the FIFO into `payload`.  Succeeds iff a
     * frame was flagged and at least FRAME_LENGTH bytes came out; then the
     * byte count goes to `length`, the RSSI register is captured and the chip
     * is put into standby.
     */
    method Receive(lengthIn: ByteCount) returns (ok: bool, length: ByteCount)
      requires Valid()
      modifies this, payload
      ensures Valid()
      ensures !old(chip.FrameWaiting()) ==> chip == old(chip) && unchanged(payload)
      ensures old(chip.FrameWaiting()) ==>
        && payload[..|old(chip.fifo)|] == old(chip.fifo)
        && (forall j :: |old(chip.fifo)| <= j < PAYLOADSIZE ==> payload[j] == old(payload[j]))
      ensures ok <==> old(chip.FrameWaiting()) && |old(chip.fifo)| >= FRAME_LENGTH
      ensures ok ==>
        && length == |old(chip.fifo)|
        && rssi == old(chip.Read(REG_RSSIVALUE))
        && writes == old(writes) + ReceiverWrites(false, FRAME_LENGTH, old(chip.Read(REG_OPMODE)))
        && chip == Apply(Chip(old(chip.regs), []), ReceiverWrites(false, FRAME_LENGTH, old(chip.Read(REG_OPMODE))))
      ensures !ok ==>
        && length == lengthIn && rssi == old(rssi) && writes == old(writes)
        && chip.regs == old(chip.regs)
        && (old(chip.FrameWaiting()) ==> chip.fifo == [])
      ensures resetPin == old(resetPin) && resetPulses == old(resetPulses)
      ensures datarate == old(datarate) && frequency == old(frequency)
    {
      length := lengthIn;
      ok := false;
      var len: ByteCount := FRAME_LENGTH;
      var r := Ready();
      if !r {
        return;
      }
      var i := DrainFifo();
      if i >= len {
        rssi := ReadReg(REG_RSSIVALUE);
        payloadReady := true;
      }
      if !payloadReady {
        return;
      }
      payloadReady := false;
      length := i;
      EnableReceiver(false, FRAME_LENGTH);
      ok := true;
    }

    method GetPayloadPointer() returns (p: array<byte>)
      ensures p == payload
    {
      p := payload;
    }

    /**
     * Selects data rate `idx` modulo the number of rates, or the next one when
     * `idx` is 0xFF, and programs its bit rate word, MSB first.
     */
    method NextDataRate(idx: byte)
      requires Valid()
      modifies this
      ensures Valid()
      ensures datarate == (if idx != 0xFF then idx as int % |RATES| else (old(datarate) + 1) % |RATES|)
      ensures writes == old(writes) + BitRateWrites(BitRateWord(RATES[datarate]))
      ensures chip == Apply(old(chip), BitRateWrites(BitRateWord(RATES[datarate])))
      ensures resetPin == old(resetPin) && resetPulses == old(resetPulses)
      ensures frequency == old(frequency) && rssi == old(rssi)
    {
      ghost var c0 := chip;
      if idx != 0xFF {
        datarate := idx as int;
      } else {
        datarate := datarate + 1;
      }
      datarate := datarate % |RATES|;
      var rate := RATES[datarate];
      var r := ((FXOSC + rate / 2) / rate) % 0x1_0000;
      WriteReg(REG_BITRATEMSB, ToByte(r / 256));
      WriteReg(REG_BITRATELSB, ToByte(r % 256));
      ghost var ws := BitRateWrites(r);
      ApplyOne(c0, ws[0]);
      ApplySnoc(c0, ws[..1], ws[1]);
      assert ws[..1] + [ws[1]] == ws;
      ApplyValid(c0, ws);
    }

    method GetDataRate() returns (rate: int)
      requires Valid()
      ensures rate == RATES[datarate]
      ensures rate == 9579 || rate == 17241
    {
      rate := RATES[datarate];
    }

    /** Records `kHz` and programs the carrier frequency word, MSB first. */
    method SetFrequency(kHz: nat)
      requires kHz < 0x1_0000_0000
      requires Valid()
      modifies this
      ensures Valid()
      ensures frequency == kHz
      ensures writes == old(writes) + FrequencyWrites(FrequencyWord(kHz))
      ensures chip == Apply(old(chip), FrequencyWrites(FrequencyWord(kHz)))
      ensures resetPin == old(resetPin) && resetPulses == old(resetPulses)
      ensures datarate == old(datarate) && rssi == old(rssi)
    {
      ghost var c0 := chip;
      frequency := kHz;
      var f := ((((kHz * 1000) % 0x1_0000_0000) * 4 % 0x1_0000_0000) / (FXOSC / 2048) * 64) % 0x1_0000_0000;
      WriteReg(REG_FRFMSB, ToByte(f / 0x1_0000));
      WriteReg(REG_FRFMID, ToByte(f / 256));
      WriteReg(REG_FRFLSB, ToByte(f));
      ghost var ws := FrequencyWrites(f);
      ApplyOne(c0, ws[0]);
      ApplySnoc(c0, ws[..1], ws[1]);
      ApplySnoc(c0, ws[..2], ws[2]);
      assert ws[..1] + [ws[1]] == ws[..2] && ws[..2] + [ws[2]] == ws;
      ApplyValid(c0, ws);
    }

    /** Signal strength in dBm: the captured RSSI register value halved and negated. */
    method GetRSSI() returns (dbm: int)
      ensures -127 <= dbm <= 0
      ensures -2 * dbm <= rssi as int < -2 * dbm + 2
    {
      dbm := -(rssi as int / 2);
    }

    /**
     * `init` as written: pulses the reset line (the test on `m_reset` holds
     * for every pin, the "no pin" default included) and checks that the
     * chip reports the SX1276 silicon version.
     */
    method Init() returns (ok: bool)
      modifies this
      ensures ok <==> chip.Read(REG_VERSION) == CHIP_VERSION
      ensures resetPulses == old(resetPulses) + 1
      ensures chip == old(chip) && writes == old(writes) && resetPin == old(resetPin)
      ensures datarate == old(datarate) && frequency == old(frequency)
      ensures payloadReady == old(payloadReady) && rssi == old(rssi)
    {
      ResetPinAlwaysGiven(resetPin);
      if ResetPinGiven(resetPin) {
        resetPulses := resetPulses + 1;
      }
      var version := ReadReg(REG_VERSION);
      if version != CHIP_VERSION {
        return false;
      }
      return true;
    }

    /**
     * `init` with the reset test corrected: no pulse when the pin is the
     * constructor's default, one pulse otherwise.
     */
    method InitFixed() returns (ok: bool)
      modifies this
      ensures ok <==> chip.Read(REG_VERSION) == CHIP_VERSION
      ensures resetPulses == old(resetPulses) + (if resetPin == ToByte(DEFAULT_RESET_ARG) then 0 else 1)
      ensures chip == old(chip) && writes == old(writes) && resetPin == old(resetPin)
      ensures datarate == old(datarate) && frequency == old(frequency)
      ensures payloadReady == old(payloadReady) && rssi == old(rssi)
    {
      ResetPinFixedSkipsDefault(resetPin);
      if ResetPinGivenFixed(resetPin) {
        resetPulses := resetPulses + 1;
      }
      var version := ReadReg(REG_VERSION);
      if version != CHIP_VERSION {
        return false;
      }
      return true;
    }
  }
}
