# lacrosse2mqtt core, modelled in Dafny

lacrosse2mqtt is ESP32 firmware. It receives the 868 MHz frames of LaCrosse
temperature/humidity sensors with an SX1276/SX127x FSK radio and decodes them.
It keeps the latest frame of every sensor in a 256-slot cache and shows those
readings on a small web page, where names can be given to sensor ids. This
project models the core of that firmware and proves properties about it:

- `globals.dfy` (module `Globals`, from globals.h): the frame length, the
  number of sensor ids, and the cache slot (`struct Cache`).
- `lacrosse.dfy` (module `LaCrosse`, from lacrosse.cpp): the CRC-8 of the
  frames (polynomial 0x31, most significant bit first, initial value 0),
  the frame decoder, and the validity gate used before a frame is shown.
  The CRC routines are modelled as loops proved against a fold. The decoder
  is a pure function whose every field is characterised by lemmas.
- `sx127x.dfy` (module `SX127xDriver`, from SX127x.cpp/SX127x.h): the
  receive driver, as a class `SX127x` whose fields are the driver's fields.
  The hardware behind the SPI bus is a value `Chip`: a register map (a
  register never written reads 0) and a receive FIFO queue. Reading
  address 0 pops the FIFO; an empty FIFO pops 0. In RegIrqFlags2 the
  FifoEmpty bit is derived from the queue and PayloadReady reads clear on
  an empty FIFO. Writing FifoOverrun to RegIrqFlags2 empties the FIFO.
  Every write the driver issues is also appended to a write log, so each
  method states exactly which registers it programs and with what.
- `webfrontend.dfy` (module `WebFrontend`, from webfrontend.cpp): the
  parsing of idmap file names back to sensor ids (`name2id`, with a model
  of `strtol`), the file name an id is saved under, and the guard on the
  sensor id typed into the configuration form together with the name-table
  update it protects. Also the loop of `add_current_table` that turns the
  reading cache into table rows.

Register addresses and flag bits come from the SX1276 FSK register map
(RegFifo 0x00, RegOpMode 0x01, RegBitrateMsb/Lsb 0x02/0x03, RegFrfMsb/Mid/Lsb
0x06-0x08, RegRssiValue 0x11, RegPayloadLength 0x32, RegFifoThresh 0x35,
RegIrqFlags2 0x3F with FifoEmpty 0x40, FifoLevel 0x20, FifoOverrun 0x10,
PayloadReady 0x04, RegVersion 0x42). sx1276Regs-Fsk.h is not part of this
model.

Two facts about the code worth stating outright:

- The frame 9A 2D 43 38 4E decodes, at 17241 bit/s, to sensor 40 and 94.3
  degrees: the tens digit of the temperature is the low nibble of byte 1,
  0xD = 13, so the reading is 13*100 + 4*10 + 3 - 400 = 943 tenths
  (`LaCrosse.ExampleFrame`).
- The carrier frequency word truncates to a multiple of 64; it does not
  round to the nearest step (`SX127xDriver.FrequencyWordTruncates`).

## Model

| member | source | states |
|---|---|---|
| LaCrosse.UpdateCrc | lacrosse.cpp:77-88 | the eight shift-and-reduce passes compute the CRC-8 register update `CrcUpdate(res, val)` |
| LaCrosse.CalculateCrc | lacrosse.cpp:90-98 | the CRC of the first `len` bytes is the fold of the update from 0 over them, `Crc(data[..len])` |
| LaCrosse.CrcUpdateIsTableLookup | lacrosse.cpp:77-88 | one update depends only on `res ^ val` and equals the table entry of a table-driven CRC-8 |
| LaCrosse.CrcUpdateInjective | lacrosse.cpp:77-88 | two updates give the same register exactly when their `res ^ val` agree |
| LaCrosse.CrcUpdateKeepsDifference | lacrosse.cpp:77-88 | feeding the same byte to two different registers keeps them different |
| LaCrosse.CrcUpdateSeparatesBytes | lacrosse.cpp:77-88 | feeding two different bytes to the same register gives different results |
| LaCrosse.CrcLastByteDiffers | lacrosse.cpp:90-98 | messages differing only in their last byte have different CRCs |
| LaCrosse.CrcDifferencePersists | lacrosse.cpp:90-98 | appending the same byte keeps different CRCs different |
| LaCrosse.CrcDetectsByteError | lacrosse.cpp:90-98 | corruption confined to any one byte of a message always changes its CRC |
| LaCrosse.CrcDetectsSingleBitFlip | lacrosse.cpp:90-98 | flipping any single bit of a message changes its CRC |
| LaCrosse.LowNibble | lacrosse.cpp:37 | `b & 0xF` is `b mod 16` |
| LaCrosse.HighNibble | lacrosse.cpp:38 | `(b & 0xF0) >> 4` is `b div 16` |
| LaCrosse.Low7 | lacrosse.cpp:42 | `b & 0x7F` is `b mod 128` |
| LaCrosse.Bit7 | lacrosse.cpp:41 | `b & 0x80` is set exactly when `b >= 128` |
| LaCrosse.Bit5 | lacrosse.cpp:34 | `b & 0x20` is set exactly when bit 5 of the value is 1 |
| LaCrosse.StartNibbleOk | lacrosse.cpp:27 | `(b & 0xF0) == 0x90` exactly when the high nibble is 9 |
| LaCrosse.BaseIdBits | lacrosse.cpp:31-32 | the 6-bit id is 4 times the low nibble of byte 0 plus the top two bits of byte 1 |
| LaCrosse.SensorId | lacrosse.cpp:43-46 | or-ing in 0x40 and 0x80 adds 64 for the second channel and 128 for the slow rate |
| LaCrosse.BaseId | lacrosse.cpp:31-32 | the base id of a frame lies in 0..63 |
| LaCrosse.DecodeFrame | lacrosse.cpp:20-47 | decoding keeps the data rate the caller set; the lemmas below give every other field |
| LaCrosse.DecodedValid | lacrosse.cpp:22-28 | a frame is valid exactly when byte 4 is the CRC of bytes 0..3 and the start nibble is 9 |
| LaCrosse.DecodedId | lacrosse.cpp:31-46 | the id is the base id, plus 64 when humidity carries the 0x7D marker, plus 128 at 9579 bit/s |
| LaCrosse.DecodedTemp | lacrosse.cpp:36-40 | the temperature in tenths is the three BCD digits minus 400 |
| LaCrosse.DecodedFields | lacrosse.cpp:34-42 | humidity is the low 7 bits of byte 3, weak battery its top bit, new battery bit 5 of byte 1 |
| LaCrosse.TryHandleData | lacrosse.cpp:67-75 | reports true exactly when the frame passes the CRC and start-nibble checks, and returns the decoded frame at the given rate |
| LaCrosse.DisplayedIffChecksPass | lacrosse.cpp:49-56 | a frame passes DisplayFrame's gate exactly when its CRC and start nibble are right |
| LaCrosse.FieldRanges | lacrosse.cpp:31-46 | humidity is in 0..127, temperature in -40.0..126.5 degrees, the id below SENSOR_NUM |
| LaCrosse.CrcRoundTrip | lacrosse.cpp:22-28 | four bytes followed by their CRC form a valid frame exactly when the start nibble is 9 |
| LaCrosse.SingleBitFlipInvalidates | lacrosse.cpp:22-25 | flipping any one bit of a valid frame makes it invalid |
| LaCrosse.ChannelBitPartition | lacrosse.cpp:43-44 | frames that differ only in the second-channel marker get ids exactly 64 apart |
| LaCrosse.RateBitPartition | lacrosse.cpp:45-46 | the same frame gets an id exactly 128 higher at 9579 bit/s than at 17241 bit/s |
| LaCrosse.IdBitsSplit | lacrosse.cpp:31-46 | an id built from base, channel and rate bits gives each part back |
| LaCrosse.IdDecomposes | lacrosse.cpp:31-46 | a decoded id gives back its base id, its channel bit, and (as `id >= 128`) whether it was read at 9579 bit/s |
| LaCrosse.FieldsIgnoreCrcByte | lacrosse.cpp:30-46 | every decoded field except validity is independent of the CRC byte |
| LaCrosse.ExampleFrame | lacrosse.cpp:20-47 | 9A 2D 43 38 has CRC 4E and decodes to sensor 40, 94.3 degrees, 56 %, new battery |
| Globals.ToByteValue | SX127x.cpp:61-62 | truncating an int to a byte keeps its value mod 256 |
| SX127xDriver.ReadHeader | SX127x.cpp:133 | the read header clears bit 7 and keeps the address bits |
| SX127xDriver.WriteHeader | SX127x.cpp:144 | the write header sets bit 7 and keeps the address bits |
| SX127xDriver.HeadersAgree | SX127x.cpp:129-148 | a read and a write of the same address select the same register, and their headers differ |
| SX127xDriver.ApplyOne | SX127x.cpp:140-148 | one write in the log is delivered as one register write |
| SX127xDriver.ApplySnoc | SX127x.cpp:140-148 | a log extended by one write is the old log followed by that write |
| SX127xDriver.ApplyValid | SX127x.cpp:140-148 | no sequence of writes overfills the 64-byte FIFO |
| SX127xDriver.WriteThenRead | SX127x.cpp:129-148 | a plain register reads back the value just written to it |
| SX127xDriver.WriteLeavesOthers | SX127x.cpp:129-148 | a write leaves every other plain register as it was |
| SX127xDriver.FlagsRead | SX127x.cpp:7-15 | FifoEmpty reads set exactly when the FIFO is empty, PayloadReady only when it is not, FifoLevel as stored |
| SX127xDriver.WithModeBits | SX127x.cpp:77-81 | selecting a mode sets the 3-bit mode field and keeps every other opmode bit |
| SX127xDriver.ReceiverEnabled | SX127x.cpp:80-84 | enabling selects receive mode, sets payload length `len` and FIFO threshold `len-1` with the not-empty start flag, and empties the FIFO, so no frame is pending |
| SX127xDriver.ReceiverDisabled | SX127x.cpp:76-78 | disabling selects standby, keeps the other opmode bits, the FIFO and every register except the opmode register |
| SX127xDriver.BitRateBytesReassemble | SX127x.cpp:60-62 | the MSB and LSB written for a bit rate word recombine to that word |
| SX127xDriver.BitRateWordNearest | SX127x.cpp:60 | for rates of 489 bit/s and up the divider fits 16 bits and is the nearest integer to 32 MHz / rate |
| SX127xDriver.BitRateWordsOfRates | SX127x.cpp:5-62 | 9579 bit/s programs 0x0D0D and 17241 bit/s programs 0x0740 |
| SX127xDriver.FrequencyWordTruncates | SX127x.cpp:68 | without 32-bit overflow the frequency word is a multiple of 64 and at most one 64-step below kHz * 2^19 / 32000 |
| SX127xDriver.FrequencyNoWrap | SX127x.cpp:68 | below the overflow bound the wrapped 32-bit arithmetic equals exact arithmetic |
| SX127xDriver.FrequencyBytesReassemble | SX127x.cpp:68-71 | the three bytes written for a frequency recombine to the 24-bit word |
| SX127xDriver.FrequencyExample | SX127x.cpp:65-72 | 868300 kHz is programmed as D9 13 00 |
| SX127xDriver.ResetPinAlwaysGiven | SX127x.cpp:155 | as written, every byte value passes `m_reset != -1`, including the default 0xFF |
| SX127xDriver.ResetPinFixedSkipsDefault | SX127x.h:15 | the constructor's default `reset = -1` is stored as 0xFF; the test as written passes it, the byte comparison fails it and passes every other pin |
| SX127xDriver.SX127x.constructor | SX127x.cpp:169-176 | data rate index 0, 868300 kHz, no payload pending, nothing written yet |
| SX127xDriver.SX127x.WriteReg | SX127x.cpp:140-148 | the write is logged and delivered to the chip; no driver field changes |
| SX127xDriver.SX127x.GetByteFromFifo | SX127x.cpp:87-90 | returns and removes the oldest FIFO byte (0 when empty); registers unchanged |
| SX127xDriver.SX127x.ClearFifo | SX127x.cpp:92-95 | writes FifoOverrun to RegIrqFlags2, after which the FIFO is empty and no frame is pending |
| SX127xDriver.SX127x.Ready | SX127x.cpp:7-15 | true exactly when FifoLevel and PayloadReady are both set with data in the FIFO |
| SX127xDriver.SX127x.EnableReceiver | SX127x.cpp:74-85 | issues exactly the writes of `ReceiverWrites` for the opmode value it read, in order |
| SX127xDriver.SX127x.DrainFifo | SX127x.cpp:24-30 | moves the whole FIFO, oldest first, into the front of the payload buffer, leaves the rest of it alone, and counts the bytes |
| SX127xDriver.SX127x.Receive | SX127x.cpp:17-44 | succeeds exactly when a frame was flagged and at least FRAME_LENGTH bytes came out; then it returns their count, captures RSSI and puts the chip in standby; otherwise `length`, RSSI and the log are untouched |
| SX127xDriver.SX127x.GetPayloadPointer | SX127x.cpp:46-49 | returns the driver's own payload buffer |
| SX127xDriver.SX127x.NextDataRate | SX127x.cpp:51-63 | selects `idx mod 2`, or the next rate for 0xFF, and writes that rate's bit rate word MSB first |
| SX127xDriver.SX127x.GetDataRate | SX127x.cpp:178-181 | returns the current rate, always 9579 or 17241 |
| SX127xDriver.SX127x.SetFrequency | SX127x.cpp:65-72 | records kHz and writes the three bytes of the 32-bit frequency word, MSB first |
| SX127xDriver.SX127x.GetRSSI | SX127x.cpp:183-186 | returns minus half the captured register value, in -127..0 dBm |
| SX127xDriver.SX127x.Init | SX127x.cpp:150-167 | pulses reset on every call, whatever the pin (the default included), and succeeds exactly when RegVersion reads 0x12; nothing else changes |
| SX127xDriver.SX127x.InitFixed | SX127x.cpp:150-167 | with the reset test corrected: no pulse for the default pin, one for any other, and the same version check |
| WebFrontend.DigitValue | webfrontend.cpp:17 | digit values below 10 exactly for '0'..'9', below 16 exactly for hex digits of either case |
| WebFrontend.SkipSpaces | webfrontend.cpp:17 | `strtol` skips exactly the leading white space |
| WebFrontend.DigitRunEnd | webfrontend.cpp:17 | `strtol` consumes exactly the longest run of digits |
| WebFrontend.Strtol | webfrontend.cpp:17 | the end offset stays within the string, and with nothing consumed the value is 0 |
| WebFrontend.Name2Id | webfrontend.cpp:9-23 | names of the wrong length give -1; results lie in -15..255, so an id above -1 indexes the name table |
| WebFrontend.Name2IdValue | webfrontend.cpp:17-18 | a parse that consumes both characters yields a value in -15..255 |
| WebFrontend.HexPairValue | webfrontend.cpp:17 | two hex digits are worth 16 times the first plus the second |
| WebFrontend.Name2IdMatchesCases | webfrontend.cpp:9-23 | `name2id` accepts exactly two hex digits, or a blank, '+' or '-' followed by one hex digit, with the value that spelling has; everything else gives -1 |
| WebFrontend.LowerHex | webfrontend.cpp:154 | `String(i, HEX)` has one digit below 16 and two digits from 16 to 255 |
| WebFrontend.PaddedDigits | webfrontend.cpp:154 | a padded name ends in exactly the two hex digits of the id |
| WebFrontend.PaddedNameRoundTrip | webfrontend.cpp:154 | every id 0..255 is read back from its padded file name |
| WebFrontend.FileNamesAgree | webfrontend.cpp:154 | the name as written equals the padded name exactly for ids outside 10..15 |
| WebFrontend.FileNameRoundTrip | webfrontend.cpp:154 | as written, ids 0..9 and 16..255 are read back from their file names |
| WebFrontend.FileNameLosesIds10To15 | webfrontend.cpp:154 | as written, the file names of ids 10..15 are rejected when read back |
| WebFrontend.ConfigId | webfrontend.cpp:254-263 | an id argument is accepted exactly when it starts with a decimal digit and its number is below SENSOR_NUM, and then the id is that number |
| WebFrontend.Decimal | webfrontend.cpp:258 | a decimal spelling consists of digits whose value is the number |
| WebFrontend.ToIntDecimal | webfrontend.cpp:258 | `toInt` reads back every decimal number |
| WebFrontend.ConfigIdDecimal | webfrontend.cpp:254-263 | every id below 256 typed in decimal is accepted as itself, every larger number refused |
| WebFrontend.ConfigIdLeadingZeros | webfrontend.cpp:257-259 | "007" is accepted as id 7 |
| WebFrontend.ConfigIdTrailingText | webfrontend.cpp:257-259 | "12abc" is accepted as id 12 |
| WebFrontend.ConfigIdRefusesBlankOrSign | webfrontend.cpp:257 | " 1", "+1" and the empty argument are refused |
| WebFrontend.ConfigPage.constructor | globals.h:49 | the name table has SENSOR_NUM empty names and nothing is changed |
| WebFrontend.ConfigPage.HandleConfig | webfrontend.cpp:254-263 | with both arguments and an accepted id, exactly that id's name is replaced and the change flag set; otherwise nothing changes |
| WebFrontend.SlotRate | webfrontend.cpp:190-193 | only the two rates occur; 9579 bit/s exactly when `i / 128` is odd, so among the 256 slots exactly those from 128 up |
| WebFrontend.SlotRateBit7 | webfrontend.cpp:190-193 | the slot's rate is 9579 bit/s exactly when `i & 0x80` is set |
| WebFrontend.UpperHexDigit | webfrontend.cpp:208 | `%X` prints an upper-case digit with the right value |
| WebFrontend.HexBytes | webfrontend.cpp:206-210 | two characters per byte |
| WebFrontend.HexBytesReadBack | webfrontend.cpp:206-210 | every pair of printed digits reads back as its byte |
| WebFrontend.RawColumnSpellsFrame | webfrontend.cpp:204-211 | the raw column is "0x" and ten hex digits that spell the five frame bytes |
| WebFrontend.ShownSlots | webfrontend.cpp:186-195 | the shown slots are, in increasing order, exactly the slots ever written whose frame passes the checks at their rate |
| WebFrontend.TableRowsFollowShownSlots | webfrontend.cpp:186-213 | the table has one row per shown slot, in slot order, each the row of its slot |
| WebFrontend.RowOfShownSlot | webfrontend.cpp:194-203 | a row's frame is valid, its id is 128 or more exactly for slots 128..255, its name is the one stored for its id, its age is the time since capture mod 2^32 |
| WebFrontend.FormatRaw | webfrontend.cpp:204-211 | the inner loop builds exactly the raw column of the frame |
| WebFrontend.CollectRows | webfrontend.cpp:186-213 | the loop emits exactly the rows `TableRows` gives for the slots it visits |
| WebFrontend.AddCurrentTable | webfrontend.cpp:179-216 | as written: the rows of slots 0..254 |
| WebFrontend.AddCurrentTableAllSlots | webfrontend.cpp:179-216 | as intended: the rows of all 256 slots |
| WebFrontend.AllSlotsShowEveryReading | webfrontend.cpp:186-195 | over all slots, a slot has a row exactly when it holds a valid reading |
| WebFrontend.TableIgnoresSlot255 | webfrontend.cpp:186 | as written, the table never depends on what slot 255 holds |
| WebFrontend.NothingWrittenNothingShown | webfrontend.cpp:187-188 | slots never written contribute no rows |
| WebFrontend.FirstShownSlot | webfrontend.cpp:186-195 | when the first reading is in slot n, nothing below n is shown and n is |
| WebFrontend.Slot255FrameValid | webfrontend.cpp:194-195 | the frame 9F C6 05 7D 06 passes the checks and, at 9579 bit/s, is sensor 255 at 20.5 degrees, humidity marker 125 |
| WebFrontend.OnlySlot255Shown | webfrontend.cpp:186-195 | in the example cache slot 255 holds a showable reading |
| WebFrontend.Slot255Missing | webfrontend.cpp:186 | a cache whose only reading is in slot 255 gives an empty table as written and a one-row table over all slots |

## Left out

- SPI transactions, chip-select and reset GPIO timing, `delay`, `SPI.begin`: the chip is a value the driver reads and writes directly; `Init` only counts reset pulses.
- `SetupForLaCrosse` (SX127x.cpp:97-127): it writes a fixed list of register constants from sx1276Regs-Fsk.h, which is not part of this model.
- `SX127x::CalculateCRC`, declared in SX127x.h:23, has no definition in SX127x.cpp; the CRC is modelled in `LaCrosse`.
- SX127xDriver.SX127x.Receive: it requires the FIFO to hold at most 64 bytes (the chip's depth), so the write past `m_payload`, which would need more bytes, is not modelled.
- SX127xDriver.SX127x.Receive: the byte counter `i` is a `byte` in the source; the model keeps it below 256, which a 64-byte FIFO never exceeds.
- SX127xDriver.SX127x.GetByteFromFifo: a pop from an empty FIFO returns 0; the real chip's value in that case is not specified.
- SX127xDriver.SX127x.SetFrequency: `kHz` is an `unsigned long`, so it is required to be below 2^32.
- The temperature is kept in tenths of a degree as an integer rather than the source's float.
- `LaCrosse::DisplayFrame` and `DisplayRaw` print over the serial port; only the validity gate is modelled.
- `millis()` is the parameter `now` of `AddCurrentTable`.
- The HTML markup of the table, the header, and the rendering of `String(f.temp, 1)` are not modelled; the table is the sequence of its rows.
- Who fills the reading cache (the receive loop in the main sketch) is not part of this model; the table takes any cache.
- `load_idmap`, `save_idmap` and the other LittleFS and JSON handling are file I/O; only the file name formula (webfrontend.cpp:154) and `name2id` are modelled.
- The MQTT server and port arguments of `handle_config` and the rest of the web server are not modelled.
- WebFrontend.Strtol: values beyond the range of `long` are kept exact instead of clamping with ERANGE. `name2id` parses at most two characters, so this never arises there. `toInt` results that large are refused by the id guard either way.
- Wi-Fi, the web server and MQTT publishing are not modelled.

## Findings

| source | as written | input that shows it | evidently intended | confidence | as-written member | corrected member |
|---|---|---|---|---|---|---|
| webfrontend.cpp:154 | pads the hex id with "0" only when `i < 10` | id 10 is saved as "/idmap/a", which `name2id` rejects for its length | pad every id below 16 to two digits | high, not executed | WebFrontend.FileNameLosesIds10To15 | WebFrontend.PaddedNameRoundTrip |
| webfrontend.cpp:186 | the table loop stops at `i < 255` | a cache whose only valid reading is 9F C6 05 7D 06 (sensor 255 at 9579 bit/s) in slot 255 gives an empty table | visit all SENSOR_NUM slots | high, not executed | WebFrontend.Slot255Missing | WebFrontend.AllSlotsShowEveryReading |
| SX127x.cpp:155 | `m_reset != -1` compares a `byte`, promoted to 0..255, with -1 | the default `reset = -1` stores 0xFF, and 255 != -1, so the reset line is driven on pin 255 | skip the pulse when no reset pin was given (0xFF), as `SX127x.InitFixed` does | high, not executed | SX127xDriver.ResetPinAlwaysGiven | SX127xDriver.ResetPinFixedSkipsDefault |
