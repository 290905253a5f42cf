/**
 * Shared definitions of globals.h: the frame length, the size of the sensor
 * table and the layout of one slot of the reading cache.
 */
module Globals {

  /** An 8-bit unsigned value (`byte` / `uint8_t`). */
  type byte = bv8

  datatype Option<T> = None | Some(value: T)

  /** How many bytes one LaCrosse frame is long. */
  const FRAME_LENGTH: nat := 5

  /** 64 base ids x 2 channels x 2 data rates. */
  const SENSOR_NUM: nat := 256

  /** The low byte of an integer, as a conversion to `byte` keeps it. */
  function ToByte(x: int): byte {
    (x % 256) as byte
  }

  lemma ByteValue(y: int)
    requires 0 <= y < 256
    ensures (y as byte) as int == y
  {
    if y < 16 {} else if y < 32 {} else if y < 48 {} else if y < 64 {}
    else if y < 80 {} else if y < 96 {} else if y < 112 {} else if y < 128 {}
    else if y < 144 {} else if y < 160 {} else if y < 176 {} else if y < 192 {}
    else if y < 208 {} else if y < 224 {} else if y < 240 {} else {}
  }

  /** Converting to a byte keeps the value modulo 256. */
  lemma ToByteValue(x: int)
    ensures ToByte(x) as int == x % 256
  {
    ByteValue(x % 256);
  }

  /** An `unsigned long` on the ESP32: 32 bits. */
  type uint32 = x: int | 0 <= x < 0x1_0000_0000

  /** An `int8_t`. */
  type int8 = x: int | -128 <= x < 128

  /** The raw bytes of one frame, as a cache slot stores them (`uint8_t data[FRAME_LENGTH]`). */
  type FrameBytes = s: seq<byte> | |s| == FRAME_LENGTH witness [0, 0, 0, 0, 0]

  /**
   * One slot of the reading cache (`struct Cache`): capture time in
   * milliseconds, the raw frame, and the signal strength. A timestamp of 0
   * means the slot was never written.
   */
  datatype CacheEntry = CacheEntry(timestamp: uint32, data: FrameBytes, rssi: int8)
}
