/**
 * Pixel byte encoders of the LiveOV7670 serial protocol.
 *
 * The value 0x00 marks the start of a command on the wire, so no pixel byte
 * may ever be 0x00.  The grayscale encoders mark the two bytes of a pair by
 * their lowest bit; the RGB565 encoders force a parity over bits 5 and 3.
 */
module PixelEncoding {

  // RGB565 high byte (RRRRRGGG): odd number of set bits under CHECK and INVERT.
  const H_BYTE_PARITY_CHECK: bv8 := 0x20
  const H_BYTE_PARITY_INVERT: bv8 := 0x08
  // RGB565 low byte (GGGBBBBB): even number of set bits under CHECK and INVERT.
  const L_BYTE_PARITY_CHECK: bv8 := 0x08
  const L_BYTE_PARITY_INVERT: bv8 := 0x20
  // Lowest blue bit, forced on so that a low byte is never zero.
  const L_BYTE_PREVENT_ZERO: bv8 := 0x01

  /** Number of set bits among bits 5 and 3, the two parity positions. */
  function ParityBitCount(b: bv8): nat
  {
    (if b & 0x20 != 0 then 1 else 0) + (if b & 0x08 != 0 then 1 else 0)
  }

  /** The high byte of an RGB565 pixel is valid when the parity positions hold an odd count. */
  predicate HighByteParityOk(b: bv8)
  {
    ParityBitCount(b) % 2 == 1
  }

  /** The low byte of an RGB565 pixel is valid when the parity positions hold an even count. */
  predicate LowByteParityOk(b: bv8)
  {
    ParityBitCount(b) % 2 == 0
  }

  /** First byte of a grayscale pair: bit 0 cleared, bumped to 2 if that left nothing. */
  function GrayscaleFirst(b: bv8): (r: bv8)
    ensures r & 0x01 == 0
    ensures r != 0
    ensures b & 0xFE != 0 ==> r | 0x01 == b | 0x01
    ensures b & 0xFE == 0 ==> r == 0x02
  {
    var cleared := b & 0xFE;
    if cleared == 0 then cleared | 0x02 else cleared
  }

  /** Second byte of a grayscale pair: bit 0 set, nothing else changed. */
  function GrayscaleSecond(b: bv8): (r: bv8)
    ensures r & 0x01 == 1
    ensures r & 0xFE == b & 0xFE
    ensures r != 0
  {
    b | 0x01
  }

  /** RGB565 high byte: bit 3 is chosen so that bits 5 and 3 hold exactly one set bit. */
  function RgbHigh(b: bv8): (r: bv8)
    ensures r & !H_BYTE_PARITY_INVERT == b & !H_BYTE_PARITY_INVERT
    ensures HighByteParityOk(r)
    ensures r != 0
    ensures r == b <==> HighByteParityOk(b)
  {
    if b & H_BYTE_PARITY_CHECK != 0 then b & !H_BYTE_PARITY_INVERT
    else b | H_BYTE_PARITY_INVERT
  }

  /** RGB565 low byte: bit 5 copies bit 3 (even parity) and bit 0 is forced on. */
  function RgbLow(b: bv8): (r: bv8)
    ensures r & !(L_BYTE_PARITY_INVERT | L_BYTE_PREVENT_ZERO) == b & !(L_BYTE_PARITY_INVERT | L_BYTE_PREVENT_ZERO)
    ensures LowByteParityOk(r)
    ensures r & L_BYTE_PREVENT_ZERO != 0
    ensures r != 0
    ensures r == b <==> LowByteParityOk(b) && b & L_BYTE_PREVENT_ZERO != 0
  {
    if b & L_BYTE_PARITY_CHECK != 0 then b | L_BYTE_PARITY_INVERT | L_BYTE_PREVENT_ZERO
    else (b & !L_BYTE_PARITY_INVERT) | L_BYTE_PREVENT_ZERO
  }

  /** Byte i of a grayscale line: even positions take the first encoder, odd ones the second. */
  function GrayscaleEncodeAt(b: bv8, i: nat): (r: bv8)
    ensures r != 0
    ensures r & 0x01 == (if i % 2 == 0 then 0 else 1)
  {
    if i % 2 == 0 then GrayscaleFirst(b) else GrayscaleSecond(b)
  }

  /** Byte i of an RGB565 line: even positions are high bytes, odd ones low bytes. */
  function RgbEncodeAt(b: bv8, i: nat): (r: bv8)
    ensures r != 0
    ensures i % 2 == 0 ==> HighByteParityOk(r)
    ensures i % 2 == 1 ==> LowByteParityOk(r)
  {
    if i % 2 == 0 then RgbHigh(b) else RgbLow(b)
  }
}
