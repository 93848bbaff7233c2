/**
 * The texts camera.cpp hands to commandDebugPrint, as bytes.
 *
 * Numbers reach the wire through Arduino's String conversions: an integer as
 * its decimal digits, a float with two decimals.  Only the values that occur
 * (non-negative integers, and floats holding small whole numbers) are covered.
 */
module DebugText {

  /** The characters a receiver reads from ASCII bytes, one per byte. */
  function Chars(b: seq<bv8>): (r: string)
    ensures |r| == |b|
  {
    seq(|b|, i requires 0 <= i < |b| => b[i] as char)
  }

  predicate IsDigit(b: bv8)
  {
    0x30 <= b <= 0x39
  }

  /** The ASCII digit for d; only "0" stands for zero. */
  function DigitByte(d: nat): (b: bv8)
    requires d < 10
    ensures IsDigit(b) && (b == 0x30 <==> d == 0)
  {
    0x30 + d as bv8
  }

  /** The digit for d is d places above "0". */
  lemma DigitByteValue(d: nat)
    requires d < 10
    ensures (DigitByte(d) - 0x30) as int == d
  {
  }

  /** Decimal digits of n, most significant first, without leading zeros. */
  function Decimal(n: nat): (r: seq<bv8>)
    ensures |r| >= 1
    ensures forall i :: 0 <= i < |r| ==> IsDigit(r[i])
    ensures |r| > 1 ==> r[0] != 0x30
    decreases n
  {
    if n < 10 then [DigitByte(n)]
    else Decimal(n / 10) + [DigitByte(n % 10)]
  }

  /** The value of a string of decimal digits, read most significant first. */
  function DecimalValue(r: seq<bv8>): nat
    requires forall i :: 0 <= i < |r| ==> IsDigit(r[i])
  {
    if r == [] then 0
    else 10 * DecimalValue(r[..|r| - 1]) + ((r[|r| - 1] - 0x30) as int)
  }

  /** Reading the digits back gives the number. */
  lemma {:induction false} DecimalRoundTrip(n: nat)
    ensures DecimalValue(Decimal(n)) == n
    decreases n
  {
    var r := Decimal(n);
    if n >= 10 {
      DecimalRoundTrip(n / 10);
      assert r[..|r| - 1] == Decimal(n / 10);
      DigitByteValue(n % 10);
    } else {
      DigitByteValue(n);
    }
  }

  /** ".00", the fractional part String(float) prints for a whole number. */
  const POINT_ZERO_ZERO: seq<bv8> := [0x2E, 0x30, 0x30]

  /** String(float) of a float holding the whole number n: digits, point, two zeros. */
  function WholeFloatText(n: nat): seq<bv8>
  {
    Decimal(n) + POINT_ZERO_ZERO
  }

  /** At least one digit, then ".00"; the digits before the point read back as n. */
  lemma WholeFloatTextValue(n: nat)
    ensures var r := WholeFloatText(n);
      |r| >= 4 && r[|r| - 3..] == POINT_ZERO_ZERO
      && (forall i :: 0 <= i < |r| - 3 ==> IsDigit(r[i])) && DecimalValue(r[..|r| - 3]) == n
  {
    DecimalRoundTrip(n);
    var r := WholeFloatText(n);
    assert r[..|r| - 3] == Decimal(n);
  }

  /** String(bool): the bool is promoted to int, so it prints as the digit 1 or 0. */
  function BoolText(b: bool): (r: seq<bv8>)
    ensures |r| == 1 && IsDigit(r[0]) && DecimalValue(r) == (if b then 1 else 0)
  {
    [if b then 0x31 else 0x30]
  }

  /** "Vsync", sent after the sensor's vertical sync. */
  function VsyncText(): seq<bv8>
  {
    [0x56, 0x73, 0x79, 0x6E, 0x63]
  }

  /** "Frame ", the prefix of the frame count message. */
  const FRAME_PREFIX: seq<bv8> := [0x46, 0x72, 0x61, 0x6D, 0x65, 0x20]

  /** "Frame " followed by the frame counter, sent after every frame. */
  function FrameText(counter: nat): seq<bv8>
  {
    FRAME_PREFIX + Decimal(counter)
  }

  /** "Frame ", then at least one digit; the digits read back as the counter. */
  lemma FrameTextValue(counter: nat)
    ensures var r := FrameText(counter);
      |r| > 6 && r[..6] == FRAME_PREFIX
      && (forall i :: 6 <= i < |r| ==> IsDigit(r[i])) && DecimalValue(r[6..]) == counter
  {
    DecimalRoundTrip(counter);
    var r := FrameText(counter);
    assert r[6..] == Decimal(counter);
  }

  /** The byte literals above are the ASCII encodings of the texts camera.cpp prints. */
  lemma VsyncIsAscii()
    ensures Chars(VsyncText()) == "Vsync"
  {
  }

  lemma FramePrefixIsAscii()
    ensures Chars(FRAME_PREFIX) == "Frame "
  {
  }

  lemma PointZeroZeroIsAscii()
    ensures Chars(POINT_ZERO_ZERO) == ".00"
  {
  }

  /** String(true) and String(false) are "1" and "0", the decimal texts of 1 and 0. */
  lemma BoolTextIsAscii()
    ensures Chars(BoolText(true)) == "1" && Chars(BoolText(false)) == "0"
    ensures BoolText(true) == Decimal(1) && BoolText(false) == Decimal(0)
  {
  }
}
