/**
 * What one scan line puts on the wire, independent of how sending is
 * interleaved with capture, and the order in which the buffered RGB
 * scheduler formats and sends the bytes of a line.
 */
module LineStreams {
  import opened PixelEncoding

  /** The wire bytes of a grayscale line whose raw luma samples are raw. */
  function GrayscaleLineBytes(raw: seq<bv8>): (r: seq<bv8>)
    ensures |r| == |raw|
    ensures forall i :: 0 <= i < |r| ==> r[i] != 0
    ensures forall i :: 0 <= i < |r| ==> r[i] & 0x01 == (if i % 2 == 0 then 0 else 1)
  {
    seq(|raw|, i requires 0 <= i < |raw| => GrayscaleEncodeAt(raw[i], i))
  }

  /** The wire bytes of an RGB565 line whose raw bytes (high, low, high, ...) are raw. */
  function RgbLineBytes(raw: seq<bv8>): (r: seq<bv8>)
    ensures |r| == |raw|
    ensures forall i :: 0 <= i < |r| ==> r[i] != 0
    ensures forall i :: 0 <= i < |r| && i % 2 == 0 ==> HighByteParityOk(r[i])
    ensures forall i :: 0 <= i < |r| && i % 2 == 1 ==> LowByteParityOk(r[i])
  {
    seq(|raw|, i requires 0 <= i < |raw| => RgbEncodeAt(raw[i], i))
  }

  /** A raw RGB line in which every pixel has the same colour bytes. */
  function SolidRgbLine(colorH: bv8, colorL: bv8, pixels: nat): (r: seq<bv8>)
    ensures |r| == 2 * pixels
    ensures forall i :: 0 <= i < |r| ==> r[i] == if i % 2 == 0 then colorH else colorL
  {
    seq(2 * pixels, i requires 0 <= i < 2 * pixels => if i % 2 == 0 then colorH else colorL)
  }

  /** n copies of s, one after the other. */
  function Repeat(s: seq<bv8>, n: nat): (r: seq<bv8>)
    ensures |r| == n * |s|
  {
    if n == 0 then [] else Repeat(s, n - 1) + s
  }

  /** A solid line's wire bytes are one encoded colour pair per pixel. */
  lemma {:induction false} SolidLineBytes(colorH: bv8, colorL: bv8, pixels: nat)
    ensures RgbLineBytes(SolidRgbLine(colorH, colorL, pixels)) == Repeat([RgbHigh(colorH), RgbLow(colorL)], pixels)
  {
    if pixels > 0 {
      SolidLineBytes(colorH, colorL, pixels - 1);
      var shorter := RgbLineBytes(SolidRgbLine(colorH, colorL, pixels - 1));
      var line := RgbLineBytes(SolidRgbLine(colorH, colorL, pixels));
      assert line == shorter + [RgbHigh(colorH), RgbLow(colorL)];
    }
  }

  /** The pixel bytes of sendBlankFrame: lines lines of pixels encoded colour pairs. */
  function BlankFramePixels(color: bv16, lines: nat, pixels: nat): seq<bv8>
  {
    var colorH := ((color >> 8) & 0xFF) as bv8;
    var colorL := (color & 0xFF) as bv8;
    Repeat(Repeat([RgbHigh(colorH), RgbLow(colorL)], pixels), lines)
  }

  /** A blank frame is what the RGB path sends for a sensor that sees one solid colour. */
  lemma BlankFrameIsSolidLines(color: bv16, lines: nat, pixels: nat)
    ensures var colorH, colorL := ((color >> 8) & 0xFF) as bv8, (color & 0xFF) as bv8;
      BlankFramePixels(color, lines, pixels) == Repeat(RgbLineBytes(SolidRgbLine(colorH, colorL, pixels)), lines)
  {
    SolidLineBytes(((color >> 8) & 0xFF) as bv8, (color & 0xFF) as bv8, pixels);
  }

  /** Number of true values: how many polls of the transmitter found it ready. */
  function CountTrue(s: seq<bool>): (n: nat)
    ensures n <= |s|
  {
    if s == [] then 0 else (if s[0] then 1 else 0) + CountTrue(s[1..])
  }

  lemma CountTrueStep(s: seq<bool>, k: nat)
    requires k < |s|
    ensures CountTrue(s[k..]) == (if s[k] then 1 else 0) + CountTrue(s[k + 1..])
  {
    assert s[k..][1..] == s[k + 1..];
  }

  /** What the buffered RGB scheduler does to one byte of the line buffer. */
  datatype Event = Formatted(index: nat, high: bool) | Sent(index: nat)

  /** Events for bytes 0..c-1: each byte formatted (as H if it is even), then sent. */
  function CompletedBytes(c: nat): (r: seq<Event>)
    ensures |r| == 2 * c
  {
    if c == 0 then []
    else CompletedBytes(c - 1) + [Formatted(c - 1, (c - 1) % 2 == 0), Sent(c - 1)]
  }

  /**
   * The scheduler's history after sending c bytes of a line, with byte c
   * formatted and waiting for the transmitter when pending holds.
   */
  function RgbSchedule(c: nat, pending: bool): seq<Event>
  {
    CompletedBytes(c) + (if pending then [Formatted(c, c % 2 == 0)] else [])
  }

  /** The k-th event of a finished line: the even ones are formats, the odd ones sends. */
  lemma {:induction false} CompletedBytesAt(c: nat, k: nat)
    requires k < 2 * c
    ensures CompletedBytes(c)[k] == if k % 2 == 0 then Formatted(k / 2, (k / 2) % 2 == 0) else Sent(k / 2)
  {
    if k < 2 * (c - 1) {
      CompletedBytesAt(c - 1, k);
    }
  }

  /**
   * Formats and successful sends strictly alternate, every send is of the byte
   * formatted just before it, even bytes get H and odd bytes L, and no byte is
   * formatted twice.
   */
  lemma RgbScheduleAlternates(c: nat, pending: bool)
    ensures var s := RgbSchedule(c, pending);
      (forall k :: 0 <= k < |s| ==> (s[k].Formatted? <==> k % 2 == 0))
      && (forall k :: 0 <= k < |s| && s[k].Sent? ==> s[k - 1] == Formatted(s[k].index, s[k].index % 2 == 0))
      && (forall k :: 0 <= k < |s| && s[k].Formatted? ==> s[k].high == (s[k].index % 2 == 0))
      && (forall j, k :: 0 <= j < k < |s| && s[j].Formatted? && s[k].Formatted? ==> s[j].index < s[k].index)
  {
    var s := RgbSchedule(c, pending);
    forall k | 0 <= k < |s|
      ensures s[k] == if k % 2 == 0 then Formatted(k / 2, (k / 2) % 2 == 0) else Sent(k / 2)
    {
      if k < 2 * c {
        CompletedBytesAt(c, k);
      }
    }
  }
}
