/**
 * Everything one frame puts on the wire, in order: the specification the
 * frame loops of camera.cpp are proved against.
 */
module FrameStream {
  import opened Config
  import opened PixelEncoding
  import opened CommandFrames
  import opened DebugText
  import opened LineStreams
  import opened Histogram
  import opened Optional
  import opened SeqFacts

  /** The pixel bytes of the first n grayscale lines, line after line; never a 0x00 marker. */
  function GrayscaleLines(lines: seq<seq<bv8>>, n: nat): (r: seq<bv8>)
    requires LinesOfLength(lines, n, LINE_LENGTH)
    ensures |r| == n * LINE_LENGTH
    ensures forall i :: 0 <= i < |r| ==> r[i] != 0
  {
    if n == 0 then [] else GrayscaleLines(lines, n - 1) + GrayscaleLineBytes(lines[n - 1])
  }

  /** The pixel bytes of the first n RGB565 lines; never a 0x00 marker. */
  function RgbLines(lines: seq<seq<bv8>>, n: nat): (r: seq<bv8>)
    requires LinesOfLength(lines, n, 2 * LINE_LENGTH)
    ensures |r| == n * (2 * LINE_LENGTH)
    ensures forall i :: 0 <= i < |r| ==> r[i] != 0
  {
    if n == 0 then [] else RgbLines(lines, n - 1) + RgbLineBytes(lines[n - 1])
  }

  /** Sending fewer lines sends a prefix of the longer stream. */
  lemma {:induction false} GrayscaleLinesPrefix(lines: seq<seq<bv8>>, n: nat, m: nat)
    requires n <= m && LinesOfLength(lines, m, LINE_LENGTH)
    ensures GrayscaleLines(lines, m)[..n * LINE_LENGTH] == GrayscaleLines(lines, n)
  {
    if n < m {
      GrayscaleLinesPrefix(lines, n, m - 1);
      var shorter := GrayscaleLines(lines, m - 1);
      assert |shorter| == (m - 1) * LINE_LENGTH;
      assert n * LINE_LENGTH <= (m - 1) * LINE_LENGTH;
      assert GrayscaleLines(lines, m)[..n * LINE_LENGTH] == shorter[..n * LINE_LENGTH];
    } else {
      assert GrayscaleLines(lines, m)[..n * LINE_LENGTH] == GrayscaleLines(lines, m);
    }
  }

  /** Debug commands carrying the decimal value of each of the first n buckets. */
  function BucketReport(c: seq<u16>, n: nat): seq<bv8>
    requires n <= |c|
  {
    if n == 0 then [] else BucketReport(c, n - 1) + DebugCommand(Decimal(c[n - 1]))
  }

  /** The debug commands after the pixels: five buckets, the mode, the unexpected flag. */
  function HistogramReport(c: seq<u16>): seq<bv8>
    requires |c| == BUCKETS
  {
    BucketReport(c, BUCKETS) + DebugCommand(WholeFloatText(Mode(c))) + DebugCommand(BoolText(Unexpected(c)))
  }

  /** The normalized histogram of a frame of which 60 lines are sent. */
  function FrameBuckets(lines: seq<seq<bv8>>): (c: seq<u16>)
    requires LinesOfLength(lines, LINE_COUNT / 2, LINE_LENGTH)
    ensures |c| == BUCKETS
  {
    Normalize(FrameHistogram(lines, LINE_COUNT / 2))
  }

  /** A raw grayscale line whose bytes alternate p (even positions) and q (odd positions). */
  function PairLine(p: bv8, q: bv8): (r: seq<bv8>)
    ensures |r| == LINE_LENGTH
    ensures forall i :: 0 <= i < |r| ==> r[i] == if i % 2 == 0 then p else q
  {
    seq(LINE_LENGTH, i requires 0 <= i < LINE_LENGTH => if i % 2 == 0 then p else q)
  }

  /** A sensor that sees the luma pair 138, 137 on every one of the 60 lines sent. */
  function WrapLines(): (lines: seq<seq<bv8>>)
    ensures LinesOfLength(lines, LINE_COUNT / 2, LINE_LENGTH)
  {
    seq(LINE_COUNT / 2, _ => PairLine(138, 137))
  }

  /** Both luma bytes of WrapLines already carry their pair marks, so encoding keeps them. */
  lemma WrapLineBytes()
    ensures forall i :: 0 <= i < LINE_LENGTH ==>
      GrayscaleLineBytes(PairLine(138, 137))[i] == if i % 2 == 0 then 138 else 137
  {
    var enc := GrayscaleLineBytes(PairLine(138, 137));
    forall i | 0 <= i < LINE_LENGTH
      ensures enc[i] == if i % 2 == 0 then 138 else 137
    {
      assert enc[i] == GrayscaleEncodeAt(PairLine(138, 137)[i], i);
    }
  }

  /** Each of the first n lines of WrapLines that is sampled adds 4400 to every bucket. */
  lemma {:induction false} WrapLinesBucketSum(n: nat, b: nat)
    requires n <= LINE_COUNT / 2 && b < BUCKETS
    ensures FrameBucketSum(WrapLines(), n, b) == (n + 3) / 4 * 4400
  {
    if n > 0 {
      WrapLinesBucketSum(n - 1, b);
      var enc := GrayscaleLineBytes(PairLine(138, 137));
      assert WrapLines()[n - 1] == PairLine(138, 137);
      if SampledLine(n - 1) {
        WrapLineBytes();
        AlternatingBucketSum(enc, 138, 137, b, LINE_LENGTH);
        AlternatingPairs(138, 137, 16);
        assert BucketSum(enc, b, LINE_LENGTH) == 4400;
        assert (n + 3) / 4 == (n + 2) / 4 + 1;
      } else {
        assert (n + 3) / 4 == (n + 2) / 4;
      }
    }
  }

  /**
   * The undefined mode is reachable from the sensor: on WrapLines every bucket's
   * true sum is 15 sampled lines times 16 pairs times 275, that is 66000, which
   * wraps in 16 bits to 464 and normalizes to 0, so the written mode is 0 / 0.
   */
  lemma WrappedLinesReachUndefinedMode()
    ensures forall b :: 0 <= b < BUCKETS ==> FrameBucketSum(WrapLines(), LINE_COUNT / 2, b) == 66000
    ensures FrameBuckets(WrapLines()) == Zeros()
    ensures ModeAsWritten(FrameBuckets(WrapLines())).None?
  {
    var lines := WrapLines();
    var h := FrameHistogram(lines, LINE_COUNT / 2);
    forall b | 0 <= b < BUCKETS
      ensures FrameBucketSum(lines, LINE_COUNT / 2, b) == 66000 && h[b] == 464
    {
      WrapLinesBucketSum(LINE_COUNT / 2, b);
      FrameHistogramSums(lines, LINE_COUNT / 2, b);
    }
    assert Normalize(h) == Zeros();
  }

  /** processGrayscaleFrameBuffered: sync message, 60 lines, histogram report. */
  function GrayscaleBufferedFrameWire(lines: seq<seq<bv8>>): seq<bv8>
    requires LinesOfLength(lines, LINE_COUNT / 2, LINE_LENGTH)
  {
    DebugCommand(VsyncText()) + GrayscaleLines(lines, LINE_COUNT / 2) + HistogramReport(FrameBuckets(lines))
  }

  /** processGrayscaleFrameDirect: sync message and all 120 lines. */
  function GrayscaleDirectFrameWire(lines: seq<seq<bv8>>): seq<bv8>
    requires LinesOfLength(lines, LINE_COUNT, LINE_LENGTH)
  {
    DebugCommand(VsyncText()) + GrayscaleLines(lines, LINE_COUNT)
  }

  /** processRgbFrameBuffered and processRgbFrameDirect: sync message and 120 RGB565 lines. */
  function RgbFrameWire(lines: seq<seq<bv8>>): seq<bv8>
    requires LinesOfLength(lines, LINE_COUNT, 2 * LINE_LENGTH)
  {
    DebugCommand(VsyncText()) + RgbLines(lines, LINE_COUNT)
  }

  /** processFrame: new-frame command, the buffered grayscale frame, then "Frame N" for the new count N. */
  function ProcessFrameWire(count: u16, lines: seq<seq<bv8>>): seq<bv8>
    requires LinesOfLength(lines, LINE_COUNT / 2, LINE_LENGTH)
  {
    NewFrameCommand(LINE_LENGTH_16, LINE_COUNT_16, PIXEL_FORMAT_GRAYSCALE)
    + GrayscaleBufferedFrameWire(lines)
    + DebugCommand(FrameText(count))
  }

  /** processFrame's wire, grouped as the two calls that send it: the announced frame, then the count. */
  lemma ProcessFrameWireSplit(w: seq<bv8>, count: u16, lines: seq<seq<bv8>>)
    requires LinesOfLength(lines, LINE_COUNT / 2, LINE_LENGTH)
    ensures w + ProcessFrameWire(count, lines)
      == w + (NewFrameCommand(LINE_LENGTH_16, LINE_COUNT_16, PIXEL_FORMAT_GRAYSCALE)
        + GrayscaleBufferedFrameWire(lines)) + DebugCommand(FrameText(count))
  {
    AppendAssoc(w, NewFrameCommand(LINE_LENGTH_16, LINE_COUNT_16, PIXEL_FORMAT_GRAYSCALE)
      + GrayscaleBufferedFrameWire(lines), DebugCommand(FrameText(count)));
  }

  /** sendBlankFrame: an RGB565 new-frame command and 120 lines of one colour. */
  function BlankFrameWire(color: bv16): seq<bv8>
  {
    NewFrameCommand(LINE_LENGTH_16, LINE_COUNT_16, PIXEL_FORMAT_RGB565)
    + BlankFramePixels(color, LINE_COUNT, LINE_LENGTH)
  }

  /**
   * The header of processFrame announces a 160 x 120 grayscale image, while
   * the buffered grayscale loop sends only the first 60 lines, which are the
   * first half of what the direct loop sends for the same sensor lines.
   */
  lemma AnnouncedHeightIsTwiceSent(lines: seq<seq<bv8>>)
    requires LinesOfLength(lines, LINE_COUNT, LINE_LENGTH)
    ensures DecodeNewFrame(NewFrameCommand(LINE_LENGTH_16, LINE_COUNT_16, PIXEL_FORMAT_GRAYSCALE))
         == Some((160, 120, PIXEL_FORMAT_GRAYSCALE))
    ensures |GrayscaleLines(lines, LINE_COUNT / 2)| * 2 == |GrayscaleLines(lines, LINE_COUNT)|
    ensures GrayscaleLines(lines, LINE_COUNT)[..LINE_COUNT / 2 * LINE_LENGTH] == GrayscaleLines(lines, LINE_COUNT / 2)
  {
    NewFrameRoundTrip(LINE_LENGTH_16, LINE_COUNT_16, PIXEL_FORMAT_GRAYSCALE);
    GrayscaleLinesPrefix(lines, LINE_COUNT / 2, LINE_COUNT);
  }

  /** Every byte the scheduler formats or sends lies in a buffer of the given length. */
  predicate ScheduleWithin(events: seq<Event>, bufferLength: nat)
  {
    forall k :: 0 <= k < |events| ==> events[k].index < bufferLength
  }

  /** A finished line of c bytes touches only bytes 0..c-1, so a buffer of c bytes holds it. */
  lemma RgbScheduleWithinLine(c: nat)
    ensures ScheduleWithin(RgbSchedule(c, false), c)
  {
    forall k | 0 <= k < |RgbSchedule(c, false)|
      ensures RgbSchedule(c, false)[k].index < c
    {
      CompletedBytesAt(c, k);
    }
  }

  /**
   * processRgbFrameBuffered as written: the drain loop runs the schedule up to
   * byte 2 * LINE_LENGTH of the line, while the buffer declared for it holds
   * LINE_BUFFER_LENGTH bytes; the first step past the buffer formats byte 160.
   */
  lemma RgbBufferOverrunAsWritten()
    ensures LINE_BUFFER_LENGTH < 2 * LINE_LENGTH
    ensures RgbSchedule(2 * LINE_LENGTH, false)[2 * LINE_BUFFER_LENGTH] == Formatted(LINE_BUFFER_LENGTH, true)
    ensures !ScheduleWithin(RgbSchedule(2 * LINE_LENGTH, false), LINE_BUFFER_LENGTH)
  {
    CompletedBytesAt(2 * LINE_LENGTH, 2 * LINE_BUFFER_LENGTH);
  }

  /** n copies of one solid line. */
  function SolidLines(colorH: bv8, colorL: bv8, n: nat): (r: seq<seq<bv8>>)
    ensures |r| == n && forall y :: 0 <= y < n ==> r[y] == SolidRgbLine(colorH, colorL, LINE_LENGTH)
  {
    seq(n, y => SolidRgbLine(colorH, colorL, LINE_LENGTH))
  }

  lemma {:induction false} RepeatedSolidLines(colorH: bv8, colorL: bv8, n: nat)
    ensures RgbLines(SolidLines(colorH, colorL, n), n)
         == Repeat(RgbLineBytes(SolidRgbLine(colorH, colorL, LINE_LENGTH)), n)
  {
    if n > 0 {
      RepeatedSolidLines(colorH, colorL, n - 1);
      var lines := SolidLines(colorH, colorL, n);
      var fewer := SolidLines(colorH, colorL, n - 1);
      RgbLinesDependOnPrefix(lines, fewer, n - 1);
    }
  }

  lemma {:induction false} RgbLinesDependOnPrefix(lines: seq<seq<bv8>>, other: seq<seq<bv8>>, n: nat)
    requires LinesOfLength(lines, n, 2 * LINE_LENGTH) && LinesOfLength(other, n, 2 * LINE_LENGTH)
    requires lines[..n] == other[..n]
    ensures RgbLines(lines, n) == RgbLines(other, n)
  {
    if n > 0 {
      assert lines[n - 1] == lines[..n][n - 1];
      assert lines[..n - 1] == other[..n - 1] by {
        assert lines[..n - 1] == lines[..n][..n - 1];
        assert other[..n - 1] == other[..n][..n - 1];
      }
      RgbLinesDependOnPrefix(lines, other, n - 1);
    }
  }

  /** The blank frame's pixels are what the RGB path sends for 120 lines of one colour. */
  lemma BlankFrameMatchesRgbPath(color: bv16)
    ensures var colorH, colorL := ((color >> 8) & 0xFF) as bv8, (color & 0xFF) as bv8;
      BlankFramePixels(color, LINE_COUNT, LINE_LENGTH) == RgbLines(SolidLines(colorH, colorL, LINE_COUNT), LINE_COUNT)
  {
    var colorH, colorL := ((color >> 8) & 0xFF) as bv8, (color & 0xFF) as bv8;
    BlankFrameIsSolidLines(color, LINE_COUNT, LINE_LENGTH);
    RepeatedSolidLines(colorH, colorL, LINE_COUNT);
  }
}
