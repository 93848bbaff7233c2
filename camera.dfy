/**
 * The transmit side of camera.cpp as a state machine.
 *
 * FrameEncoder holds the file's global state: the line buffer with its send
 * cursor and the two RGB scheduler flags, the column histogram, mode,
 * unexpected flag and frame counter.  Writing UDR0 appends to wire; a
 * blocking write (waitForPreviousUartByteToBeSent, then UDR0) is modelled as
 * an append that happens, a non-blocking poll of isUartReady() as a boolean
 * supplied by the caller.  The sensor is a sequence of raw bytes per line.
 * drive() is a consumer that records the mode it is given.
 */
module Camera {
  import opened Config
  import opened PixelEncoding
  import opened CommandFrames
  import opened DebugText
  import opened LineStreams
  import opened Histogram
  import opened FrameStream
  import opened SeqFacts

  /** Readiness polls during capture: one per captured byte of each of the first n lines. */
  predicate CapturePolls(ready: seq<seq<bool>>, n: nat, perLine: nat)
  {
    n <= |ready| && forall y :: 0 <= y < n ==> |ready[y]| == perLine
  }

  /**
   * Readiness polls while draining each of the first n lines: the transmitter
   * is found ready at least perLine times, which is the liveness the
   * busy-waiting drain loops rely on.
   */
  predicate DrainPolls(ready: seq<seq<bool>>, n: nat, perLine: nat)
  {
    n <= |ready| && forall y :: 0 <= y < n ==> CountTrue(ready[y]) >= perLine
  }

  /** frameCounter++ on a 16-bit counter: one more, wrapping from 65535 to 0. */
  function Increment16(c: u16): u16
  {
    if c == 0xFFFF then 0 else c + 1
  }

  /** The increment is addition modulo 65536. */
  lemma Increment16Wraps(c: u16)
    ensures Increment16(c) == (c + 1) % 0x1_0000
    ensures c < 0xFFFF ==> Increment16(c) == c + 1
  {
  }

  /**
   * The buffered RGB scheduler's state for one line, as values: buf is the
   * line buffer, x bytes of it are captured, cursor bytes are sent, formatted
   * says whether the byte under the cursor is already encoded, and high is the
   * flag that chooses H or L for the next byte to be encoded.
   */
  ghost predicate RgbScheduleState(raw: seq<bv8>, x: nat, buf: seq<bv8>, cursor: nat, formatted: bool, high: bool,
                                   events: seq<Event>)
  {
    var enc := RgbLineBytes(raw);
    var pending := if formatted then 1 else 0;
    |buf| == |raw| && x <= |raw| && cursor + pending <= x
    && high == ((cursor % 2 == 0) != formatted)
    && (forall i :: 0 <= i < cursor ==> buf[i] == enc[i])
    && (formatted ==> buf[cursor] == enc[cursor])
    && (forall i :: cursor + pending <= i < x ==> buf[i] == raw[i])
    && events == RgbSchedule(cursor, formatted)
  }

  /** A newly captured raw byte joins the unformatted part of the buffer. */
  lemma RgbCaptureKeeps(raw: seq<bv8>, x: nat, buf: seq<bv8>, cursor: nat, formatted: bool, high: bool,
                        events: seq<Event>)
    requires RgbScheduleState(raw, x, buf, cursor, formatted, high, events) && x < |raw|
    ensures RgbScheduleState(raw, x + 1, buf[x := raw[x]], cursor, formatted, high, events)
  {
  }

  /** Encoding the byte under the cursor with the H/L flag gives its wire byte. */
  lemma RgbFormatKeeps(raw: seq<bv8>, x: nat, buf: seq<bv8>, cursor: nat, high: bool, events: seq<Event>)
    requires RgbScheduleState(raw, x, buf, cursor, false, high, events) && cursor < x
    ensures RgbScheduleState(raw, x, buf[cursor := if high then RgbHigh(buf[cursor]) else RgbLow(buf[cursor])],
                             cursor, true, !high, events + [Formatted(cursor, high)])
  {
  }

  /** The formatted byte under the cursor is the next wire byte; sending it advances the cursor. */
  lemma RgbSendKeeps(raw: seq<bv8>, x: nat, buf: seq<bv8>, cursor: nat, high: bool, events: seq<Event>)
    requires RgbScheduleState(raw, x, buf, cursor, true, high, events)
    ensures cursor < |raw| && buf[cursor] == RgbLineBytes(raw)[cursor]
    ensures RgbScheduleState(raw, x, buf, cursor + 1, false, high, events + [Sent(cursor)])
  {
    assert CompletedBytes(cursor + 1) == CompletedBytes(cursor) + [Formatted(cursor, cursor % 2 == 0), Sent(cursor)];
  }

  /** Once every byte is sent, the buffer holds the encoded line and nothing is pending. */
  lemma RgbLineDone(raw: seq<bv8>, x: nat, buf: seq<bv8>, cursor: nat, formatted: bool, high: bool, events: seq<Event>)
    requires RgbScheduleState(raw, x, buf, cursor, formatted, high, events) && cursor >= |raw|
    ensures cursor == |raw| && buf == RgbLineBytes(raw) && !formatted && events == RgbSchedule(|raw|, false)
  {
  }

  class FrameEncoder {
    /** lineBuffer; lineBufferSendByte is the index sendCursor into it. */
    var lineBuffer: array<bv8>
    var sendCursor: nat
    var isLineBufferSendHighByte: bool
    var isLineBufferByteFormatted: bool
    /** How many bytes of the current line the sensor has delivered so far. */
    ghost var capturedBytes: nat
    /** What the RGB scheduler has done to the bytes of the current line. */
    ghost var events: seq<Event>

    var columnIntensity: array<u16>
    var mode: int
    var unexpected: bool
    var frameCounter: u16
    var processedByteCount: nat

    /** Every byte written to the UART data register, in order. */
    var wire: seq<bv8>
    /** Every mode handed to drive, in order. */
    var drivenModes: seq<int>

    ghost predicate Valid()
      reads this`columnIntensity, this`sendCursor, this`lineBuffer
    {
      columnIntensity.Length == BUCKETS && sendCursor <= lineBuffer.Length
    }

    /** Power-on state; camera.cpp allocates a LINE_BUFFER_LENGTH-byte buffer. */
    constructor (bufferLength: nat)
      ensures Valid() && fresh(lineBuffer) && fresh(columnIntensity)
      ensures lineBuffer.Length == bufferLength && columnIntensity[..] == Zeros()
      ensures wire == [] && drivenModes == [] && frameCounter == 0
      ensures mode == 0 && !unexpected && processedByteCount == 0 && sendCursor == 0
    {
      lineBuffer := new bv8[bufferLength];
      sendCursor := 0;
      isLineBufferSendHighByte := false;
      isLineBufferByteFormatted := false;
      capturedBytes := 0;
      events := [];
      columnIntensity := new u16[BUCKETS](_ => 0);
      mode := 0;
      unexpected := false;
      frameCounter := 0;
      processedByteCount := 0;
      wire := [];
      drivenModes := [];
    }

    /** waitForPreviousUartByteToBeSent, then a write of b to UDR0. */
    method Transmit(b: bv8)
      modifies this`wire
      ensures wire == old(wire) + [b]
    {
      wire := wire + [b];
    }

    /** The abstract drive consumer: it records the mode it receives. */
    method Drive(m: int)
      modifies this`drivenModes
      ensures drivenModes == old(drivenModes) + [m]
    {
      drivenModes := drivenModes + [m];
    }

    method SendNextCommandByte(checksum: bv8, commandByte: bv8) returns (r: bv8)
      modifies this`wire
      ensures wire == old(wire) + [commandByte]
      ensures r == checksum ^ commandByte
    {
      Transmit(commandByte);
      r := checksum ^ commandByte;
    }

    method CommandStartNewFrame(pixelFormat: bv8)
      modifies this`wire
      ensures wire == old(wire) + NewFrameCommand(LINE_LENGTH_16, LINE_COUNT_16, pixelFormat)
    {
      Transmit(0x00);
      Transmit(4);
      var checksum: bv8 := 0;
      checksum := SendNextCommandByte(checksum, COMMAND_NEW_FRAME);
      checksum := SendNextCommandByte(checksum, (LINE_LENGTH_16 & 0xFF) as bv8);
      checksum := SendNextCommandByte(checksum, (LINE_COUNT_16 & 0xFF) as bv8);
      checksum := SendNextCommandByte(checksum,
        (((LINE_LENGTH_16 >> 8) & 0x03) | ((LINE_COUNT_16 >> 6) & 0x0C)) as bv8 | ((pixelFormat << 4) & 0xF0));
      Transmit(checksum);
      ghost var payload := NewFramePayload(LINE_LENGTH_16, LINE_COUNT_16, pixelFormat);
      XorFoldFour(payload[0], payload[1], payload[2], payload[3]);
    }

    /** The text loop of commandDebugPrint: each byte sent and folded into the checksum. */
    method SendCommandBytes(checksum: bv8, bytes: seq<bv8>) returns (r: bv8)
      modifies this`wire
      ensures wire == old(wire) + bytes
      ensures r == checksum ^ XorFold(bytes)
    {
      r := checksum;
      var i := 0;
      while i < |bytes|
        invariant 0 <= i <= |bytes|
        invariant wire == old(wire) + bytes[..i]
        invariant r == checksum ^ XorFold(bytes[..i])
      {
        r := SendNextCommandByte(r, bytes[i]);
        AppendNext(old(wire), bytes, i);
        assert bytes[..i + 1] == bytes[..i] + [bytes[i]];
        XorFoldSnoc(bytes[..i], bytes[i]);
        i := i + 1;
      }
      assert bytes[..i] == bytes;
    }

    method CommandDebugPrint(debugText: seq<bv8>)
      modifies this`wire
      ensures wire == old(wire) + DebugCommand(debugText)
    {
      if |debugText| > 0 {
        var length := ((|debugText| + 1) % 256) as bv8;
        assert length == LengthByte(|debugText| + 1);
        Transmit(0x00);
        Transmit(length);
        var checksum: bv8 := 0;
        checksum := SendNextCommandByte(checksum, COMMAND_DEBUG_DATA);
        ghost var header := wire;
        assert header == old(wire) + [0x00, length, COMMAND_DEBUG_DATA];
        checksum := SendCommandBytes(checksum, debugText);
        Transmit(checksum);
        XorFoldCons(COMMAND_DEBUG_DATA, debugText);
        AppendAssoc([0x00, length], [COMMAND_DEBUG_DATA], debugText);
        assert [0x00, length] + [COMMAND_DEBUG_DATA] == [0x00, length, COMMAND_DEBUG_DATA];
        AppendAssoc(old(wire), [0x00, length, COMMAND_DEBUG_DATA], debugText);
        AppendAssoc(old(wire), [0x00, length, COMMAND_DEBUG_DATA] + debugText, [checksum]);
      }
    }

    /** sendBlankFrame: an RGB565 frame in which every pixel has the given colour. */
    method SendBlankFrame(color: bv16)
      modifies this`wire
      ensures wire == old(wire) + BlankFrameWire(color)
    {
      var colorH := ((color >> 8) & 0xFF) as bv8;
      var colorL := (color & 0xFF) as bv8;
      CommandStartNewFrame(PIXEL_FORMAT_RGB565);
      ghost var start := wire;
      ghost var pair := [RgbHigh(colorH), RgbLow(colorL)];
      ghost var line := Repeat(pair, LINE_LENGTH);
      var j := 0;
      while j < LINE_COUNT
        invariant j <= LINE_COUNT
        invariant wire == start + Repeat(line, j)
      {
        ghost var before := wire;
        var i := 0;
        while i < LINE_LENGTH
          invariant i <= LINE_LENGTH
          invariant wire == before + Repeat(pair, i)
        {
          Transmit(RgbHigh(colorH));
          Transmit(RgbLow(colorL));
          i := i + 1;
        }
        j := j + 1;
      }
    }

    /** processNextGrayscalePixelByteInBuffer: send the byte under the cursor if the UART is ready. */
    method ProcessNextGrayscalePixelByteInBuffer(ready: bool)
      requires Valid() && sendCursor < capturedBytes <= lineBuffer.Length
      modifies this`wire, this`sendCursor
      ensures Valid()
      ensures ready ==> wire == old(wire) + [lineBuffer[old(sendCursor)]] && sendCursor == old(sendCursor) + 1
      ensures !ready ==> wire == old(wire) && sendCursor == old(sendCursor)
    {
      if ready {
        Transmit(lineBuffer[sendCursor]);
        sendCursor := sendCursor + 1;
      }
    }

    /** The first x bytes of the line buffer hold the encoded line. */
    ghost predicate BufferHolds(enc: seq<bv8>, x: nat)
      reads this`lineBuffer, lineBuffer
    {
      x <= lineBuffer.Length && x <= |enc| && forall i :: 0 <= i < x ==> lineBuffer[i] == enc[i]
    }

    /** x bytes are captured, and the first sendCursor of them are on the wire after start. */
    ghost predicate SentPrefix(enc: seq<bv8>, x: nat, start: seq<bv8>)
      reads this`wire, this`sendCursor, this`capturedBytes
    {
      capturedBytes == x && sendCursor <= x <= |enc| && wire == start + enc[..sendCursor]
    }

    /** The column sums after the first x bytes of line y, from h0 at line start. */
    ghost predicate ColumnsHold(y: nat, enc: seq<bv8>, x: nat, h0: seq<u16>)
      reads this`columnIntensity, columnIntensity
      requires |h0| == BUCKETS && x <= |enc| <= LINE_LENGTH
    {
      columnIntensity[..] == if SampledLine(y) then AccumulateLine(h0, enc, x) else h0
    }

    /**
     * The state of a grayscale line of which x bytes are captured and
     * sendCursor of them sent, with the column sums h0 at line start.
     */
    ghost predicate GrayscaleLineState(y: nat, raw: seq<bv8>, x: nat, start: seq<bv8>, h0: seq<u16>)
      reads this, lineBuffer, columnIntensity
      requires |raw| == LINE_LENGTH && |h0| == BUCKETS
    {
      var enc := GrayscaleLineBytes(raw);
      Valid() && lineBuffer.Length == LINE_BUFFER_LENGTH && x <= LINE_LENGTH
      && BufferHolds(enc, x) && SentPrefix(enc, x, start) && ColumnsHold(y, enc, x, h0)
    }

    /**
     * Half of one pass of the capture loop: byte x, already formatted, goes
     * to the buffer, one byte may be sent, and the byte is added to the
     * column of pixelX, the index of the pair.
     */
    method StoreGrayscaleByte(y: nat, raw: seq<bv8>, x: nat, pixelX: nat, formatted: bv8, ready: bool,
                              ghost start: seq<bv8>, ghost h0: seq<u16>)
      requires |raw| == LINE_LENGTH && |h0| == BUCKETS && x < LINE_LENGTH && pixelX == x - x % 2
      requires formatted == GrayscaleEncodeAt(raw[x], x)
      requires GrayscaleLineState(y, raw, x, start, h0)
      modifies this`wire, this`sendCursor, this`capturedBytes, lineBuffer, columnIntensity
      ensures GrayscaleLineState(y, raw, x + 1, start, h0)
    {
      ghost var enc := GrayscaleLineBytes(raw);
      StoreByte(enc, x, formatted);
      capturedBytes := x + 1;
      if IS_SEND_WHILE_BUFFERING {
        SendBufferedByte(enc, x + 1, start, ready);
      }
      AccumulateIntensity(y, enc, x, pixelX, lineBuffer[x], h0);
    }

    /** camera.readPixelByte into lineBuffer[x], formatted in place. */
    method StoreByte(ghost enc: seq<bv8>, x: nat, formatted: bv8)
      requires BufferHolds(enc, x) && x < lineBuffer.Length && x < |enc| && formatted == enc[x]
      modifies lineBuffer
      ensures BufferHolds(enc, x + 1)
    {
      lineBuffer[x] := formatted;
    }

    /** processNextGrayscalePixelByteInBuffer on a partly captured line keeps the sent prefix. */
    method SendBufferedByte(ghost enc: seq<bv8>, x: nat, ghost start: seq<bv8>, ready: bool)
      requires Valid() && BufferHolds(enc, x) && SentPrefix(enc, x, start) && sendCursor < x
      modifies this`wire, this`sendCursor
      ensures Valid() && SentPrefix(enc, x, start)
      ensures sendCursor == if ready then old(sendCursor) + 1 else old(sendCursor)
    {
      ghost var c := sendCursor;
      ProcessNextGrayscalePixelByteInBuffer(ready);
      if ready {
        AppendNext(start, enc, c);
      }
    }

    /**
     * The accumulation step of the capture loop: on sampled lines byte x is
     * added, wrapping, to the column of pixelX.
     */
    method AccumulateIntensity(y: nat, ghost enc: seq<bv8>, x: nat, pixelX: nat, value: bv8, ghost h0: seq<u16>)
      requires Valid() && |h0| == BUCKETS && x < |enc| <= LINE_LENGTH && pixelX == x - x % 2 && value == enc[x]
      requires ColumnsHold(y, enc, x, h0)
      modifies columnIntensity
      ensures ColumnsHold(y, enc, x + 1, h0)
    {
      if y % 4 == 0 && y <= LINE_COUNT / 2 {
        columnIntensity[pixelX / 32] := (columnIntensity[pixelX / 32] + value as int) % 0x1_0000;
      }
    }

    /** The drain loop after capture: keep polling until the whole line is sent. */
    method DrainGrayscaleLine(y: nat, raw: seq<bv8>, drainReady: seq<bool>, ghost start: seq<bv8>, ghost h0: seq<u16>)
      requires |raw| == LINE_LENGTH && |h0| == BUCKETS
      requires GrayscaleLineState(y, raw, LINE_LENGTH, start, h0)
      requires CountTrue(drainReady) >= LINE_LENGTH - sendCursor
      modifies this`wire, this`sendCursor
      ensures GrayscaleLineState(y, raw, LINE_LENGTH, start, h0) && sendCursor == LINE_LENGTH
    {
      ghost var enc := GrayscaleLineBytes(raw);
      var k := 0;
      while sendCursor < LINE_LENGTH
        invariant GrayscaleLineState(y, raw, LINE_LENGTH, start, h0)
        invariant k <= |drainReady| && CountTrue(drainReady[k..]) >= LINE_LENGTH - sendCursor
        decreases |drainReady| - k
      {
        CountTrueStep(drainReady, k);
        ghost var c := sendCursor;
        ProcessNextGrayscalePixelByteInBuffer(drainReady[k]);
        if sendCursor != c {
          AppendNext(start, enc, c);
        }
        k := k + 1;
      }
    }

    /**
     * One pass of the per-line loop of processGrayscaleFrameBuffered: capture
     * with at most one send per captured byte, histogram accumulation, drain.
     */
    method CaptureGrayscaleLine(y: nat, raw: seq<bv8>, captureReady: seq<bool>, drainReady: seq<bool>)
      requires Valid() && lineBuffer.Length == LINE_BUFFER_LENGTH
      requires |raw| == LINE_LENGTH && |captureReady| == LINE_BUFFER_LENGTH
      requires CountTrue(drainReady) >= LINE_LENGTH
      modifies this`wire, this`sendCursor, this`capturedBytes, this`processedByteCount, lineBuffer, columnIntensity
      ensures Valid()
      ensures wire == old(wire) + GrayscaleLineBytes(raw)
      ensures lineBuffer[..] == GrayscaleLineBytes(raw)
      ensures columnIntensity[..] == if SampledLine(y)
        then AccumulateLine(old(columnIntensity[..]), GrayscaleLineBytes(raw), LINE_LENGTH)
        else old(columnIntensity[..])
      ensures sendCursor == LINE_LENGTH && processedByteCount <= LINE_LENGTH
    {
      ghost var enc := GrayscaleLineBytes(raw);
      ghost var start := wire;
      ghost var h0 := columnIntensity[..];
      sendCursor := 0;
      capturedBytes := 0;
      var x := 0;
      while x < LINE_BUFFER_LENGTH
        invariant x % 2 == 0 && GrayscaleLineState(y, raw, x, start, h0)
      {
        var pixelX := x;
        StoreGrayscaleByte(y, raw, x, pixelX, GrayscaleFirst(raw[x]), captureReady[x], start, h0);
        x := x + 1;
        StoreGrayscaleByte(y, raw, x, pixelX, GrayscaleSecond(raw[x]), captureReady[x], start, h0);
        x := x + 1;
      }
      processedByteCount := sendCursor;
      DrainGrayscaleLine(y, raw, drainReady, start, h0);
      ArrayHolds(lineBuffer, enc);
      TakeAll(enc, sendCursor);
    }

    /**
     * The first loop of the histogram reduction: each bucket divided by 600
     * in place and reported, with the weighted sum (max in camera.cpp) and the
     * total (mode, before it holds the quotient) accumulated on the way.
     */
    method NormalizeColumns() returns (weighted: int, total: int)
      requires Valid()
      modifies this`wire, columnIntensity
      ensures columnIntensity[..] == Normalize(old(columnIntensity[..]))
      ensures weighted == WeightedSum(columnIntensity[..], BUCKETS) && total == Total(columnIntensity[..], BUCKETS)
      ensures wire == old(wire) + BucketReport(columnIntensity[..], BUCKETS)
    {
      ghost var h := columnIntensity[..];
      ghost var c := Normalize(h);
      weighted := 0;
      total := 0;
      var i := 0;
      while i < BUCKETS
        invariant i <= BUCKETS
        invariant forall k :: 0 <= k < i ==> columnIntensity[k] == c[k]
        invariant forall k :: i <= k < BUCKETS ==> columnIntensity[k] == h[k]
        invariant weighted == WeightedSum(c, i) && total == Total(c, i)
        invariant wire == old(wire) + BucketReport(c, i)
      {
        NormalizeBucket(i);
        AppendAssoc(old(wire), BucketReport(c, i), DebugCommand(Decimal(c[i])));
        weighted := weighted + (i + 1) * columnIntensity[i];
        total := total + columnIntensity[i];
        i := i + 1;
      }
      assert columnIntensity[..] == c;
    }

    /** One pass of that loop's body: bucket i divided in place, then reported. */
    method NormalizeBucket(i: nat)
      requires Valid() && i < BUCKETS
      modifies this`wire, columnIntensity
      ensures columnIntensity[i] == old(columnIntensity[i]) / DIVISOR
      ensures forall k :: 0 <= k < BUCKETS && k != i ==> columnIntensity[k] == old(columnIntensity[k])
      ensures wire == old(wire) + DebugCommand(Decimal(columnIntensity[i]))
    {
      columnIntensity[i] := columnIntensity[i] / DIVISOR;
      CommandDebugPrint(Decimal(columnIntensity[i]));
    }

    /** The second loop of the histogram reduction: any two equal neighbours set unexpected. */
    method FlagEqualNeighbours()
      requires Valid() && !unexpected
      modifies this`unexpected
      ensures unexpected == Unexpected(columnIntensity[..])
    {
      ghost var c := columnIntensity[..];
      var j := 0;
      while j < BUCKETS - 1
        invariant j <= BUCKETS - 1
        invariant unexpected <==> exists k :: 0 <= k < j && c[k] == c[k + 1]
      {
        if columnIntensity[j] == columnIntensity[j + 1] {
          unexpected := true;
        }
        j := j + 1;
      }
    }

    /**
     * mode = max / mode, then rounded: up when the quotient is strictly above
     * its whole part plus one half.  A zero total is NaN in camera.cpp; the
     * model falls back to mode 0 there.
     */
    method RoundMode(weighted: int, total: int, ghost c: seq<u16>) returns (m: int)
      requires |c| == BUCKETS && weighted == WeightedSum(c, BUCKETS) && total == Total(c, BUCKETS)
      ensures m == Mode(c)
    {
      if total == 0 {
        m := 0;
      } else {
        WeightedSumBounds(c, BUCKETS);
        var q := weighted / total;
        if 2 * weighted > (2 * q + 1) * total {
          m := q + 1;
        } else {
          m := q;
        }
        ModeAgreesWhereDefined(c);
      }
    }

    /** The two reports after the histogram: String(mode) of the float mode and String(unexpected). */
    method ReportModeAndFlag()
      requires 0 <= mode
      modifies this`wire
      ensures wire == old(wire) + DebugCommand(WholeFloatText(mode)) + DebugCommand(BoolText(unexpected))
    {
      CommandDebugPrint(WholeFloatText(mode));
      CommandDebugPrint(BoolText(unexpected));
    }

    /**
     * The histogram reduction at the end of processGrayscaleFrameBuffered:
     * normalize and report the buckets, compute mode and unexpected, report
     * them and drive.
     */
    method SummarizeColumns()
      requires Valid() && !unexpected
      modifies this`wire, this`mode, this`unexpected, this`drivenModes, columnIntensity
      ensures Valid()
      ensures columnIntensity[..] == Normalize(old(columnIntensity[..]))
      ensures wire == old(wire) + HistogramReport(Normalize(old(columnIntensity[..])))
      ensures mode == Mode(Normalize(old(columnIntensity[..])))
      ensures unexpected == Unexpected(Normalize(old(columnIntensity[..])))
      ensures drivenModes == old(drivenModes) + [mode]
    {
      NormalizeAndRound();
      ghost var c := columnIntensity[..];
      ReportModeAndFlag();
      ghost var modeText := DebugCommand(WholeFloatText(mode));
      AppendAssoc(old(wire), BucketReport(c, BUCKETS), modeText);
      AppendAssoc(old(wire), BucketReport(c, BUCKETS) + modeText, DebugCommand(BoolText(unexpected)));
      Drive(mode);
    }

    /** The first half of the reduction: normalize and report the buckets, then round the mode and set the flag. */
    method NormalizeAndRound()
      requires Valid() && !unexpected
      modifies this`wire, this`mode, this`unexpected, columnIntensity
      ensures Valid()
      ensures columnIntensity[..] == Normalize(old(columnIntensity[..]))
      ensures wire == old(wire) + BucketReport(columnIntensity[..], BUCKETS)
      ensures mode == Mode(columnIntensity[..]) && unexpected == Unexpected(columnIntensity[..])
    {
      var weighted, total := NormalizeColumns();
      mode := RoundMode(weighted, total, columnIntensity[..]);
      FlagEqualNeighbours();
    }

    /** The five column sums are reset at the start of every grayscale frame. */
    method ClearColumns()
      requires Valid()
      modifies columnIntensity
      ensures columnIntensity[..] == Zeros()
    {
      columnIntensity[0] := 0;
      columnIntensity[1] := 0;
      columnIntensity[2] := 0;
      columnIntensity[3] := 0;
      columnIntensity[4] := 0;
      assert columnIntensity[..] == [0, 0, 0, 0, 0];
    }

    /** The line loop of processGrayscaleFrameBuffered: the first 60 lines, captured, sent and accumulated. */
    method CaptureGrayscaleLines(lines: seq<seq<bv8>>, captureReady: seq<seq<bool>>, drainReady: seq<seq<bool>>)
      requires Valid() && lineBuffer.Length == LINE_BUFFER_LENGTH
      requires LinesOfLength(lines, LINE_COUNT / 2, LINE_LENGTH)
      requires CapturePolls(captureReady, LINE_COUNT / 2, LINE_BUFFER_LENGTH)
      requires DrainPolls(drainReady, LINE_COUNT / 2, LINE_LENGTH)
      requires columnIntensity[..] == Zeros()
      modifies this`wire, this`sendCursor, this`capturedBytes, this`processedByteCount, lineBuffer, columnIntensity
      ensures Valid()
      ensures wire == old(wire) + GrayscaleLines(lines, LINE_COUNT / 2)
      ensures columnIntensity[..] == FrameHistogram(lines, LINE_COUNT / 2)
    {
      var y := 0;
      while y < LINE_COUNT / 2
        invariant y <= LINE_COUNT / 2 && Valid()
        invariant wire == old(wire) + GrayscaleLines(lines, y)
        invariant columnIntensity[..] == FrameHistogram(lines, y)
      {
        assert LinesOfLength(lines, y + 1, LINE_LENGTH);
        CaptureGrayscaleLine(y, lines[y], captureReady[y], drainReady[y]);
        AppendAssoc(old(wire), GrayscaleLines(lines, y), GrayscaleLineBytes(lines[y]));
        y := y + 1;
      }
    }

    /** processGrayscaleFrameBuffered: the grayscale frame loop in use, 60 lines then the histogram. */
    method ProcessGrayscaleFrameBuffered(lines: seq<seq<bv8>>, captureReady: seq<seq<bool>>, drainReady: seq<seq<bool>>)
      requires Valid() && lineBuffer.Length == LINE_BUFFER_LENGTH
      requires LinesOfLength(lines, LINE_COUNT / 2, LINE_LENGTH)
      requires CapturePolls(captureReady, LINE_COUNT / 2, LINE_BUFFER_LENGTH)
      requires DrainPolls(drainReady, LINE_COUNT / 2, LINE_LENGTH)
      modifies this`wire, this`sendCursor, this`capturedBytes, this`processedByteCount, this`mode,
        this`unexpected, this`drivenModes, lineBuffer, columnIntensity
      ensures Valid()
      ensures wire == old(wire) + GrayscaleBufferedFrameWire(lines)
      ensures columnIntensity[..] == FrameBuckets(lines)
      ensures mode == Mode(FrameBuckets(lines)) && unexpected == Unexpected(FrameBuckets(lines))
      ensures drivenModes == old(drivenModes) + [mode]
    {
      unexpected := false;
      ClearColumns();
      CommandDebugPrint(VsyncText());
      mode := 0;
      CaptureGrayscaleLines(lines, captureReady, drainReady);
      SummarizeColumns();
      ghost var pixels := GrayscaleLines(lines, LINE_COUNT / 2);
      AppendAssoc(old(wire), DebugCommand(VsyncText()), pixels);
      AppendAssoc(old(wire), DebugCommand(VsyncText()) + pixels, HistogramReport(FrameBuckets(lines)));
    }

    /** The end of processFrame: count the frame and report the new count. */
    method ReportFrameCount()
      modifies this`wire, this`frameCounter
      ensures frameCounter == Increment16(old(frameCounter))
      ensures wire == old(wire) + DebugCommand(FrameText(frameCounter))
    {
      frameCounter := Increment16(frameCounter);
      CommandDebugPrint(FrameText(frameCounter));
    }

    /** The first part of processFrame: reset the byte count, send the new-frame command, then the buffered grayscale frame. */
    method SendAnnouncedFrame(lines: seq<seq<bv8>>, captureReady: seq<seq<bool>>, drainReady: seq<seq<bool>>)
      requires Valid() && lineBuffer.Length == LINE_BUFFER_LENGTH
      requires LinesOfLength(lines, LINE_COUNT / 2, LINE_LENGTH)
      requires CapturePolls(captureReady, LINE_COUNT / 2, LINE_BUFFER_LENGTH)
      requires DrainPolls(drainReady, LINE_COUNT / 2, LINE_LENGTH)
      modifies this`wire, this`sendCursor, this`capturedBytes, this`processedByteCount, this`mode,
        this`unexpected, this`drivenModes, lineBuffer, columnIntensity
      ensures Valid()
      ensures wire == old(wire) + (NewFrameCommand(LINE_LENGTH_16, LINE_COUNT_16, PIXEL_FORMAT_GRAYSCALE)
        + GrayscaleBufferedFrameWire(lines))
      ensures columnIntensity[..] == FrameBuckets(lines)
      ensures mode == Mode(FrameBuckets(lines)) && unexpected == Unexpected(FrameBuckets(lines))
      ensures drivenModes == old(drivenModes) + [Mode(FrameBuckets(lines))]
    {
      processedByteCount := 0;
      CommandStartNewFrame(PIXEL_FORMAT_GRAYSCALE);
      ProcessGrayscaleFrameBuffered(lines, captureReady, drainReady);
      AppendAssoc(old(wire), NewFrameCommand(LINE_LENGTH_16, LINE_COUNT_16, PIXEL_FORMAT_GRAYSCALE),
        GrayscaleBufferedFrameWire(lines));
    }

    /** processFrame: announce the frame, send it, count it and report the count. */
    method ProcessFrame(lines: seq<seq<bv8>>, captureReady: seq<seq<bool>>, drainReady: seq<seq<bool>>)
      requires Valid() && lineBuffer.Length == LINE_BUFFER_LENGTH
      requires LinesOfLength(lines, LINE_COUNT / 2, LINE_LENGTH)
      requires CapturePolls(captureReady, LINE_COUNT / 2, LINE_BUFFER_LENGTH)
      requires DrainPolls(drainReady, LINE_COUNT / 2, LINE_LENGTH)
      modifies this`wire, this`sendCursor, this`capturedBytes, this`processedByteCount, this`mode,
        this`unexpected, this`drivenModes, this`frameCounter, lineBuffer, columnIntensity
      ensures Valid()
      ensures frameCounter == Increment16(old(frameCounter))
      ensures wire == old(wire) + ProcessFrameWire(frameCounter, lines)
      ensures columnIntensity[..] == FrameBuckets(lines)
      ensures mode == Mode(FrameBuckets(lines)) && unexpected == Unexpected(FrameBuckets(lines))
      ensures drivenModes == old(drivenModes) + [Mode(FrameBuckets(lines))]
    {
      SendAnnouncedFrame(lines, captureReady, drainReady);
      ReportFrameCount();
      ProcessFrameWireSplit(old(wire), frameCounter, lines);
    }

    /** One line of processGrayscaleFrameDirect: each byte formatted in lineBuffer[0] and sent at once. */
    method SendGrayscaleLineDirect(raw: seq<bv8>)
      requires lineBuffer.Length >= 1 && |raw| == LINE_LENGTH
      modifies this`wire, lineBuffer
      ensures wire == old(wire) + GrayscaleLineBytes(raw)
      ensures lineBuffer[1..] == old(lineBuffer[1..])
    {
      ghost var enc := GrayscaleLineBytes(raw);
      var x := 0;
      while x < LINE_LENGTH
        invariant x % 2 == 0 && x <= LINE_LENGTH
        invariant wire == old(wire) + enc[..x]
        invariant lineBuffer[1..] == old(lineBuffer[1..])
      {
        lineBuffer[0] := GrayscaleFirst(raw[x]);
        Transmit(lineBuffer[0]);
        AppendNext(old(wire), enc, x);
        x := x + 1;

        lineBuffer[0] := GrayscaleSecond(raw[x]);
        Transmit(lineBuffer[0]);
        AppendNext(old(wire), enc, x);
        x := x + 1;
      }
      assert enc[..x] == enc;
    }

    /** processGrayscaleFrameDirect: all 120 lines, no histogram. */
    method ProcessGrayscaleFrameDirect(lines: seq<seq<bv8>>)
      requires lineBuffer.Length >= 1 && LinesOfLength(lines, LINE_COUNT, LINE_LENGTH)
      modifies this`wire, lineBuffer
      ensures wire == old(wire) + GrayscaleDirectFrameWire(lines)
      ensures lineBuffer[1..] == old(lineBuffer[1..])
    {
      CommandDebugPrint(VsyncText());
      ghost var start := wire;
      var y := 0;
      while y < LINE_COUNT
        invariant y <= LINE_COUNT
        invariant wire == start + GrayscaleLines(lines, y)
        invariant lineBuffer[1..] == old(lineBuffer[1..])
      {
        SendGrayscaleLineDirect(lines[y]);
        AppendAssoc(start, GrayscaleLines(lines, y), GrayscaleLineBytes(lines[y]));
        y := y + 1;
      }
      AppendAssoc(old(wire), DebugCommand(VsyncText()), GrayscaleLines(lines, LINE_COUNT));
    }

    /** formatNextRgbPixelByteInBuffer: encode the byte under the cursor as H or L, flip the flags. */
    method FormatNextRgbPixelByteInBuffer()
      requires Valid() && sendCursor < capturedBytes <= lineBuffer.Length
      modifies lineBuffer, this`isLineBufferByteFormatted, this`isLineBufferSendHighByte, this`events
      ensures lineBuffer[..] == old(lineBuffer[..])[sendCursor :=
        if old(isLineBufferSendHighByte) then RgbHigh(old(lineBuffer[sendCursor])) else RgbLow(old(lineBuffer[sendCursor]))]
      ensures isLineBufferByteFormatted && isLineBufferSendHighByte == !old(isLineBufferSendHighByte)
      ensures events == old(events) + [Formatted(sendCursor, old(isLineBufferSendHighByte))]
    {
      if isLineBufferSendHighByte {
        lineBuffer[sendCursor] := RgbHigh(lineBuffer[sendCursor]);
      } else {
        lineBuffer[sendCursor] := RgbLow(lineBuffer[sendCursor]);
      }
      isLineBufferByteFormatted := true;
      isLineBufferSendHighByte := !isLineBufferSendHighByte;
      events := events + [Formatted(sendCursor, old(isLineBufferSendHighByte))];
    }

    /** tryToSendNextRgbPixelByteInBuffer: if the UART is ready, send the byte and advance. */
    method TryToSendNextRgbPixelByteInBuffer(ready: bool)
      requires Valid() && sendCursor < capturedBytes <= lineBuffer.Length
      modifies this`wire, this`sendCursor, this`isLineBufferByteFormatted, this`events
      ensures Valid()
      ensures ready ==> (wire == old(wire) + [lineBuffer[old(sendCursor)]] && sendCursor == old(sendCursor) + 1
        && !isLineBufferByteFormatted && events == old(events) + [Sent(old(sendCursor))])
      ensures !ready ==> (wire == old(wire) && sendCursor == old(sendCursor)
        && isLineBufferByteFormatted == old(isLineBufferByteFormatted) && events == old(events))
    {
      if ready {
        Transmit(lineBuffer[sendCursor]);
        events := events + [Sent(sendCursor)];
        sendCursor := sendCursor + 1;
        isLineBufferByteFormatted := false;
      }
    }

    /** processNextRgbPixelByteInBuffer: one scheduler step, either a format or a send attempt. */
    method ProcessNextRgbPixelByteInBuffer(ready: bool)
      requires Valid() && sendCursor < capturedBytes <= lineBuffer.Length
      modifies lineBuffer, this`wire, this`sendCursor, this`isLineBufferByteFormatted,
        this`isLineBufferSendHighByte, this`events
      ensures Valid()
      ensures old(isLineBufferByteFormatted) ==>
        lineBuffer[..] == old(lineBuffer[..]) && isLineBufferSendHighByte == old(isLineBufferSendHighByte)
        && (ready ==> wire == old(wire) + [lineBuffer[old(sendCursor)]] && sendCursor == old(sendCursor) + 1
                      && !isLineBufferByteFormatted && events == old(events) + [Sent(old(sendCursor))])
        && (!ready ==> wire == old(wire) && sendCursor == old(sendCursor)
                       && isLineBufferByteFormatted && events == old(events))
      ensures !old(isLineBufferByteFormatted) ==>
        wire == old(wire) && sendCursor == old(sendCursor)
        && lineBuffer[..] == old(lineBuffer[..])[sendCursor :=
             if old(isLineBufferSendHighByte) then RgbHigh(old(lineBuffer[sendCursor])) else RgbLow(old(lineBuffer[sendCursor]))]
        && isLineBufferByteFormatted && isLineBufferSendHighByte == !old(isLineBufferSendHighByte)
        && events == old(events) + [Formatted(sendCursor, old(isLineBufferSendHighByte))]
    {
      if isLineBufferByteFormatted {
        TryToSendNextRgbPixelByteInBuffer(ready);
      } else {
        FormatNextRgbPixelByteInBuffer();
      }
    }

    /** The scheduler state of a line of which x bytes are captured and sendCursor bytes sent. */
    ghost predicate RgbLineState(raw: seq<bv8>, x: nat, start: seq<bv8>)
      reads this`capturedBytes, this`lineBuffer, lineBuffer, this`sendCursor, this`isLineBufferByteFormatted,
        this`isLineBufferSendHighByte, this`events, this`wire
    {
      capturedBytes == x
      && RgbScheduleState(raw, x, lineBuffer[..], sendCursor, isLineBufferByteFormatted, isLineBufferSendHighByte, events)
      && wire == start + RgbLineBytes(raw)[..sendCursor]
    }

    /** One scheduler step keeps the line state. */
    method RgbStep(raw: seq<bv8>, x: nat, ghost start: seq<bv8>, ready: bool)
      requires Valid() && RgbLineState(raw, x, start) && sendCursor < x
      modifies lineBuffer, this`wire, this`sendCursor, this`isLineBufferByteFormatted,
        this`isLineBufferSendHighByte, this`events
      ensures Valid() && RgbLineState(raw, x, start)
      ensures old(isLineBufferByteFormatted) && ready ==> sendCursor == old(sendCursor) + 1
      ensures old(isLineBufferByteFormatted) && !ready ==> sendCursor == old(sendCursor) && isLineBufferByteFormatted
      ensures !old(isLineBufferByteFormatted) ==> sendCursor == old(sendCursor) && isLineBufferByteFormatted
    {
      ghost var buf, c, h, ev := lineBuffer[..], sendCursor, isLineBufferSendHighByte, events;
      ProcessNextRgbPixelByteInBuffer(ready);
      if !old(isLineBufferByteFormatted) {
        RgbFormatKeeps(raw, x, buf, c, h, ev);
      } else if ready {
        RgbSendKeeps(raw, x, buf, c, h, ev);
        AppendNext(start, RgbLineBytes(raw), c);
      }
    }

    /** The sensor delivers byte x of the line, then the scheduler takes one step. */
    method CaptureRgbByte(raw: seq<bv8>, x: nat, ghost start: seq<bv8>, ready: bool)
      requires Valid() && x < |raw| && RgbLineState(raw, x, start)
      modifies lineBuffer, this`wire, this`sendCursor, this`isLineBufferByteFormatted,
        this`isLineBufferSendHighByte, this`events, this`capturedBytes
      ensures Valid() && RgbLineState(raw, x + 1, start)
    {
      RgbCaptureKeeps(raw, x, lineBuffer[..], sendCursor, isLineBufferByteFormatted, isLineBufferSendHighByte, events);
      lineBuffer[x] := raw[x];
      capturedBytes := x + 1;
      if IS_SEND_WHILE_BUFFERING {
        RgbStep(raw, x + 1, start, ready);
      }
    }

    /** The capture loop of one line: every byte stored, with one scheduler step after each. */
    method BufferRgbLine(raw: seq<bv8>, captureReady: seq<bool>, ghost start: seq<bv8>)
      requires Valid() && |raw| == lineBuffer.Length && |captureReady| == lineBuffer.Length
      requires RgbLineState(raw, 0, start)
      modifies lineBuffer, this`wire, this`sendCursor, this`isLineBufferByteFormatted,
        this`isLineBufferSendHighByte, this`events, this`capturedBytes
      ensures Valid() && RgbLineState(raw, lineBuffer.Length, start)
    {
      var x := 0;
      while x < lineBuffer.Length
        invariant Valid() && RgbLineState(raw, x, start)
      {
        CaptureRgbByte(raw, x, start, captureReady[x]);
        x := x + 1;
      }
    }

    /** The drain loop of one line: scheduler steps until every byte is sent. */
    method DrainRgbLine(raw: seq<bv8>, drainReady: seq<bool>, ghost start: seq<bv8>)
      requires Valid() && |raw| == lineBuffer.Length == 2 * LINE_LENGTH
      requires RgbLineState(raw, lineBuffer.Length, start)
      requires CountTrue(drainReady) >= lineBuffer.Length - sendCursor
      modifies lineBuffer, this`wire, this`sendCursor, this`isLineBufferByteFormatted,
        this`isLineBufferSendHighByte, this`events
      ensures Valid() && RgbLineState(raw, lineBuffer.Length, start) && sendCursor == lineBuffer.Length
    {
      var k := 0;
      while sendCursor < LINE_LENGTH * 2
        invariant Valid() && RgbLineState(raw, lineBuffer.Length, start)
        invariant k <= |drainReady| && CountTrue(drainReady[k..]) >= lineBuffer.Length - sendCursor
        decreases |drainReady| - k, if isLineBufferByteFormatted then 0 else 1
      {
        var ready := false;
        if isLineBufferByteFormatted {
          CountTrueStep(drainReady, k);
          ready := drainReady[k];
          k := k + 1;
        }
        RgbStep(raw, lineBuffer.Length, start, ready);
      }
    }

    /**
     * One pass of the per-line loop of processRgbFrameBuffered: capture every
     * byte of the buffer with one scheduler step after each, then drain.
     */
    method CaptureRgbLine(raw: seq<bv8>, captureReady: seq<bool>, drainReady: seq<bool>)
      requires Valid() && lineBuffer.Length == 2 * LINE_LENGTH
      requires |raw| == lineBuffer.Length && |captureReady| == lineBuffer.Length
      requires CountTrue(drainReady) >= 2 * LINE_LENGTH
      modifies lineBuffer, this`wire, this`sendCursor, this`isLineBufferByteFormatted,
        this`isLineBufferSendHighByte, this`events, this`capturedBytes, this`processedByteCount
      ensures Valid()
      ensures wire == old(wire) + RgbLineBytes(raw)
      ensures lineBuffer[..] == RgbLineBytes(raw)
      ensures events == RgbSchedule(2 * LINE_LENGTH, false)
      ensures sendCursor == 2 * LINE_LENGTH && !isLineBufferByteFormatted
    {
      ghost var start := wire;
      sendCursor := 0;
      isLineBufferSendHighByte := true;
      isLineBufferByteFormatted := false;
      events := [];
      capturedBytes := 0;
      BufferRgbLine(raw, captureReady, start);
      processedByteCount := sendCursor;
      DrainRgbLine(raw, drainReady, start);
      RgbLineDone(raw, lineBuffer.Length, lineBuffer[..], sendCursor, isLineBufferByteFormatted, isLineBufferSendHighByte, events);
      TakeAll(RgbLineBytes(raw), sendCursor);
    }

    /** processRgbFrameBuffered, for a line buffer of two bytes per pixel. */
    method ProcessRgbFrameBuffered(lines: seq<seq<bv8>>, captureReady: seq<seq<bool>>, drainReady: seq<seq<bool>>)
      requires Valid() && lineBuffer.Length == 2 * LINE_LENGTH
      requires LinesOfLength(lines, LINE_COUNT, 2 * LINE_LENGTH)
      requires CapturePolls(captureReady, LINE_COUNT, 2 * LINE_LENGTH)
      requires DrainPolls(drainReady, LINE_COUNT, 2 * LINE_LENGTH)
      modifies lineBuffer, this`wire, this`sendCursor, this`isLineBufferByteFormatted,
        this`isLineBufferSendHighByte, this`events, this`capturedBytes, this`processedByteCount
      ensures Valid()
      ensures wire == old(wire) + RgbFrameWire(lines)
    {
      CommandDebugPrint(VsyncText());
      ghost var start := wire;
      var y := 0;
      while y < LINE_COUNT
        invariant y <= LINE_COUNT
        invariant Valid()
        invariant wire == start + RgbLines(lines, y)
      {
        CaptureRgbLine(lines[y], captureReady[y], drainReady[y]);
        AppendAssoc(start, RgbLines(lines, y), RgbLineBytes(lines[y]));
        y := y + 1;
      }
      AppendAssoc(old(wire), DebugCommand(VsyncText()), RgbLines(lines, LINE_COUNT));
    }

    /** One line of processRgbFrameDirect: high then low byte of every pixel, sent at once. */
    method SendRgbLineDirect(raw: seq<bv8>)
      requires lineBuffer.Length >= 1 && |raw| == 2 * LINE_LENGTH
      modifies this`wire, lineBuffer
      ensures wire == old(wire) + RgbLineBytes(raw)
      ensures lineBuffer[1..] == old(lineBuffer[1..])
    {
      ghost var enc := RgbLineBytes(raw);
      var x := 0;
      while x < LINE_LENGTH
        invariant x <= LINE_LENGTH
        invariant wire == old(wire) + enc[..2 * x]
        invariant lineBuffer[1..] == old(lineBuffer[1..])
      {
        lineBuffer[0] := RgbHigh(raw[2 * x]);
        Transmit(lineBuffer[0]);
        AppendNext(old(wire), enc, 2 * x);
        lineBuffer[0] := RgbLow(raw[2 * x + 1]);
        Transmit(lineBuffer[0]);
        AppendNext(old(wire), enc, 2 * x + 1);
        x := x + 1;
      }
      assert enc[..2 * x] == enc;
    }

    /** processRgbFrameDirect: 120 RGB565 lines, each byte formatted and sent at once. */
    method ProcessRgbFrameDirect(lines: seq<seq<bv8>>)
      requires lineBuffer.Length >= 1 && LinesOfLength(lines, LINE_COUNT, 2 * LINE_LENGTH)
      modifies this`wire, lineBuffer
      ensures wire == old(wire) + RgbFrameWire(lines)
      ensures lineBuffer[1..] == old(lineBuffer[1..])
    {
      CommandDebugPrint(VsyncText());
      ghost var start := wire;
      var y := 0;
      while y < LINE_COUNT
        invariant y <= LINE_COUNT
        invariant wire == start + RgbLines(lines, y)
        invariant lineBuffer[1..] == old(lineBuffer[1..])
      {
        SendRgbLineDirect(lines[y]);
        AppendAssoc(start, RgbLines(lines, y), RgbLineBytes(lines[y]));
        y := y + 1;
      }
      AppendAssoc(old(wire), DebugCommand(VsyncText()), RgbLines(lines, LINE_COUNT));
    }
  }
}
