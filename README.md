# LiveOV7670 camera transmitter, modelled in Dafny

This project models the transmit side of `LiveOV7670/camera.cpp`. That file is
an Arduino sketch that reads an OV7670 sensor line by line and streams the
pixels over the UART to a receiver. It also computes a five-column intensity
histogram of each grayscale frame and hands the resulting "mode" to a motor
driver.

Modules:

- `PixelEncoding` (`pixel_encoding.dfy`): the four pixel byte encoders.
  - No pixel byte is ever 0x00, because 0x00 starts a command.
  - Grayscale pairs are marked by bit 0.
  - RGB565 bytes carry a parity over bits 5 and 3.
- `CommandFrames` (`command_frames.dfy`): the commands the framer sends.
  - A command is the marker 0x00, a length byte, the command byte, the payload and an XOR checksum.
  - `Decode*` functions describe the receiver's reading of a command, so that round trips can be stated.
- `DebugText` (`debug_text.dfy`): the texts handed to `commandDebugPrint` ("Vsync", decimal numbers, "Frame N", the mode and the flag), as bytes.
- `LineStreams` (`line_streams.dfy`): the wire bytes of one scan line, and the order in which the buffered RGB scheduler formats and sends them.
- `Histogram` (`histogram.dfy`): the column sums with 16-bit wrap-around, normalisation, the rounded weighted mean (the mode), and the unexpected flag.
- `FrameStream` (`frame_stream.dfy`): everything one frame puts on the wire, in order. This is the specification the frame loops are proved against.
- `Camera` (`camera.dfy`): the class `FrameEncoder`, which holds the sketch's global state.
  - The state is the line buffer (an `array`), the send cursor, the two RGB scheduler flags, the column buckets (an `array`), `mode`, `unexpected` and `frameCounter`.
  - Every byte written to `UDR0` is appended to `wire`.
  - Every mode handed to `drive` is appended to `drivenModes`.
  - Its methods follow the functions of camera.cpp loop for loop. Each is proved to leave on `wire` exactly what the matching `FrameStream` function describes.
- `Config`, `Optional`, `SeqFacts`: the build-time constants, an option type, and general sequence facts.

Hardware is modelled like this:

- A blocking UART write (`waitForPreviousUartByteToBeSent` followed by `UDR0 = b`) is an append to `wire`.
- The non-blocking `isUartReady()` poll inside the buffered schedulers is a boolean that the caller supplies.
  - During capture there is one readiness value per captured byte. Grayscale capture reads it on every byte. RGB capture takes one scheduler step per byte and reads it only when that step tries to send (camera.cpp:353, 359); a format step ignores it.
  - During the drain loop there is a sequence of polls, and the transmitter must be found ready often enough to send the rest of the line. This is the liveness that the busy-waiting drain relies on.
- The sensor is one sequence of raw bytes per line.

Three points where the code's behaviour is easy to misread:

- The mode rounds up only when the fraction is strictly above one half (camera.cpp:222-226), so a tie rounds down (see `Histogram.ModeExamples`).
- The mode is computed with single-precision floats in the code (camera.cpp:216-226). The model uses the exact rational W / S in integer arithmetic, where W is the weighted sum and S the total of the normalized buckets, with W <= 1635 and S <= 545 (`Histogram.WeightedSumBounds`, `Histogram.Normalize`).
  - `max` and `mode` before the division are sums of integers far below 2^24, so they are exact floats.
  - The quotient W / S is generally not an integer (11 / 3, say), so the stored float is rounded. Its error is at most about 2^-22 (about 2.4e-7) for a value at most 5.
  - If W / S is not an integer, it lies at least 1 / S >= 1 / 545 away from every integer, so `int(mode)` truncates to the same integer as the exact quotient.
  - If W / S is not k + 1/2, it lies at least 1 / (2S) >= 1 / 1090 away from it, so the test `mode > int(mode) + 0.5` has the same outcome as on the exact quotient.
  - If W / S is exactly k or k + 1/2, the float quotient is exact, because both values are representable.
  - Both margins are far wider than the rounding error, so the integer model gives the result the float code gives. The only other float behaviour that matters is 0 / 0, which is listed under Findings.
- The grayscale path actually in use sends only `lineCount / 2` = 60 lines (camera.cpp:146), while the new-frame header announces 120 (camera.cpp:449). The model keeps both; see `FrameStream.AnnouncedHeightIsTwiceSent`.

## Model

| member | source | states |
|---|---|---|
| `PixelEncoding.HighByteParityOk` | LiveOV7670/camera.cpp:13-17 | defines a valid RGB565 high byte: an odd number of set bits among bit 5 (H_BYTE_PARITY_CHECK) and bit 3 (H_BYTE_PARITY_INVERT) |
| `PixelEncoding.LowByteParityOk` | LiveOV7670/camera.cpp:13-20 | defines a valid RGB565 low byte: an even number of set bits among bit 3 (L_BYTE_PARITY_CHECK) and bit 5 (L_BYTE_PARITY_INVERT) |
| `PixelEncoding.GrayscaleFirst` | LiveOV7670/camera.cpp:295-305 | bit 0 of the result is 0 and the result is never 0x00; bits 1-7 are unchanged unless the cleared byte was 0, in which case the result is exactly 0x02 |
| `PixelEncoding.GrayscaleSecond` | LiveOV7670/camera.cpp:307-311 | bit 0 is 1, bits 1-7 are unchanged, and the result is never 0x00 |
| `PixelEncoding.RgbHigh` | LiveOV7670/camera.cpp:412-420 | only bit 3 may change; bits 5 and 3 then hold an odd number of set bits; the result is never 0x00; the byte is unchanged exactly when its parity was already odd |
| `PixelEncoding.RgbLow` | LiveOV7670/camera.cpp:424-435 | only bits 5 and 0 may change; bits 5 and 3 then hold an even number of set bits; bit 0 is set; the byte is unchanged exactly when it was already even and had bit 0 set |
| `PixelEncoding.GrayscaleEncodeAt` | LiveOV7670/camera.cpp:155-189 | byte i of a grayscale line is nonzero and has bit 0 equal to i mod 2 |
| `PixelEncoding.RgbEncodeAt` | LiveOV7670/camera.cpp:369-374 | byte i of an RGB565 line is nonzero, with odd parity when i is even and even parity when i is odd |
| `CommandFrames.XorFold` | LiveOV7670/camera.cpp:471-476 | defines the running XOR checksum, folded from the left one byte at a time as the framer's loop does |
| `CommandFrames.XorFoldConcat` | LiveOV7670/camera.cpp:472-476 | the running checksum over a concatenation is the XOR of the checksums of the parts |
| `CommandFrames.XorFoldWithChecksumIsZero` | LiveOV7670/camera.cpp:478-479 | the XOR of a payload and its appended checksum is zero, which is the receiver's check |
| `CommandFrames.XorFoldSnoc` | LiveOV7670/camera.cpp:484-489 | folding one more byte XORs it into the checksum, as sendNextCommandByte returns |
| `CommandFrames.NewFramePayload` | LiveOV7670/camera.cpp:447-453 | defines the four payload bytes of the new-frame command: the command byte 0x11, the low byte of the width, the low byte of the height, and the packed byte |
| `CommandFrames.PackedSizeAndFormat` | LiveOV7670/camera.cpp:450-453 | bits 0-1 of the packed byte are bits 8-9 of the width, bits 2-3 are bits 8-9 of the height, and bits 4-7 are the low nibble of the format |
| `CommandFrames.DecodeCommand` | LiveOV7670/camera.cpp:460-481 | a frame the receiver accepts is well formed: marker, a length byte equal to the count modulo 256, and a matching checksum; the result is its command byte and payload |
| `CommandFrames.XorFoldFour` | LiveOV7670/camera.cpp:447-453 | the checksum of the four new-frame payload bytes is their XOR |
| `CommandFrames.NewFrameCommand` | LiveOV7670/camera.cpp:438-457 | defines the bytes commandStartNewFrame sends: 0x00, the length 4, the command byte 0x11, the low bytes of width and height, the packed byte, and the checksum of the four payload bytes |
| `CommandFrames.NewFrameCommandLayout` | LiveOV7670/camera.cpp:438-457 | the new-frame command is 7 bytes: 0x00, 4, 0x11, three payload bytes and a checksum equal to the XOR of the four payload bytes; it is a well-formed command |
| `CommandFrames.NewFrameRoundTrip` | LiveOV7670/camera.cpp:446-453 | the receiver decodes the low 10 bits of width and height and the low nibble of the pixel format from the new-frame command |
| `CommandFrames.SplitTenBits` | LiveOV7670/camera.cpp:448-452 | a low byte plus two high bits carried in another byte give back the low 10 bits of a dimension |
| `CommandFrames.LengthByte` | LiveOV7670/camera.cpp:469 | defines the length byte as the count modulo 256, as the 8-bit UDR0 holds it |
| `CommandFrames.DebugCommand` | LiveOV7670/camera.cpp:460-481 | defines the bytes commandDebugPrint sends: nothing for an empty text, otherwise 0x00, the length byte of \|text\|+1, the command byte 0x13, the text and the checksum of the command byte and text |
| `CommandFrames.DebugCommandLayout` | LiveOV7670/camera.cpp:460-481 | the debug command is empty exactly when the text is empty; otherwise it is a well-formed command of length \|text\|+4 with command byte 0x13, carrying the text, whose checksum is the XOR of 0x13 and the text |
| `CommandFrames.XorFoldCons` | LiveOV7670/camera.cpp:471-476 | the command byte folded in first XORs into the text's checksum |
| `CommandFrames.DebugRoundTrip` | LiveOV7670/camera.cpp:460-481 | a nonempty text shorter than 255 bytes comes back unchanged from the receiver |
| `CommandFrames.DebugLengthTruncates` | LiveOV7670/camera.cpp:469 | a 255-byte text announces length 0, because the length byte is truncated, and the receiver rejects it |
| `DebugText.Chars` | LiveOV7670/camera.cpp:470-476 | a byte text reads as one character per byte |
| `DebugText.DigitByte` | LiveOV7670/camera.cpp:215 | a digit's byte is an ASCII digit, and it is "0" only for zero |
| `DebugText.DigitByteValue` | LiveOV7670/camera.cpp:215 | the digit byte for d lies d places above "0" |
| `DebugText.Decimal` | LiveOV7670/camera.cpp:215 | String(n) of an integer is at least one ASCII digit, with no leading zero |
| `DebugText.DecimalRoundTrip` | LiveOV7670/camera.cpp:215 | reading the decimal digits back gives the number |
| `DebugText.WholeFloatText` | LiveOV7670/camera.cpp:232 | defines String(mode) for a float holding a whole number: its decimal digits followed by ".00" |
| `DebugText.WholeFloatTextValue` | LiveOV7670/camera.cpp:232 | String(mode) of the whole-number float is digits then ".00", and the digits read back as the mode |
| `DebugText.BoolText` | LiveOV7670/camera.cpp:233 | String(unexpected) is one digit, whose value is 1 for true and 0 for false |
| `DebugText.FrameText` | LiveOV7670/camera.cpp:122-123 | defines the frame message as "Frame " followed by the decimal counter |
| `DebugText.FrameTextValue` | LiveOV7670/camera.cpp:122-123 | the frame message is "Frame " followed by digits that read back as the counter |
| `DebugText.VsyncText` | LiveOV7670/camera.cpp:140 | defines the sync message as the five bytes of "Vsync" |
| `DebugText.VsyncIsAscii` | LiveOV7670/camera.cpp:140 | the sync text's bytes are the ASCII of "Vsync" |
| `DebugText.FramePrefixIsAscii` | LiveOV7670/camera.cpp:122 | the frame message prefix is the ASCII of "Frame " |
| `DebugText.PointZeroZeroIsAscii` | LiveOV7670/camera.cpp:232 | the fraction printed for a whole float is the ASCII of ".00" |
| `DebugText.BoolTextIsAscii` | LiveOV7670/camera.cpp:233 | true prints as "1" and false as "0", the same texts as the integers 1 and 0 |
| `LineStreams.GrayscaleLineBytes` | LiveOV7670/camera.cpp:153-193 | a grayscale line's wire bytes have the line's length, are never 0x00, and have bit 0 alternating 0, 1, 0, 1, and so on |
| `LineStreams.RgbLineBytes` | LiveOV7670/camera.cpp:329-345 | an RGB line's wire bytes have the line's length, are never 0x00, and alternate high byte (odd parity) and low byte (even parity) |
| `LineStreams.BlankFramePixels` | LiveOV7670/camera.cpp:100-108 | defines the pixels of sendBlankFrame's two nested loops: per line, per pixel, the colour's high byte encoded as H, then its low byte encoded as L |
| `LineStreams.SolidRgbLine` | LiveOV7670/camera.cpp:94-108 | a single-colour line of n pixels has 2n bytes, alternating the colour's high and low bytes |
| `LineStreams.SolidLineBytes` | LiveOV7670/camera.cpp:102-108 | a solid line's wire bytes are the encoded colour pair repeated once per pixel |
| `LineStreams.BlankFrameIsSolidLines` | LiveOV7670/camera.cpp:94-110 | the pixels of a blank frame are the wire bytes of the solid-colour line, repeated once per line |
| `LineStreams.CountTrueStep` | LiveOV7670/camera.cpp:206-209 | the number of ready polls from k on is its first poll plus the number of ready polls after it |
| `LineStreams.CompletedBytes` | LiveOV7670/camera.cpp:349-376 | defines the scheduler history of c finished bytes: each byte formatted (as H when its index is even) and then sent, in index order; its contract gives the length 2c |
| `LineStreams.RgbSchedule` | LiveOV7670/camera.cpp:349-376 | defines the scheduler history after c bytes have been sent, with byte c formatted and waiting when a byte is pending |
| `LineStreams.CompletedBytesAt` | LiveOV7670/camera.cpp:349-376 | in a finished line's schedule, event 2k formats byte k (as H when k is even) and event 2k+1 sends it |
| `LineStreams.RgbScheduleAlternates` | LiveOV7670/camera.cpp:349-376 | formats and sends strictly alternate; each send is of the byte formatted just before it; even bytes get H and odd bytes get L; no byte is formatted twice |
| `Histogram.Zeros` | LiveOV7670/camera.cpp:133-137 | the reset buckets are five zeros |
| `Histogram.PairBucket` | LiveOV7670/camera.cpp:150-189 | both bytes of a pair go to the bucket of the pair's even index, which is x / 32 and always one of 0..4 |
| `Histogram.SampledLine` | LiveOV7670/camera.cpp:168 | defines the line test of the histogram: y % 4 == 0 and y <= lineCount / 2 |
| `Histogram.SampledLineBelowHalf` | LiveOV7670/camera.cpp:146-168 | within the 60 lines sent, a line is sampled exactly when y mod 4 is 0; the test y <= 60 always holds there |
| `Histogram.AccumulateLine` | LiveOV7670/camera.cpp:168-190 | defines the buckets after the first n encoded bytes of a line, each byte added to bucket pixelX/32 modulo 65536; its contract keeps five buckets |
| `Histogram.AccumulateLineSums` | LiveOV7670/camera.cpp:168-190 | each bucket after a line holds its start value plus the true sum of its bytes, modulo 65536 |
| `Histogram.FrameHistogram` | LiveOV7670/camera.cpp:133-193 | defines the buckets after the first n lines: zero at frame start, and each sampled line accumulated in order; its contract keeps five buckets |
| `Histogram.FrameHistogramSums` | LiveOV7670/camera.cpp:133-193 | each bucket at frame end holds the sum of its bytes over the sampled lines, modulo 65536 |
| `Histogram.HistogramIgnoresUnsampledLines` | LiveOV7670/camera.cpp:168-190 | two frames that agree on their sampled lines give the same buckets |
| `Histogram.Normalize` | LiveOV7670/camera.cpp:213-214 | each normalized bucket is its raw value divided by 600 (floor), so it is at most 109 |
| `Histogram.WeightedSum` | LiveOV7670/camera.cpp:216 | defines `max`, the sum of (i+1)·c[i] over the buckets |
| `Histogram.Total` | LiveOV7670/camera.cpp:217 | defines `mode` before the division, the sum of the buckets |
| `Histogram.WeightedSumBounds` | LiveOV7670/camera.cpp:216-217 | over the first n buckets, the total S and the weighted sum W satisfy 0 <= S <= W <= n·S |
| `Histogram.RoundedQuotient` | LiveOV7670/camera.cpp:220-226 | -S < 2·(W - m·S) <= S: the result is within one half of W / S, and an exact half goes to the lower value |
| `Histogram.Mode` | LiveOV7670/camera.cpp:213-226 | the mode is in 0..5, and it is 0 exactly when every normalized bucket is 0 (the guarded form of the code's division) |
| `Histogram.RoundingIsUnique` | LiveOV7670/camera.cpp:222-226 | at most one integer lies within one half of W / S, with ties counted downward |
| `Histogram.ModeIsRoundedMean` | LiveOV7670/camera.cpp:213-226 | for a nonzero total, the mode is within one half of the weighted mean W / S, ties going down |
| `Histogram.Unexpected` | LiveOV7670/camera.cpp:228-230 | defines the flag: some bucket equals its right-hand neighbour |
| `Histogram.ModeAsWritten` | LiveOV7670/camera.cpp:216-226 | the mode as written is undefined exactly when the total is 0 |
| `Histogram.ModeAgreesWhereDefined` | LiveOV7670/camera.cpp:216-226 | wherever the written division is defined, it equals the guarded mode |
| `Histogram.WrappedBucketsReachUndefinedMode` | LiveOV7670/camera.cpp:169-220 | buckets whose true sums of 65968 wrap to 432 normalize to zeros, where the written mode is undefined |
| `Histogram.ModeExamples` | LiveOV7670/camera.cpp:213-229 | worked cases: [600,600,1200,1800,300] normalizes to [1,1,2,3,0], whose mode is 3 (21 / 7) with unexpected set; the tie 3 / 2 rounds down to 1; 11 / 3 rounds up to 4; [3,2,1,0,4] has mode 3 and no equal neighbours |
| `Histogram.AlternatingTotal` | LiveOV7670/camera.cpp:168-190 | defines the sum of the first m bytes of the alternating sequence p, q, p, ... |
| `Histogram.AlternatingPairs` | LiveOV7670/camera.cpp:168-190 | k whole pairs of the alternating sequence sum to k · (p + q) |
| `Histogram.BucketBytes` | LiveOV7670/camera.cpp:169 | at most 32 of the first n bytes of a line fall in bucket b, since bucket pixelX/32 spans 32 byte positions |
| `Histogram.AlternatingBucketSum` | LiveOV7670/camera.cpp:168-190 | in a line alternating p and q, the bytes that reach bucket b sum like the first BucketBytes(b, n) bytes of p, q, p, ... |
| `FrameStream.BucketReport` | LiveOV7670/camera.cpp:213-215 | defines the debug commands carrying the decimal value of each of the first n buckets, in order |
| `FrameStream.HistogramReport` | LiveOV7670/camera.cpp:213-233 | defines the report after the pixels: the five buckets, then String(mode), then String(unexpected) |
| `FrameStream.GrayscaleBufferedFrameWire` | LiveOV7670/camera.cpp:128-246 | defines what processGrayscaleFrameBuffered sends: "Vsync", the 60 encoded lines, then the histogram report of the frame's buckets |
| `FrameStream.GrayscaleDirectFrameWire` | LiveOV7670/camera.cpp:258-293 | defines what processGrayscaleFrameDirect sends: "Vsync", then all 120 encoded lines |
| `FrameStream.RgbFrameWire` | LiveOV7670/camera.cpp:314-408 | defines what both RGB frame loops send: "Vsync", then 120 encoded RGB565 lines |
| `FrameStream.ProcessFrameWire` | LiveOV7670/camera.cpp:114-125 | defines what processFrame sends: the grayscale new-frame command, the buffered grayscale frame, then "Frame N" for the new count |
| `FrameStream.BlankFrameWire` | LiveOV7670/camera.cpp:94-110 | defines what sendBlankFrame sends: the RGB565 new-frame command, then 120 lines of 160 encoded copies of one colour |
| `FrameStream.GrayscaleLines` | LiveOV7670/camera.cpp:146-210 | the pixels of n grayscale lines are n·160 bytes, none of them 0x00, so no pixel byte can start a command |
| `FrameStream.RgbLines` | LiveOV7670/camera.cpp:321-346 | the pixels of n RGB lines are n·320 bytes, none of them 0x00 |
| `FrameStream.GrayscaleLinesPrefix` | LiveOV7670/camera.cpp:146 | sending fewer lines sends a prefix of the longer stream |
| `FrameStream.FrameBuckets` | LiveOV7670/camera.cpp:213-214 | a frame's normalized histogram has five buckets |
| `FrameStream.AnnouncedHeightIsTwiceSent` | LiveOV7670/camera.cpp:117-119 | the header decodes to 160 x 120 grayscale, while the buffered loop sends half the bytes of the direct loop, and those bytes are exactly the direct loop's first 60 lines |
| `FrameStream.RgbScheduleWithinLine` | LiveOV7670/camera.cpp:342-345 | a finished line's schedule touches only bytes 0..c-1 of a c-byte line |
| `FrameStream.RgbBufferOverrunAsWritten` | LiveOV7670/camera.cpp:39-44 | with the buffer length as written (160), the drain to byte 320 formats byte 160, which lies outside the buffer |
| `FrameStream.PairLine` | LiveOV7670/camera.cpp:146-190 | a raw grayscale line of 160 bytes alternating p at even and q at odd positions |
| `FrameStream.WrapLines` | LiveOV7670/camera.cpp:146-190 | a sensor input of 60 lines of 160 bytes, each line alternating the luma bytes 138 and 137 |
| `FrameStream.WrapLineBytes` | LiveOV7670/camera.cpp:155-189 | the encoders leave each byte of that line unchanged: 138 already has bit 0 clear and 137 has it set |
| `FrameStream.WrapLinesBucketSum` | LiveOV7670/camera.cpp:146-190 | over the first n of those lines, every bucket's true sum is 4400 for each sampled line, (n + 3) / 4 · 4400 in all |
| `FrameStream.WrappedLinesReachUndefinedMode` | LiveOV7670/camera.cpp:133-220 | from that sensor input to the result: every bucket's true sum is 66000, the normalized frame buckets are all zero, and the mode as written is undefined (0 / 0) |
| `FrameStream.SolidLines` | LiveOV7670/camera.cpp:100-108 | a blank frame is n copies of one solid line |
| `FrameStream.RepeatedSolidLines` | LiveOV7670/camera.cpp:100-108 | the RGB stream of a solid-colour frame is the solid line's bytes, repeated once per line |
| `FrameStream.RgbLinesDependOnPrefix` | LiveOV7670/camera.cpp:321-346 | the RGB stream of n lines depends only on those n lines |
| `FrameStream.BlankFrameMatchesRgbPath` | LiveOV7670/camera.cpp:94-110 | the blank frame's pixels are what the RGB path sends for a sensor that sees one colour everywhere |
| `Camera.Increment16` | LiveOV7670/camera.cpp:121 | defines frameCounter++ on the uint16_t counter: one more, and 65535 wraps to 0 |
| `Camera.Increment16Wraps` | LiveOV7670/camera.cpp:121 | frameCounter++ on the 16-bit counter is addition modulo 65536 |
| `Camera.RgbCaptureKeeps` | LiveOV7670/camera.cpp:329-332 | capturing byte x keeps the scheduler state, with one more captured byte |
| `Camera.RgbFormatKeeps` | LiveOV7670/camera.cpp:367-376 | formatting the byte under the cursor makes it its wire byte, flips the H/L flag and records the format |
| `Camera.RgbSendKeeps` | LiveOV7670/camera.cpp:357-365 | the formatted byte under the cursor is the next wire byte, and sending it advances the cursor |
| `Camera.RgbLineDone` | LiveOV7670/camera.cpp:342-345 | once the cursor reaches the end of the line, the buffer holds the encoded line and nothing is pending |
| `Camera.FrameEncoder.constructor` | LiveOV7670/camera.cpp:44-50 | power-on state: an empty wire, zero buckets and counter, and a fresh buffer of the given length |
| `Camera.FrameEncoder.Transmit` | LiveOV7670/camera.cpp:492-495 | a blocking UART write appends exactly its byte to the wire |
| `Camera.FrameEncoder.Drive` | LiveOV7670/camera.cpp:235 | drive(mode) records exactly that mode |
| `Camera.FrameEncoder.SendNextCommandByte` | LiveOV7670/camera.cpp:484-489 | sends the byte and returns the checksum XOR the byte |
| `Camera.FrameEncoder.CommandStartNewFrame` | LiveOV7670/camera.cpp:438-457 | sends exactly the new-frame command for 160 x 120 and the given format |
| `Camera.FrameEncoder.SendCommandBytes` | LiveOV7670/camera.cpp:473-476 | sends the text bytes in order and returns the incoming checksum XOR the fold of the text |
| `Camera.FrameEncoder.CommandDebugPrint` | LiveOV7670/camera.cpp:460-481 | sends exactly the debug command for the text: nothing for an empty text |
| `Camera.FrameEncoder.SendBlankFrame` | LiveOV7670/camera.cpp:94-110 | sends the RGB565 new-frame command, then 120 lines of 160 encoded colour pairs |
| `Camera.FrameEncoder.ProcessNextGrayscalePixelByteInBuffer` | LiveOV7670/camera.cpp:248-255 | when ready, sends the byte under the cursor and advances it; otherwise changes nothing |
| `Camera.FrameEncoder.StoreGrayscaleByte` | LiveOV7670/camera.cpp:155-192 | storing one formatted byte, with at most one send and the bucket update, keeps the grayscale line state one byte further on |
| `Camera.FrameEncoder.StoreByte` | LiveOV7670/camera.cpp:157-158 | the buffer holds the encoded line one byte further |
| `Camera.FrameEncoder.SendBufferedByte` | LiveOV7670/camera.cpp:161 | a send during capture keeps the wire equal to the sent prefix, and advances the cursor exactly when ready |
| `Camera.FrameEncoder.AccumulateIntensity` | LiveOV7670/camera.cpp:168-170 | on sampled lines the bucket of the pair gets the byte added modulo 65536; the buckets track the line's accumulation |
| `Camera.FrameEncoder.DrainGrayscaleLine` | LiveOV7670/camera.cpp:205-209 | the drain loop ends with the whole line sent and the state kept |
| `Camera.FrameEncoder.CaptureGrayscaleLine` | LiveOV7670/camera.cpp:148-209 | one line: exactly the line's encoded bytes are sent in order, the buffer holds them, and the buckets gain the line's bytes if it is sampled |
| `Camera.FrameEncoder.NormalizeColumns` | LiveOV7670/camera.cpp:213-218 | the buckets are divided by 600 and reported in order; the returned max and total are W and S of the normalized buckets |
| `Camera.FrameEncoder.NormalizeBucket` | LiveOV7670/camera.cpp:214-215 | bucket i is divided by 600 and reported, and the other buckets are unchanged |
| `Camera.FrameEncoder.FlagEqualNeighbours` | LiveOV7670/camera.cpp:228-230 | unexpected is set exactly when two neighbouring buckets are equal |
| `Camera.FrameEncoder.RoundMode` | LiveOV7670/camera.cpp:220-226 | the rounded quotient is the mode of the buckets |
| `Camera.FrameEncoder.ReportModeAndFlag` | LiveOV7670/camera.cpp:232-233 | sends String(mode) and then String(unexpected) as debug commands |
| `Camera.FrameEncoder.NormalizeAndRound` | LiveOV7670/camera.cpp:213-230 | the buckets are divided by 600 and reported in order, then mode is the rounded mode of the normalized buckets and unexpected is their equal-neighbour flag |
| `Camera.FrameEncoder.SummarizeColumns` | LiveOV7670/camera.cpp:213-235 | the buckets are normalized and reported, followed by the mode and the flag; mode and unexpected are those of the normalized buckets; drive receives the mode |
| `Camera.FrameEncoder.ClearColumns` | LiveOV7670/camera.cpp:133-137 | the buckets are all zero |
| `Camera.FrameEncoder.CaptureGrayscaleLines` | LiveOV7670/camera.cpp:146-210 | 60 lines are sent in order, and the buckets hold the frame histogram |
| `Camera.FrameEncoder.ProcessGrayscaleFrameBuffered` | LiveOV7670/camera.cpp:128-246 | sends "Vsync", the 60 lines and the histogram report; the buckets, mode and flag are those of the frame; drive gets the mode |
| `Camera.FrameEncoder.ReportFrameCount` | LiveOV7670/camera.cpp:121-123 | the counter wraps forward by one, then "Frame N" is sent for the new count |
| `Camera.FrameEncoder.SendAnnouncedFrame` | LiveOV7670/camera.cpp:116-120 | the byte count is reset, then the grayscale header is followed by the buffered grayscale frame; the buckets, mode and flag end as the frame's; drive gets the frame's mode |
| `Camera.FrameEncoder.ProcessFrame` | LiveOV7670/camera.cpp:114-125 | sends the header, then the frame, then "Frame N" for the incremented counter; the buckets, mode and flag end as the frame's; drive gets the frame's mode |
| `Camera.FrameEncoder.SendGrayscaleLineDirect` | LiveOV7670/camera.cpp:268-290 | one direct line sends the same bytes as one buffered line; only the scratch byte lineBuffer[0] changes |
| `Camera.FrameEncoder.ProcessGrayscaleFrameDirect` | LiveOV7670/camera.cpp:258-293 | sends "Vsync" and then all 120 grayscale lines; only the scratch byte lineBuffer[0] changes |
| `Camera.FrameEncoder.FormatNextRgbPixelByteInBuffer` | LiveOV7670/camera.cpp:367-376 | the byte under the cursor is encoded as H or L by the flag; the formatted flag is set and the H/L flag is flipped |
| `Camera.FrameEncoder.TryToSendNextRgbPixelByteInBuffer` | LiveOV7670/camera.cpp:357-365 | when ready, sends the byte under the cursor, advances the cursor and clears the formatted flag; otherwise changes nothing |
| `Camera.FrameEncoder.ProcessNextRgbPixelByteInBuffer` | LiveOV7670/camera.cpp:349-355 | a step formats when the byte is not yet formatted, and otherwise tries to send it |
| `Camera.FrameEncoder.RgbStep` | LiveOV7670/camera.cpp:333 | one scheduler step keeps the line state; the cursor advances only by a send of a formatted byte |
| `Camera.FrameEncoder.CaptureRgbByte` | LiveOV7670/camera.cpp:329-334 | capturing a byte followed by one step keeps the line state one byte further on |
| `Camera.FrameEncoder.BufferRgbLine` | LiveOV7670/camera.cpp:329-334 | the capture loop ends with every byte captured and the state kept |
| `Camera.FrameEncoder.DrainRgbLine` | LiveOV7670/camera.cpp:342-345 | the drain loop ends with every byte sent and the state kept |
| `Camera.FrameEncoder.CaptureRgbLine` | LiveOV7670/camera.cpp:323-345 | one line: exactly the line's encoded bytes are sent; the buffer holds them; the scheduler's history is the alternating format/send schedule |
| `Camera.FrameEncoder.ProcessRgbFrameBuffered` | LiveOV7670/camera.cpp:314-347 | sends "Vsync" and 120 RGB lines, the same stream as the direct path, for a buffer of two bytes per pixel; it changes only the line buffer, the cursor, the scheduler flags and the byte count, so the counter, buckets, mode, flag and driven modes stay |
| `Camera.FrameEncoder.SendRgbLineDirect` | LiveOV7670/camera.cpp:390-404 | one direct RGB line sends the same bytes as one buffered line; only the scratch byte lineBuffer[0] changes |
| `Camera.FrameEncoder.ProcessRgbFrameDirect` | LiveOV7670/camera.cpp:379-408 | sends "Vsync" and then 120 RGB lines; only the scratch byte lineBuffer[0] changes |

## Left out

- The CameraOV7670 library (`waitForVsync`, the padding skips, `waitForPixelClockRisingEdge`, `readPixelByte`, `init`) is foreign code. The sensor is given as one sequence of raw bytes per line, and the discarded chroma bytes have no effect on the data.
- AVR registers (`UDR0`, `UCSR0A`): a write is an append to `wire`, and `isUartReady()` is a boolean supplied by the caller. The termination of the busy wait in `waitForPreviousUartByteToBeSent` is a liveness assumption. The drain loops take it as a requirement that enough polls find the transmitter ready.
- `noInterrupts`/`interrupts` and all per-pixel timing are timing concerns. Only the content and order of the output are modelled.
- `initializeScreenAndCamera` (`Serial.begin`, camera init, `declarePins`) is set-up I/O.
- `drive` and the motor pins in `LiveOV7670/drive.cpp` are GPIO actuation. `drive` is a consumer that records the mode it receives.
- Float arithmetic for `max` and `mode` is done on the exact rational in integers. The result agrees with the single-precision code by the margin argument above, which is stated in prose and not proved in Dafny. The division 0/0 is not modelled as IEEE NaN; see Findings.
- Arduino `String` is modelled only for the values that occur: non-negative integers, whole-number floats with two decimals, and booleans.
- `processedByteCountDuringCameraRead` is recorded, but nothing is proved about its value beyond the grayscale bound.
- The pointer `lineBufferSendByte` is modelled as an index into `lineBuffer`, so pointer arithmetic outside the buffer is not modelled.
- `Camera.FrameEncoder.ProcessRgbFrameBuffered`: requires a buffer of exactly `2 * LINE_LENGTH` bytes, and so does not model the shipped 160-byte buffer, whose out-of-bounds accesses are undefined behaviour in C++ (Findings, row 2).
- `Camera.FrameEncoder.RoundMode`: for a zero total it returns the guarded mode 0 rather than the undefined `int(NaN)` of the code (Findings, row 1).

## Findings

| source | as written | input that shows it | evidently intended | confidence | as-written member | corrected member |
|---|---|---|---|---|---|---|
| LiveOV7670/camera.cpp:220 | `mode = max/mode` divides 0.0 by 0.0 when every normalized bucket is 0, and `int(NaN)` is undefined in C++ | 60 sensor lines alternating the luma bytes 138 and 137: every bucket's true sum is 66000, which wraps in `uint16_t` to 464 and normalizes to 0 | a guarded division that yields a defined mode (0) when the total is 0 | not executed | `Histogram.ModeAsWritten` (with `FrameStream.WrappedLinesReachUndefinedMode`) | `Histogram.Mode` (with `Histogram.ModeAgreesWhereDefined`) |
| LiveOV7670/camera.cpp:39-44 | `lineBuffer` holds `lineBufferLength = lineLength` = 160 bytes, but the RGB buffered drain runs to `&lineBuffer[lineLength * 2]`, and the comment says two bytes per pixel | any RGB buffered line: once bytes 0..159 are sent, the next format step encodes byte 160, which lies past the buffer | a line buffer of `2 * lineLength` bytes for the RGB path | not executed | `FrameStream.RgbBufferOverrunAsWritten` | `Camera.FrameEncoder.ProcessRgbFrameBuffered` (with `FrameStream.RgbScheduleWithinLine`) |
