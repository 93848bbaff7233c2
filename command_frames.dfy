/**
 * Command frames of the LiveOV7670 serial protocol.
 *
 * A command on the wire is: the marker 0x00, a length byte, the command byte,
 * the payload, and an XOR checksum over the command byte and the payload (the
 * marker and the length byte are not covered).  The functions here describe
 * the bytes the framer sends; Decode* are the receiving side's reading of
 * them, used to state round trips.
 */
module CommandFrames {
  import opened Optional

  const VERSION: bv8 := 0x10
  const COMMAND_NEW_FRAME: bv8 := 0x01 | VERSION
  const COMMAND_DEBUG_DATA: bv8 := 0x03 | VERSION

  const PIXEL_FORMAT_RGB565: bv8 := 0x01
  const PIXEL_FORMAT_GRAYSCALE: bv8 := 0x02

  /** Running XOR of a byte sequence, folded from the left as the framer does. */
  function XorFold(s: seq<bv8>): bv8
  {
    if s == [] then 0 else XorFold(s[..|s| - 1]) ^ s[|s| - 1]
  }

  /** Folding a concatenation is the XOR of the two folds. */
  lemma {:induction false} XorFoldConcat(a: seq<bv8>, b: seq<bv8>)
    ensures XorFold(a + b) == XorFold(a) ^ XorFold(b)
    decreases |b|
  {
    if b == [] {
      assert a + b == a;
    } else {
      var b' := b[..|b| - 1];
      assert (a + b)[..|a + b| - 1] == a + b';
      XorFoldConcat(a, b');
    }
  }

  /** The receiver's check: the XOR of the payload and its checksum is zero. */
  lemma XorFoldWithChecksumIsZero(payload: seq<bv8>)
    ensures XorFold(payload + [XorFold(payload)]) == 0
  {
    assert (payload + [XorFold(payload)])[..|payload|] == payload;
  }

  /**
   * The fourth new-frame payload byte: bits 8-9 of the width in bits 0-1,
   * bits 8-9 of the height in bits 2-3, the low nibble of the format on top.
   */
  function PackedSizeAndFormat(width: bv16, height: bv16, format: bv8): (r: bv8)
    ensures r & 0x03 == ((width >> 8) & 0x03) as bv8
    ensures (r >> 2) & 0x03 == ((height >> 8) & 0x03) as bv8
    ensures r >> 4 == format & 0x0F
  {
    (((width >> 8) & 0x03) | ((height >> 6) & 0x0C)) as bv8 | ((format << 4) & 0xF0)
  }

  /** The new-frame payload: command byte, low bytes of width and height, packed byte. */
  function NewFramePayload(width: bv16, height: bv16, format: bv8): seq<bv8>
  {
    [COMMAND_NEW_FRAME, (width & 0xFF) as bv8, (height & 0xFF) as bv8,
     PackedSizeAndFormat(width, height, format)]
  }

  /** Everything commandStartNewFrame sends. */
  function NewFrameCommand(width: bv16, height: bv16, format: bv8): seq<bv8>
  {
    var payload := NewFramePayload(width, height, format);
    [0x00, 4] + payload + [XorFold(payload)]
  }

  /** A count as the framer's length byte holds it: modulo 256. */
  function LengthByte(n: nat): bv8
  {
    (n % 256) as bv8
  }

  /** Everything commandDebugPrint sends: nothing at all for an empty text. */
  function DebugCommand(text: seq<bv8>): seq<bv8>
  {
    if text == [] then []
    else
      var payload := [COMMAND_DEBUG_DATA] + text;
      [0x00, LengthByte(|text| + 1)] + payload + [XorFold(payload)]
  }

  /**
   * A well-formed command: marker, a length byte counting the command byte and
   * payload (modulo 256, as a byte holds it), and a matching checksum.
   */
  predicate IsCommandFrame(s: seq<bv8>)
  {
    |s| >= 4 && s[0] == 0x00 && s[1] == LengthByte(|s| - 3)
    && s[|s| - 1] == XorFold(s[2..|s| - 1])
  }

  /** The receiver's reading of one command: its command byte and payload, if the frame checks. */
  function DecodeCommand(s: seq<bv8>): (r: Option<(bv8, seq<bv8>)>)
    ensures r.Some? ==> IsCommandFrame(s) && |s| < 259
    ensures r.Some? ==> r.value.0 == s[2] && [r.value.0] + r.value.1 == s[2..|s| - 1]
  {
    if 4 <= |s| < 259 && s[0] == 0x00 && s[1] == LengthByte(|s| - 3)
       && s[|s| - 1] == XorFold(s[2..|s| - 1])
    then Some((s[2], s[3..|s| - 1]))
    else None
  }

  /** A 10-bit dimension from its low byte and its two high bits. */
  function JoinTenBits(lo: bv8, hi: bv8): bv16
  {
    lo as bv16 | ((hi & 0x03) as bv16 << 8)
  }

  /** The receiver's reading of a new-frame command: 10-bit width and height, 4-bit format. */
  function DecodeNewFrame(s: seq<bv8>): Option<(bv16, bv16, bv8)>
  {
    var r := DecodeCommand(s);
    if r.Some? && r.value.0 == COMMAND_NEW_FRAME && |r.value.1| == 3 then
      var p := r.value.1;
      Some((JoinTenBits(p[0], p[2]), JoinTenBits(p[1], p[2] >> 2), p[2] >> 4))
    else None
  }

  /** One more byte folds into the running checksum as sendNextCommandByte does. */
  lemma XorFoldSnoc(s: seq<bv8>, x: bv8)
    ensures XorFold(s + [x]) == XorFold(s) ^ x
  {
    assert (s + [x])[..|s|] == s;
  }

  /** Folding four bytes is their XOR. */
  lemma XorFoldFour(a: bv8, b: bv8, c: bv8, d: bv8)
    ensures XorFold([a, b, c, d]) == a ^ b ^ c ^ d
  {
    XorFoldSnoc([], a);
    assert [] + [a] == [a];
    XorFoldSnoc([a], b);
    assert [a] + [b] == [a, b];
    XorFoldSnoc([a, b], c);
    assert [a, b] + [c] == [a, b, c];
    XorFoldSnoc([a, b, c], d);
    assert [a, b, c] + [d] == [a, b, c, d];
  }

  /** The new-frame command is a well-formed command of length 4 with the layout of camera.cpp. */
  lemma NewFrameCommandLayout(width: bv16, height: bv16, format: bv8)
    ensures var s := NewFrameCommand(width, height, format);
      IsCommandFrame(s) && |s| == 7 && s[0] == 0x00 && s[1] == 4 && s[2] == COMMAND_NEW_FRAME
      && s[|s| - 1] == COMMAND_NEW_FRAME ^ s[3] ^ s[4] ^ s[5]
  {
    var payload := NewFramePayload(width, height, format);
    var s := NewFrameCommand(width, height, format);
    assert s[2..|s| - 1] == payload;
    XorFoldFour(payload[0], payload[1], payload[2], payload[3]);
  }

  /** Decoding the new-frame command gives back the low 10 bits of width and height and the format nibble. */
  lemma NewFrameRoundTrip(width: bv16, height: bv16, format: bv8)
    ensures DecodeNewFrame(NewFrameCommand(width, height, format))
         == Some((width & 0x3FF, height & 0x3FF, format & 0x0F))
  {
    var s := NewFrameCommand(width, height, format);
    var payload := NewFramePayload(width, height, format);
    NewFrameCommandLayout(width, height, format);
    assert s[2..|s| - 1] == payload;
    assert s[3..|s| - 1] == payload[1..];
    assert DecodeCommand(s) == Some((payload[0], payload[1..]));
    var p := PackedSizeAndFormat(width, height, format);
    SplitTenBits(width, p);
    SplitTenBits(height, p >> 2);
  }

  /** The low byte and bits 8-9, carried in two bytes, give back the low 10 bits. */
  lemma SplitTenBits(v: bv16, hi: bv8)
    requires hi & 0x03 == ((v >> 8) & 0x03) as bv8
    ensures JoinTenBits((v & 0xFF) as bv8, hi) == v & 0x3FF
  {
    assert ((v & 0xFF) as bv8) as bv16 == v & 0xFF;
    assert (hi & 0x03) as bv16 == (v >> 8) & 0x03;
    assert (v & 0xFF) | (((v >> 8) & 0x03) << 8) == v & 0x3FF;
  }

  /** A debug command is absent for empty text and otherwise a well-formed command around the text. */
  lemma DebugCommandLayout(text: seq<bv8>)
    ensures text == [] <==> DebugCommand(text) == []
    ensures text != [] ==>
      var s := DebugCommand(text);
      IsCommandFrame(s) && |s| == |text| + 4 && s[2] == COMMAND_DEBUG_DATA
      && s[3..|s| - 1] == text && s[|s| - 1] == XorFold([COMMAND_DEBUG_DATA] + text)
  {
    if text != [] {
      var s := DebugCommand(text);
      var payload := [COMMAND_DEBUG_DATA] + text;
      assert s[2..|s| - 1] == payload;
      assert s[3..|s| - 1] == text;
    }
  }

  /** A byte in front folds in first. */
  lemma XorFoldCons(c: bv8, s: seq<bv8>)
    ensures XorFold([c] + s) == c ^ XorFold(s)
  {
    assert XorFold([c]) == c by {
      assert [c][..0] == [];
    }
    XorFoldConcat([c], s);
  }

  /** A debug text shorter than 255 bytes comes back from the receiver unchanged. */
  lemma DebugRoundTrip(text: seq<bv8>)
    requires 0 < |text| < 255
    ensures DecodeCommand(DebugCommand(text)) == Some((COMMAND_DEBUG_DATA, text))
  {
    DebugCommandLayout(text);
  }

  /**
   * The length byte is the text length plus one, truncated to a byte: a text of
   * 255 bytes announces length 0, and the receiver cannot read it back.
   */
  lemma DebugLengthTruncates(text: seq<bv8>)
    requires |text| == 255
    ensures DebugCommand(text)[1] == 0
    ensures DecodeCommand(DebugCommand(text)) == None
  {
  }
}
