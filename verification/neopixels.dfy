/** Pixel words of a WS2812 strip and the byte-stream packing that sends one
    colour to all 30 pixels of a one-metre strip (inc/neopixels.h).

    The strip reads a contiguous stream of channel bytes, three per pixel, in
    green, red, blue order. The PIO push primitive always sends 32 bits, so the
    stream is cut into 32-bit transfer words, most significant byte first.
 */
module NeoPixels {

  /** One colour channel as sent on the wire. */
  type Byte = bv8

  /** A 32-bit transfer word, and also the type of a GRB pixel word. */
  type Word = bv32

  /** Channel cursor values: 0 is green, 1 is red, 2 is blue. */
  type Channel = c: int | 0 <= c < 3

  /** Channel bytes in one frame: 30 pixels of 3 bytes. */
  const FrameBytes: nat := 90

  /** Pixels on the strip. */
  const StripPixels: nat := 30

  /** Transfer words one call pushes: the exit check runs after each full word,
      so it fires at 92 bytes, the first multiple of 4 that reaches 90. */
  const PushedWords: nat := 23

  /** Idle gap held after the FIFO drained, in microseconds. The WS2812
      datasheet asks for at least 50; the firmware holds 200. */
  const ResetGapUs: nat := 200

  /** Composes a pixel word from its red, green and blue channels:
      blue in bits 0-7, red in bits 8-15, green in bits 16-23, top byte zero. */
  function Urgb(r: Byte, g: Byte, b: Byte): (w: Word)
    ensures (w >> 24) == 0
    ensures (w & 0xff) == b as Word
    ensures ((w >> 8) & 0xff) == r as Word
    ensures ((w >> 16) & 0xff) == g as Word
    ensures ChannelByte(w, 0) == g && ChannelByte(w, 1) == r && ChannelByte(w, 2) == b
  {
    (b as Word) | ((r as Word) << 8) | ((g as Word) << 16)
  }

  /** The byte of channel `c` of a GRB word, as the packing loop reads it:
      shift right by `(2 - c) * 8` and keep the low byte. The three shift
      amounts, 16, 8 and 0, are written out so that the solver sees constant
      shifts. */
  function ChannelByte(pixel: Word, c: Channel): Byte
  {
    (if c == 0 then (pixel >> 16) & 0xff
     else if c == 1 then (pixel >> 8) & 0xff
     else pixel & 0xff) as Byte
  }

  /** The channel bytes of one pixel in wire order: green, red, blue. */
  function PixelBytes(pixel: Word): (bs: seq<Byte>)
    ensures |bs| == 3
  {
    [ChannelByte(pixel, 0), ChannelByte(pixel, 1), ChannelByte(pixel, 2)]
  }

  /** Composition and channel extraction are inverse to each other on words
      whose top byte is zero. */
  lemma UrgbOfChannels(w: Word)
    requires (w >> 24) == 0
    ensures Urgb(ChannelByte(w, 1), ChannelByte(w, 0), ChannelByte(w, 2)) == w
  {
  }

  /** A pixel composed by `Urgb` goes on the wire as green, red, blue. */
  lemma UrgbWireOrder(r: Byte, g: Byte, b: Byte)
    ensures PixelBytes(Urgb(r, g, b)) == [g, r, b]
  {
  }

  /** Byte `k` of the endless stream that repeats one pixel: the channel cursor
      starts at green and advances modulo 3 with every byte. */
  function StreamByte(pixel: Word, k: nat): Byte
  {
    ChannelByte(pixel, k % 3)
  }

  /** The first `n` bytes of that stream. */
  function Stream(pixel: Word, n: nat): (s: seq<Byte>)
    ensures |s| == n
    ensures forall k :: 0 <= k < n ==> s[k] == StreamByte(pixel, k)
  {
    seq(n, k requires 0 <= k => StreamByte(pixel, k))
  }

  /** `n` whole pixels of the same colour, one after the other. */
  function Frame(pixel: Word, n: nat): (f: seq<Byte>)
    ensures |f| == 3 * n
  {
    if n == 0 then [] else Frame(pixel, n - 1) + PixelBytes(pixel)
  }

  /** The first `3 * n` stream bytes are exactly `n` repetitions of the pixel's
      green, red and blue bytes. */
  lemma {:induction false} StreamIsFrame(pixel: Word, n: nat)
    ensures Stream(pixel, 3 * n) == Frame(pixel, n)
  {
    if n > 0 {
      StreamIsFrame(pixel, n - 1);
      var m := 3 * (n - 1);
      assert m % 3 == 0 && (m + 1) % 3 == 1 && (m + 2) % 3 == 2;
      assert [StreamByte(pixel, m), StreamByte(pixel, m + 1), StreamByte(pixel, m + 2)] == PixelBytes(pixel);
      assert Stream(pixel, 3 * n) == Stream(pixel, m) + PixelBytes(pixel);
    }
  }

  /** Of the 92 bytes that 23 words carry, the first 90 are the 30 pixels of
      the frame and the last two are the green and red bytes of a 31st pixel. */
  lemma FrameAndOverrun(pixel: Word)
    ensures Stream(pixel, 4 * PushedWords)[..FrameBytes] == Frame(pixel, StripPixels)
    ensures Stream(pixel, 4 * PushedWords)[FrameBytes..] == PixelBytes(pixel)[..2]
  {
    var s := Stream(pixel, 4 * PushedWords);
    assert s[..FrameBytes] == Stream(pixel, FrameBytes);
    StreamIsFrame(pixel, StripPixels);
    assert 90 % 3 == 0 && 91 % 3 == 1;
    assert s[FrameBytes..] == [StreamByte(pixel, 90), StreamByte(pixel, 91)];
  }

  /** Byte `v` moved to byte position `i` of a word, bits `8i .. 8i+7`: the
      value of `v << (i * 8)` taken as an unsigned 32-bit word. */
  function Placed(v: Byte, i: int): Word
    requires 0 <= i < 4
  {
    if i == 3 then (v as Word) << 24
    else if i == 2 then (v as Word) << 16
    else if i == 1 then (v as Word) << 8
    else v as Word
  }

  /** Four bytes packed into one transfer word, the first in bits 24-31 and the
      fourth in bits 0-7. */
  function Pack(b0: Byte, b1: Byte, b2: Byte, b3: Byte): Word
  {
    ((b0 as Word) << 24) | ((b1 as Word) << 16) | ((b2 as Word) << 8) | (b3 as Word)
  }

  /** The four bytes of a transfer word in the order the wire sends them,
      most significant first. */
  function Unpack(w: Word): (bs: seq<Byte>)
    ensures |bs| == 4
  {
    [((w >> 24) & 0xff) as Byte, ((w >> 16) & 0xff) as Byte,
     ((w >> 8) & 0xff) as Byte, (w & 0xff) as Byte]
  }

  /** Unpacking recovers the four packed bytes in order. */
  lemma UnpackPack(b0: Byte, b1: Byte, b2: Byte, b3: Byte)
    ensures Unpack(Pack(b0, b1, b2, b3)) == [b0, b1, b2, b3]
  {
  }

  /** Packing the unpacked bytes gives back the word. */
  lemma PackUnpack(w: Word)
    ensures var bs := Unpack(w); Pack(bs[0], bs[1], bs[2], bs[3]) == w
  {
  }

  /** Byte `k` of four. */
  function NthOf(b0: Byte, b1: Byte, b2: Byte, b3: Byte, k: int): Byte
  {
    if k == 0 then b0 else if k == 1 then b1 else if k == 2 then b2 else b3
  }

  /** The first `n` of four bytes OR-ed into a word from the top down, byte
      `k` in position `3 - k`; the positions not yet reached stay zero. This
      is the message word after `n` passes of the inner loop. */
  function PackPrefix(b0: Byte, b1: Byte, b2: Byte, b3: Byte, n: int): Word
  {
    Pack(if 0 < n then b0 else 0, if 1 < n then b1 else 0,
         if 2 < n then b2 else 0, if 3 < n then b3 else 0)
  }

  /** The pass with loop index `i` handles byte `3 - i`: OR-ing it in at
      position `i` extends the partly filled word by exactly that byte. */
  lemma PackPrefixStep(b0: Byte, b1: Byte, b2: Byte, b3: Byte, i: int)
    requires 0 <= i < 4
    ensures PackPrefix(b0, b1, b2, b3, 3 - i) | Placed(NthOf(b0, b1, b2, b3, 3 - i), i)
            == PackPrefix(b0, b1, b2, b3, 4 - i)
  {
    if i == 3 {
    } else if i == 2 {
    } else if i == 1 {
    } else {
    }
  }

  /** Advances the channel cursor by one: green, red, blue, then green again. */
  function Next(c: Channel): Channel
  {
    if c == 2 then 0 else c + 1
  }

  /** The cursor `k` bytes after it stood at `c`. */
  function Cursor(c: Channel, k: nat): Channel
  {
    if k == 0 then c else Next(Cursor(c, k - 1))
  }

  /** The loop's `(channel + 1) % 3` is one cursor step. */
  lemma NextIsMod(c: Channel)
    ensures (c + 1) % 3 == Next(c)
  {
  }

  /** `k` cursor steps from `c` land on `(c + k) % 3`. */
  lemma {:induction false} CursorMod(c: Channel, k: nat)
    ensures Cursor(c, k) == (c + k) % 3
  {
    if k > 0 {
      CursorMod(c, k - 1);
    }
  }

  /** Adding four before or after reducing modulo 3 gives the same channel. */
  lemma ModThreeAddFour(t: nat)
    ensures (t % 3 + 4) % 3 == (t + 4) % 3
  {
  }

  /** Four cursor steps from the channel of byte `t` land on the channel of
      byte `t + 4`: the cursor stays in step with the byte count across words. */
  lemma CursorAfterWord(t: nat)
    ensures Cursor(t % 3, 4) == (t + 4) % 3
  {
    CursorMod(t % 3, 4);
    ModThreeAddFour(t);
  }

  /** The byte the cursor reads `k` bytes after it stood at `c`. */
  function CursorByte(pixel: Word, c: Channel, k: nat): Byte
  {
    ChannelByte(pixel, Cursor(c, k))
  }

  /** Byte `k` of the four a cursor reads is the cursor's `k`-th byte. */
  lemma CursorNth(pixel: Word, c: Channel, k: int)
    requires 0 <= k < 4
    ensures NthOf(CursorByte(pixel, c, 0), CursorByte(pixel, c, 1), CursorByte(pixel, c, 2),
                  CursorByte(pixel, c, 3), k) == CursorByte(pixel, c, k)
  {
    if k == 0 {
    } else if k == 1 {
    } else if k == 2 {
    } else {
    }
  }

  /** Transfer word `j` of the stream: stream bytes `4j .. 4j+3`. */
  function StreamWord(pixel: Word, j: nat): Word
  {
    Pack(StreamByte(pixel, 4 * j), StreamByte(pixel, 4 * j + 1),
         StreamByte(pixel, 4 * j + 2), StreamByte(pixel, 4 * j + 3))
  }

  /** Actions of one transmission, in order. */
  datatype TxEvent =
    | Push(word: Word)     // pio_sm_put_blocking of one transfer word
    | AwaitFifoEmpty       // poll the TX FIFO with 1 us sleeps until it is empty
    | SleepUs(us: nat)     // hold the line idle

  /** The bytes a trace puts on the wire: the bytes of its pushed words, in order. */
  function WireBytes(trace: seq<TxEvent>): (bs: seq<Byte>)
  {
    if |trace| == 0 then []
    else
      var last := trace[|trace| - 1];
      WireBytes(trace[..|trace| - 1]) + (if last.Push? then Unpack(last.word) else [])
  }

  lemma WireBytesAppend(trace: seq<TxEvent>, e: TxEvent)
    ensures WireBytes(trace + [e]) == WireBytes(trace) + (if e.Push? then Unpack(e.word) else [])
  {
    assert (trace + [e])[..|trace|] == trace;
  }

  /** Word `j` unpacks to stream bytes `4j .. 4j+3`. */
  lemma StreamWordBytes(pixel: Word, j: nat)
    ensures Stream(pixel, 4 * j) + Unpack(StreamWord(pixel, j)) == Stream(pixel, 4 * j + 4)
  {
    var t := 4 * j;
    UnpackPack(StreamByte(pixel, t), StreamByte(pixel, t + 1), StreamByte(pixel, t + 2), StreamByte(pixel, t + 3));
  }

  /** A cursor standing at the byte count modulo 3 reads the next stream bytes. */
  lemma CursorReadsStream(pixel: Word, transmitted: nat, k: nat)
    ensures CursorByte(pixel, transmitted % 3, k) == StreamByte(pixel, transmitted + k)
  {
    CursorMod(transmitted % 3, k);
    assert (transmitted % 3 + k) % 3 == (transmitted + k) % 3;
  }

  /** The message word the inner loop fills from a cursor standing at `c`:
      all four passes done. */
  function CursorWord(pixel: Word, c: Channel): Word
  {
    PackPrefix(CursorByte(pixel, c, 0), CursorByte(pixel, c, 1),
               CursorByte(pixel, c, 2), CursorByte(pixel, c, 3), 4)
  }

  /** Once all four passes are done, the message word is the four bytes packed. */
  lemma PackPrefixAll(b0: Byte, b1: Byte, b2: Byte, b3: Byte)
    ensures PackPrefix(b0, b1, b2, b3, 4) == Pack(b0, b1, b2, b3)
  {
  }

  /** Started at the channel of byte `4j`, the cursor fills stream word `j`. */
  lemma CursorWordIsStreamWord(pixel: Word, j: nat)
    ensures CursorWord(pixel, (4 * j) % 3) == StreamWord(pixel, j)
  {
    var t := 4 * j;
    CursorReadsStream(pixel, t, 0);
    CursorReadsStream(pixel, t, 1);
    CursorReadsStream(pixel, t, 2);
    CursorReadsStream(pixel, t, 3);
    PackPrefixAll(CursorByte(pixel, t % 3, 0), CursorByte(pixel, t % 3, 1),
                  CursorByte(pixel, t % 3, 2), CursorByte(pixel, t % 3, 3));
  }

  /** The inner loop of the transmission: collects the four bytes the channel
      cursor reads into one message word, the first byte in bits 24-31,
      advancing the cursor modulo 3 and the byte count once per byte. */
  method NextWord(pixelGrb: Word, channel: Channel, transmitted: nat)
    returns (msg: Word, channel': Channel, transmitted': nat)
    ensures msg == CursorWord(pixelGrb, channel)
    ensures transmitted' == transmitted + 4
    ensures channel' == (channel + 4) % 3
    ensures channel' == Cursor(channel, 4)
  {
    ghost var b0, b1, b2, b3 := CursorByte(pixelGrb, channel, 0), CursorByte(pixelGrb, channel, 1),
                                CursorByte(pixelGrb, channel, 2), CursorByte(pixelGrb, channel, 3);
    var colorChannel: Channel := channel;
    var transmittedBytes := transmitted;
    msg := 0;
    var i := 3;
    while i >= 0
      invariant -1 <= i <= 3
      invariant transmittedBytes == transmitted + (3 - i)
      invariant colorChannel == Cursor(channel, 3 - i)
      invariant msg == PackPrefix(b0, b1, b2, b3, 3 - i)
    {
      var colorVal := ChannelByte(pixelGrb, colorChannel);
      assert colorVal == CursorByte(pixelGrb, channel, 3 - i);
      CursorNth(pixelGrb, channel, 3 - i);
      PackPrefixStep(b0, b1, b2, b3, i);
      msg := msg | Placed(colorVal, i);
      NextIsMod(colorChannel);
      colorChannel := (colorChannel + 1) % 3;
      transmittedBytes := transmittedBytes + 1;
      i := i - 1;
    }
    CursorMod(channel, 4);
    channel' := colorChannel;
    transmitted' := transmittedBytes;
  }

  /** A run of pushes of consecutive stream words puts the stream itself on
      the wire, four bytes per word. */
  lemma {:induction false} PushedStream(pixel: Word, trace: seq<TxEvent>)
    requires forall j :: 0 <= j < |trace| ==> trace[j] == Push(StreamWord(pixel, j))
    ensures WireBytes(trace) == Stream(pixel, 4 * |trace|)
  {
    if |trace| > 0 {
      var n := |trace| - 1;
      PushedStream(pixel, trace[..n]);
      assert WireBytes(trace) == WireBytes(trace[..n]) + Unpack(StreamWord(pixel, n));
      StreamWordBytes(pixel, n);
    }
  }

  /** The whole transmission for one colour: stream words 0 .. 22 pushed in
      order, then the FIFO drain, then the reset gap. */
  function Transmission(pixel: Word): (trace: seq<TxEvent>)
    ensures |trace| == PushedWords + 2
  {
    seq(PushedWords, j requires 0 <= j => Push(StreamWord(pixel, j)))
      + [AwaitFifoEmpty, SleepUs(ResetGapUs)]
  }

  /** Stream words 0 .. 22 pushed in order, followed by the drain and the reset
      gap, are the transmission. */
  lemma TransmissionOf(pixel: Word, words: seq<TxEvent>)
    requires |words| == PushedWords
    requires forall j :: 0 <= j < |words| ==> words[j] == Push(StreamWord(pixel, j))
    ensures words + [AwaitFifoEmpty, SleepUs(ResetGapUs)] == Transmission(pixel)
  {
    assert words == seq(PushedWords, j requires 0 <= j => Push(StreamWord(pixel, j)));
  }

  /** What the transmission puts on the wire: 92 stream bytes, the 30 pixels
      of the frame followed by the green and red bytes of a 31st. */
  lemma TransmissionBytes(pixel: Word)
    ensures WireBytes(Transmission(pixel)) == Stream(pixel, 4 * PushedWords)
    ensures WireBytes(Transmission(pixel))[..FrameBytes] == Frame(pixel, StripPixels)
    ensures WireBytes(Transmission(pixel))[FrameBytes..] == PixelBytes(pixel)[..2]
  {
    var trace := Transmission(pixel);
    var words := trace[..PushedWords];
    PushedStream(pixel, words);
    WireBytesAppend(words, AwaitFifoEmpty);
    WireBytesAppend(words + [AwaitFifoEmpty], SleepUs(ResetGapUs));
    assert words + [AwaitFifoEmpty] + [SleepUs(ResetGapUs)] == trace;
    FrameAndOverrun(pixel);
  }

  /** Sends one colour to the whole strip. The channel cursor runs across
      pixel and word boundaries; a word is pushed once four bytes are in it,
      and only then is the byte count compared with 90. So 23 words (92 bytes)
      go out, the last carrying the green and red bytes of a 31st pixel. Then
      the FIFO is drained and the line held idle for the reset gap. */
  method Put30Pixels(pixelGrb: Word) returns (trace: seq<TxEvent>)
    ensures trace == Transmission(pixelGrb)
    ensures WireBytes(trace) == Stream(pixelGrb, 4 * PushedWords)
  {
    var colorChannel: Channel := 0;
    var transmittedBytes: nat := 0;
    trace := [];
    while true
      invariant transmittedBytes == 4 * |trace| < FrameBytes
      invariant colorChannel == transmittedBytes % 3
      invariant forall j :: 0 <= j < |trace| ==> trace[j] == Push(StreamWord(pixelGrb, j))
      decreases FrameBytes - transmittedBytes
    {
      var msg;
      CursorWordIsStreamWord(pixelGrb, |trace|);
      CursorAfterWord(transmittedBytes);
      msg, colorChannel, transmittedBytes := NextWord(pixelGrb, colorChannel, transmittedBytes);
      trace := trace + [Push(msg)];
      if transmittedBytes >= FrameBytes {
        break;
      }
    }
    TransmissionOf(pixelGrb, trace);
    trace := trace + [AwaitFifoEmpty, SleepUs(ResetGapUs)];
    TransmissionBytes(pixelGrb);
  }
}
