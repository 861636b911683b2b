/** What the ESP32 makes of its UART when bytes are lost.

    The reader takes ten bytes at a time and never looks for a start byte, so after a loss that is no multiple
    of ten every block it takes is the end of one printed frame and the beginning of a later one. */
module UartLoss {
  import opened Words
  import opened Crc16
  import opened CrcWords
  import Esp32
  import SensorNode
  import SensorPayloads

  type SensorPayload = SensorPayloads.SensorPayload

  /** The last `10 - lost` bytes of one frame and the first `lost` bytes of the next. */
  function Rotated(p: SensorPayload, q: SensorPayload, lost: nat): (block: seq<byte>)
    requires lost < Esp32.RAW_FRAME_SIZE
    ensures |block| == Esp32.RAW_FRAME_SIZE
  {
    SensorNode.RawFrame(p)[lost..] + SensorNode.RawFrame(q)[..lost]
  }

  /** What is read when the first `lost` bytes are missing: the rotated blocks that pass validation. */
  function Misread(readings: seq<SensorPayload>, lost: nat): seq<SensorPayload>
    requires lost < Esp32.RAW_FRAME_SIZE
  {
    if |readings| < 2 then [] else
      var block := Rotated(readings[0], readings[1], lost);
      (if Esp32.ValidRawFrame(block) then [Esp32.RawReading(block)] else []) + Misread(readings[1..], lost)
  }

  lemma TakeRotated(p: SensorPayload, q: SensorPayload, rest: seq<byte>, lost: nat)
    requires 0 < lost < Esp32.RAW_FRAME_SIZE
    ensures var uart := (SensorNode.RawFrame(p) + (SensorNode.RawFrame(q) + rest))[lost..];
            && |uart| >= Esp32.RAW_FRAME_SIZE
            && uart[..Esp32.RAW_FRAME_SIZE] == Rotated(p, q, lost)
            && uart[Esp32.RAW_FRAME_SIZE..] == (SensorNode.RawFrame(q) + rest)[lost..]
  {
    hide SensorNode.RawFrame;
  }

  /** A stream that begins inside a frame: the reader reads rotated blocks, to its end. */
  lemma {:induction false} InsideFrame(readings: seq<SensorPayload>, lost: nat)
    requires readings != [] && 0 < lost < Esp32.RAW_FRAME_SIZE
    ensures Esp32.Intake(Esp32.UartBytes(readings)[lost..]) == Misread(readings, lost)
  {
    hide SensorNode.RawFrame, Esp32.ValidRawFrame, Esp32.RawReading;
    var uart := Esp32.UartBytes(readings);
    if |readings| == 1 {
      assert Esp32.UartBytes(readings[1..]) == [];
      assert |uart[lost..]| < Esp32.RAW_FRAME_SIZE;
    } else {
      var next := Esp32.UartBytes(readings[1..]);
      assert next == SensorNode.RawFrame(readings[1]) + Esp32.UartBytes(readings[1..][1..]);
      TakeRotated(readings[0], readings[1], Esp32.UartBytes(readings[1..][1..]), lost);
      InsideFrame(readings[1..], lost);
    }
  }

  // ---------- a loss anywhere in the stream ----------

  lemma {:induction false} PrintedPrefix(readings: seq<SensorPayload>, m: nat)
    requires m <= |readings|
    ensures Esp32.UartBytes(readings) == Esp32.UartBytes(readings[..m]) + Esp32.UartBytes(readings[m..])
    decreases |readings|
  {
    hide SensorNode.RawFrame;
    if m > 0 {
      assert readings[..m][1..] == readings[1..][..m - 1];
      PrintedPrefix(readings[1..], m - 1);
    } else {
      assert readings[..0] == [] && readings[0..] == readings;
    }
  }

  /** A printed frame is read first. */
  lemma IntakeFrame(p: SensorPayload, rest: seq<byte>)
    ensures Esp32.Intake(SensorNode.RawFrame(p) + rest) == [p] + Esp32.Intake(rest)
  {
    hide SensorNode.RawFrame, Esp32.ValidRawFrame, Esp32.RawReading;
    var uart := SensorNode.RawFrame(p) + rest;
    assert uart[..Esp32.RAW_FRAME_SIZE] == SensorNode.RawFrame(p) && uart[Esp32.RAW_FRAME_SIZE..] == rest;
    Esp32.RawFrameReading(p);
  }

  /** What follows whole frames is read as it would be alone. */
  lemma {:induction false} IntakeAfter(readings: seq<SensorPayload>, rest: seq<byte>)
    ensures Esp32.Intake(Esp32.UartBytes(readings) + rest) == readings + Esp32.Intake(rest)
  {
    hide SensorNode.RawFrame, Esp32.Intake;
    if readings == [] {
      assert Esp32.UartBytes(readings) + rest == rest;
    } else {
      var first, next := SensorNode.RawFrame(readings[0]), Esp32.UartBytes(readings[1..]) + rest;
      assert Esp32.UartBytes(readings) + rest == first + next;
      IntakeFrame(readings[0], next);
      IntakeAfter(readings[1..], rest);
      assert readings == [readings[0]] + readings[1..];
    }
  }

  /** The stream with `lost` bytes missing from `cut` on. */
  function Received(readings: seq<SensorPayload>, cut: nat, lost: nat): (s: seq<byte>)
    requires cut + lost <= Esp32.RAW_FRAME_SIZE * |readings|
    ensures |s| == Esp32.RAW_FRAME_SIZE * |readings| - lost
  {
    Esp32.UartBytes(readings)[..cut] + Esp32.UartBytes(readings)[cut + lost..]
  }

  /** What is taken from the block that begins in the frame with the gap, if the stream is that long. */
  function FromGap(received: seq<byte>, at: nat): seq<SensorPayload> {
    if |received| < at + Esp32.RAW_FRAME_SIZE then [] else
      var block := received[at..at + Esp32.RAW_FRAME_SIZE];
      if Esp32.ValidRawFrame(block) then [Esp32.RawReading(block)] else []
  }

  /** What is taken when frame `first` is met after `skipped` of its bytes. */
  function Later(readings: seq<SensorPayload>, first: nat, skipped: nat): seq<SensorPayload>
    requires skipped < Esp32.RAW_FRAME_SIZE
  {
    if first >= |readings| then [] else if skipped == 0 then readings[first..] else Misread(readings[first..], skipped)
  }

  lemma LaterIntake(readings: seq<SensorPayload>, first: nat, skipped: nat)
    requires skipped < Esp32.RAW_FRAME_SIZE && 10 * first + skipped <= 10 * |readings|
    ensures Esp32.Intake(Esp32.UartBytes(readings)[10 * first + skipped..]) == Later(readings, first, skipped)
  {
    hide Esp32.UartBytes, Misread;
    PrintedPrefix(readings, first);
    var uart, rest := Esp32.UartBytes(readings), Esp32.UartBytes(readings[first..]);
    assert uart[10 * first + skipped..] == rest[skipped..];
    if first == |readings| {
      assert Esp32.Intake([]) == [];
    } else if skipped == 0 {
      assert rest[0..] == rest;
      Esp32.IntakeUndoesPrinting(readings[first..]);
    } else {
      InsideFrame(readings[first..], skipped);
    }
  }

  /** What arrives from the frame with the gap on: the beginning of frame `m`, and the stream after the gap. */
  lemma SplitAtGap(readings: seq<SensorPayload>, m: nat, cut: nat, lost: nat)
    requires 10 * m <= cut && cut + lost <= 10 * |readings|
    ensures Received(readings, cut, lost)
         == Esp32.UartBytes(readings[..m]) + Received(readings, cut, lost)[10 * m..]
  {
    hide Esp32.UartBytes;
    PrintedPrefix(readings, m);
  }

  lemma IntakeBlock(bytes: seq<byte>)
    ensures Esp32.Intake(bytes) == FromGap(bytes, 0) + if |bytes| < 10 then [] else Esp32.Intake(bytes[10..])
  {
    hide Esp32.ValidRawFrame, Esp32.RawReading;
  }

  lemma NothingLater(readings: seq<SensorPayload>, first: nat, skipped: nat)
    requires skipped < Esp32.RAW_FRAME_SIZE && first >= |readings|
    ensures Later(readings, first, skipped) == []
  {
  }

  /** The same with `cut` and `lost` split into whole frames and bytes. */
  lemma NeverRealignsAt(readings: seq<SensorPayload>, m: nat, a: nat, w: nat, r: nat)
    requires a < 10 && r < 10 && 10 * m + a + (10 * w + r) <= 10 * |readings|
    ensures var received := Received(readings, 10 * m + a, 10 * w + r);
            Esp32.Intake(received) == readings[..m] + (FromGap(received, 10 * m) + Later(readings, m + 1 + w, r))
  {
    hide Esp32.UartBytes, Esp32.ValidRawFrame, Esp32.RawReading, Later, Esp32.Intake;
    var uart, received := Esp32.UartBytes(readings), Received(readings, 10 * m + a, 10 * w + r);
    var tail := received[10 * m..];
    SplitAtGap(readings, m, 10 * m + a, 10 * w + r);
    IntakeAfter(readings[..m], tail);
    IntakeBlock(tail);
    if |tail| >= 10 {
      assert tail[0..10] == received[10 * m..10 * m + 10];
      assert tail[10..] == uart[10 * (m + 1 + w) + r..];
      LaterIntake(readings, m + 1 + w, r);
    } else {
      assert Later(readings, m + 1 + w, r) == [] by {
        NothingLater(readings, m + 1 + w, r);
      }
    }
  }

  /** Losing bytes anywhere: every frame before the gap is taken; then the block that spans the gap, if it
      passes validation; and then, if the loss was whole frames' worth, every frame that follows, and
      otherwise, since the reader never realigns, rotated blocks to the end of the stream. */
  lemma NeverRealigns(readings: seq<SensorPayload>, cut: nat, lost: nat)
    requires cut + lost <= Esp32.RAW_FRAME_SIZE * |readings|
    ensures var received, m := Received(readings, cut, lost), cut / 10;
            Esp32.Intake(received)
            == readings[..m] + (FromGap(received, 10 * m) + Later(readings, m + 1 + lost / 10, lost % 10))
  {
    hide Received, FromGap, Later, Esp32.Intake;
    NeverRealignsAt(readings, cut / 10, cut % 10, lost / 10, lost % 10);
  }

  /** A rotated block passes exactly when byte `lost` of one frame is the start byte, byte `lost - 1` of the
      next is the end byte, and the CRC fits. */
  lemma RotatedPasses(p: SensorPayload, q: SensorPayload, lost: nat)
    requires 0 < lost < Esp32.RAW_FRAME_SIZE
    ensures var block := Rotated(p, q, lost);
            Esp32.ValidRawFrame(block)
            <==> && SensorNode.RawFrame(p)[lost] == SensorNode.FRAME_START
                 && SensorNode.RawFrame(q)[lost - 1] == SensorNode.FRAME_END
                 && WordFromBytes(block[7..9]) == Crc(block[..7])
  {
    hide SensorNode.RawFrame;
  }

  /** What the Arduino sends: distances of 2 to 400 centimetres, in hundredths. */
  predicate IsDistance(p: SensorPayload) {
    p.sensorType == 0x04 && p.unit == 0x04 && 200 <= p.valueRaw <= 40000
  }

  lemma OctetsOfDistance(v: int)
    requires 200 <= v <= 40000
    ensures Octet(v, 3) == 0 && Octet(v, 2) == 0 && Octet(v, 1) <= 0x9C
  {
    assert Octet(v, 1) == Octet(v / 0x100, 0);
    assert Octet(v, 2) == Octet(v / 0x100, 1) == Octet(v / 0x100 / 0x100, 0);
    assert Octet(v, 3) == Octet(v / 0x100, 2) == Octet(v / 0x100 / 0x100, 1) == Octet(v / 0x100 / 0x100 / 0x100, 0);
  }

  /** The bytes of a distance frame that cannot be a start or an end byte. */
  lemma DistanceBytes(p: SensorPayload)
    requires IsDistance(p)
    ensures var frame := SensorNode.RawFrame(p);
            && frame[1] == frame[6] == 0x04 && frame[2] == frame[3] == 0x00 && frame[4] <= 0x9C
            && frame[0] == 0xAA && frame[9] == 0x55
  {
    hide Crc, WordToBytes;
    OctetsOfToBe(4, p.valueRaw);
    var frame := SensorNode.RawFrame(p);
    assert frame[2..6] == ToBe(4, p.valueRaw);
    OctetsOfDistance(p.valueRaw);
  }

  // ---------- the two misalignments in which start and end byte can match: the CRC cannot ----------

  /** The seven checked bytes of a distance frame, `h` and `l` its two low value bytes in high halves. */
  function CheckedWords(h: bv16, l: bv16): seq<bv16> {
    [0xAA00, 0x0400, 0x0000, 0x0000, h, l, 0x0400]
  }

  function FrameWord(h: bv16, l: bv16): bv16 {
    AbsorbWord(AbsorbWord(AbsorbWord(0xDADD, h), l), 0x0400)
  }

  lemma PrefixWords()
    ensures AbsorbWord(AbsorbWord(0xFFFF, 0xAA00), 0x0400) == 0xAF3E
    ensures AbsorbWord(AbsorbWord(0xAF3E, 0x0000), 0x0000) == 0xDADD
    ensures AbsorbWord(AbsorbWord(AbsorbWord(0xFFFF, 0xAA00), 0x5500), 0xAA00) == 0x532B
    ensures AbsorbWord(AbsorbWord(AbsorbWord(0x532B, 0x0400), 0x0000), 0x0000) == 0x0142
  {
  }

  lemma SpellConstants()
    ensures WordBits(0x0000) == ByteBits(0x00) + Zeros(8) && WordBits(0x0400) == ByteBits(0x04) + Zeros(8)
    ensures WordBits(0x5500) == ByteBits(0x55) + Zeros(8) && WordBits(0xAA00) == ByteBits(0xAA) + Zeros(8)
  {
    hide WordBits, HighByte, ByteBits;
    ConstantBytes();
    HighWord(0x00);
    HighWord(0x04);
    HighWord(0x55);
    HighWord(0xAA);
  }

  /** The CRC of a distance frame, as a word. */
  lemma FrameCrc(p: SensorPayload, l: bv16)
    requires IsDistance(p) && WordBits(l) == ByteBits(SensorNode.RawFrame(p)[5]) + Zeros(8)
    ensures WordBits(FrameWord(HighByte(SensorNode.RawFrame(p)[4]), l)) == Crc(SensorNode.CheckedPart(p))
  {
    hide WordBits, HighByte, Crc, AbsorbWord, AbsorbAll, ByteBits, WordToBytes, IsDistance, ToBe;
    var frame, part := SensorNode.RawFrame(p), SensorNode.CheckedPart(p);
    var h := HighByte(frame[4]);
    DistanceBytes(p);
    assert part == frame[..7];
    SpellConstants();
    HighWord(frame[4]);
    assert Spells(CheckedWords(h, l), part);
    CrcAsWord(CheckedWords(h, l), part);
    AbsorbSeven(0xFFFF, 0xAA00, 0x0400, 0x0000, 0x0000, h, l, 0x0400);
    PrefixWords();
  }

  /** After a loss of five bytes the block's CRC would have to be zero. */
  lemma FiveNeverFits(h: bv16)
    requires h & 0xFF == 0
    ensures var w := FrameWord(h, 0xAA00);
            var received := AbsorbWord(AbsorbWord(0xAF3E, w & 0xFF00), w << 8);
            AbsorbWord(AbsorbWord(AbsorbWord(received, 0x5500), 0xAA00), 0x0400) != 0
  {
  }

  /** After a loss of eight bytes the block's CRC fixes the next frame's lowest value byte; that frame's own
      CRC then does not begin with the end byte. */
  lemma EightNeverFits(h: bv16)
    requires h & 0xFF == 0
    ensures var x := AbsorbWord(0x0142, h);
            x & 0xFF == 0x04 ==> FrameWord(h, x & 0xFF00) & 0xFF00 != 0x5500
  {
  }

  lemma JoinAtFive(a: seq<byte>, b: seq<byte>)
    requires |a| == |b| == 10
    ensures (a[5..] + b[..5])[..7] == [a[5], a[6], a[7], a[8], a[9], b[0], b[1]]
    ensures (a[5..] + b[..5])[7..9] == [b[2], b[3]]
  {
  }

  /** The block read after a loss of five bytes. */
  lemma FiveBytes(p: SensorPayload, q: SensorPayload)
    requires IsDistance(p) && IsDistance(q)
    ensures var frame, block := SensorNode.RawFrame(p), Rotated(p, q, 5);
            block[..7] == [frame[5], 0x04, frame[7], frame[8], 0x55, 0xAA, 0x04] && block[7..9] == [0x00, 0x00]
  {
    hide SensorNode.RawFrame, IsDistance;
    DistanceBytes(p);
    DistanceBytes(q);
    JoinAtFive(SensorNode.RawFrame(p), SensorNode.RawFrame(q));
  }

  lemma ZeroChecksum()
    ensures WordFromBytes([0x00, 0x00]) == Zeros(16)
  {
  }

  lemma FrameChecksum(p: SensorPayload, c: bv16)
    requires WordBits(c) == Crc(SensorNode.CheckedPart(p))
    ensures SensorNode.RawFrame(p)[7] == HighOf(c) && SensorNode.RawFrame(p)[8] == LowOf(c)
  {
    hide WordBits, Crc, BitsByte, SensorNode.CheckedPart;
  }

  lemma SpellsSeven(highs: seq<bv16>, data: seq<byte>)
    requires |highs| == |data| == 7
    requires WordBits(highs[0]) == ByteBits(data[0]) + Zeros(8) && WordBits(highs[1]) == ByteBits(data[1]) + Zeros(8)
    requires WordBits(highs[2]) == ByteBits(data[2]) + Zeros(8) && WordBits(highs[3]) == ByteBits(data[3]) + Zeros(8)
    requires WordBits(highs[4]) == ByteBits(data[4]) + Zeros(8) && WordBits(highs[5]) == ByteBits(data[5]) + Zeros(8)
    requires WordBits(highs[6]) == ByteBits(data[6]) + Zeros(8)
    ensures Spells(highs, data)
  {
    hide WordBits, ByteBits;
  }

  lemma NoBlockAfterFive(p: SensorPayload, q: SensorPayload)
    requires IsDistance(p) && IsDistance(q)
    ensures !Esp32.ValidRawFrame(Rotated(p, q, 5))
  {
    hide WordBits, HighByte, Crc, AbsorbWord, AbsorbAll, ByteBits, IsDistance, FrameWord, SensorNode.RawFrame, BitsByte;
    hide SensorNode.CheckedPart, WordFromBytes, Xor, Spells;
    var frame, next, block := SensorNode.RawFrame(p), SensorNode.RawFrame(q), Rotated(p, q, 5);
    DistanceBytes(p);
    DistanceBytes(q);
    RotatedPasses(p, q, 5);
    if Esp32.ValidRawFrame(block) {
      var h := HighByte(frame[4]);
      var c := FrameWord(h, 0xAA00);
      SpellConstants();
      FrameCrc(p, 0xAA00);
      FrameChecksum(p, c);
      HalvesAsBytes(c);
      var highs := [0xAA00, 0x0400, c & 0xFF00, c << 8, 0x5500, 0xAA00, 0x0400];
      FiveBytes(p, q);
      SpellsSeven(highs, block[..7]);
      CrcAsWord(highs, block[..7]);
      AbsorbSeven(0xFFFF, 0xAA00, 0x0400, c & 0xFF00, c << 8, 0x5500, 0xAA00, 0x0400);
      PrefixWords();
      WordBitsZero(AbsorbAll(0xFFFF, highs));
      ZeroChecksum();
      HighByteLow(frame[4]);
      FiveNeverFits(h);
      assert false;
    }
  }

  lemma JoinAtEight(a: seq<byte>, b: seq<byte>)
    requires |a| == |b| == 10
    ensures (a[8..] + b[..8])[..7] == [a[8], a[9], b[0], b[1], b[2], b[3], b[4]]
    ensures (a[8..] + b[..8])[7..9] == [b[5], b[6]]
  {
  }

  /** The block read after a loss of eight bytes. */
  lemma EightBytes(p: SensorPayload, q: SensorPayload)
    requires IsDistance(p) && IsDistance(q) && Esp32.ValidRawFrame(Rotated(p, q, 8))
    ensures var next, block := SensorNode.RawFrame(q), Rotated(p, q, 8);
            && block[..7] == [0xAA, 0x55, 0xAA, 0x04, 0x00, 0x00, next[4]] && block[7..9] == [next[5], 0x04]
            && next[7] == 0x55 && WordFromBytes([next[5], 0x04]) == Crc(block[..7])
  {
    hide SensorNode.RawFrame, IsDistance, Crc, WordFromBytes, Esp32.ValidRawFrame;
    DistanceBytes(p);
    DistanceBytes(q);
    RotatedPasses(p, q, 8);
    JoinAtEight(SensorNode.RawFrame(p), SensorNode.RawFrame(q));
  }

  /** A word equal to two received CRC bytes. */
  lemma ChecksumWord(x: bv16, high: byte, low: byte)
    requires WordBits(x) == WordFromBytes([high, low])
    ensures WordBits(x & 0xFF00) == ByteBits(high) + Zeros(8) && WordBits(x << 8) == ByteBits(low) + Zeros(8)
  {
    hide WordBits, ByteBits;
    HalvesAsBytes(x);
    assert WordBits(x)[..8] == ByteBits(high) && WordBits(x)[8..] == ByteBits(low);
    ByteBitsBitsByte(WordBits(x)[..8]);
    ByteBitsBitsByte(WordBits(x)[8..]);
  }

  lemma ShiftedByte(x: bv16)
    ensures x << 8 == 0x0400 <==> x & 0xFF == 0x04
  {
  }

  lemma LowHalf(x: bv16)
    requires WordBits(x << 8) == ByteBits(0x04) + Zeros(8)
    ensures x & 0xFF == 0x04
  {
    hide WordBits, ByteBits;
    SpellConstants();
    WordBitsInjective(x << 8, 0x0400);
    ShiftedByte(x);
  }

  lemma NoBlockAfterEight(p: SensorPayload, q: SensorPayload)
    requires IsDistance(p) && IsDistance(q)
    ensures !Esp32.ValidRawFrame(Rotated(p, q, 8))
  {
    hide WordBits, HighByte, Crc, AbsorbWord, AbsorbAll, ByteBits, IsDistance, FrameWord, SensorNode.RawFrame, BitsByte;
    hide SensorNode.CheckedPart, WordFromBytes, Xor, Spells;
    var next, block := SensorNode.RawFrame(q), Rotated(p, q, 8);
    DistanceBytes(q);
    RotatedPasses(p, q, 8);
    if Esp32.ValidRawFrame(block) {
      var h := HighByte(next[4]);
      SpellConstants();
      HighWord(next[4]);
      EightBytes(p, q);
      var highs := [0xAA00, 0x5500, 0xAA00, 0x0400, 0x0000, 0x0000, h];
      SpellsSeven(highs, block[..7]);
      CrcAsWord(highs, block[..7]);
      AbsorbSeven(0xFFFF, 0xAA00, 0x5500, 0xAA00, 0x0400, 0x0000, 0x0000, h);
      PrefixWords();
      var x := AbsorbWord(0x0142, h);
      ChecksumWord(x, next[5], 0x04);
      LowHalf(x);
      var l := x & 0xFF00;
      FrameCrc(q, l);
      var c := FrameWord(h, l);
      FrameChecksum(q, c);
      HalvesAsBytes(c);
      WordBitsInjective(c & 0xFF00, 0x5500);
      HighByteLow(next[4]);
      EightNeverFits(h);
      assert false;
    }
  }

  lemma RotatedRefused(p: SensorPayload, q: SensorPayload, lost: nat)
    requires 0 < lost < Esp32.RAW_FRAME_SIZE && IsDistance(p) && IsDistance(q)
    ensures !Esp32.ValidRawFrame(Rotated(p, q, lost))
  {
    hide IsDistance, SensorNode.RawFrame, Esp32.ValidRawFrame, Rotated;
    DistanceBytes(p);
    DistanceBytes(q);
    RotatedPasses(p, q, lost);
    if lost == 5 {
      NoBlockAfterFive(p, q);
    }
    if lost == 8 {
      NoBlockAfterEight(p, q);
    }
  }

  lemma {:induction false} NothingMisread(readings: seq<SensorPayload>, lost: nat)
    requires 0 < lost < Esp32.RAW_FRAME_SIZE
    requires forall p :: p in readings ==> IsDistance(p)
    ensures Misread(readings, lost) == []
  {
    hide IsDistance, Rotated, Esp32.ValidRawFrame, Esp32.RawReading;
    if |readings| >= 2 {
      assert readings[0] in readings && readings[1] in readings;
      RotatedRefused(readings[0], readings[1], lost);
      NothingMisread(readings[1..], lost);
    }
  }

  lemma LaterSilent(readings: seq<SensorPayload>, first: nat, skipped: nat)
    requires 0 < skipped < Esp32.RAW_FRAME_SIZE && forall p :: p in readings ==> IsDistance(p)
    ensures Later(readings, first, skipped) == []
  {
    hide IsDistance, Misread;
    if first < |readings| {
      NothingMisread(readings[first..], skipped);
    }
  }

  /** The last byte of the block that spans the gap, where `10 * q + i` is its place in the lossless stream. */
  lemma GapEndByte(readings: seq<SensorPayload>, m: nat, cut: nat, lost: nat, q: nat, i: nat)
    requires 10 * m <= cut <= 10 * m + 9 && 10 * m + 9 + lost == 10 * q + i && i < 10
    requires cut + lost <= 10 * |readings| && 10 * m + 10 + lost <= 10 * |readings|
    ensures q < |readings|
    ensures Received(readings, cut, lost)[10 * m + 9] == SensorNode.RawFrame(readings[q])[i]
  {
    hide SensorNode.RawFrame;
    assert q < |readings|;
    PrintedPrefix(readings, q);
    assert Received(readings, cut, lost)[10 * m + 9] == Esp32.UartBytes(readings)[10 * q + i];
    assert Esp32.UartBytes(readings[q..])[i] == SensorNode.RawFrame(readings[q])[i];
  }

  /** The lengths, modulo ten, after which the block that spans the gap cannot end with the end byte. */
  predicate NoEndByte(r: nat) {
    r == 1 || r == 2 || r == 3 || r == 4 || r == 7
  }

  lemma GapNeedsEndByte(readings: seq<SensorPayload>, m: nat, a: nat, w: nat, r: nat)
    requires a < 10 && NoEndByte(r) && 10 * m + a + (10 * w + r) <= 10 * |readings|
    requires forall p :: p in readings ==> IsDistance(p)
    ensures FromGap(Received(readings, 10 * m + a, 10 * w + r), 10 * m) == []
  {
    hide SensorNode.RawFrame, IsDistance, Received, Crc, WordFromBytes;
    if 10 * m + 10 + (10 * w + r) <= 10 * |readings| {
      GapEndByte(readings, m, 10 * m + a, 10 * w + r, m + w + 1, r - 1);
      DistanceBytes(readings[m + w + 1]);
    }
  }

  /** A loss at a frame boundary leaves no block with bytes from both sides of the gap. */
  lemma GapAtBoundary(readings: seq<SensorPayload>, m: nat, w: nat, r: nat)
    requires 0 < r < 10 && 10 * m + (10 * w + r) <= 10 * |readings|
    requires forall p :: p in readings ==> IsDistance(p)
    ensures FromGap(Received(readings, 10 * m, 10 * w + r), 10 * m) == []
  {
    hide Esp32.UartBytes, IsDistance, Esp32.ValidRawFrame, Esp32.RawReading, Later, Esp32.Intake;
    var received := Received(readings, 10 * m, 10 * w + r);
    LaterIntake(readings, m + w, r);
    LaterSilent(readings, m + w, r);
    assert received[10 * m..] == Esp32.UartBytes(readings)[10 * (m + w) + r..];
    IntakeBlock(received[10 * m..]);
    if |received| >= 10 * m + 10 {
      assert received[10 * m..][0..10] == received[10 * m..10 * m + 10];
    }
  }

  /** A loss that is no multiple of ten bytes silences the Arduino for good: of its distance frames those
      before the gap are taken, then at most the one block that spans the gap, then nothing. And that block
      cannot pass if the loss begins with a frame, or is 1, 2, 3, 4 or 7 bytes long modulo ten. */
  lemma LossSilences(readings: seq<SensorPayload>, cut: nat, lost: nat)
    requires cut + lost <= Esp32.RAW_FRAME_SIZE * |readings| && lost % 10 != 0
    requires forall p :: p in readings ==> IsDistance(p)
    ensures var received, m := Received(readings, cut, lost), cut / 10;
            && Esp32.Intake(received) == readings[..m] + FromGap(received, 10 * m)
            && (cut % 10 == 0 || NoEndByte(lost % 10) ==> FromGap(received, 10 * m) == [])
  {
    hide IsDistance, Received, FromGap, Later, Esp32.Intake, NoEndByte;
    NeverRealigns(readings, cut, lost);
    LaterSilent(readings, cut / 10 + 1 + lost / 10, lost % 10);
    if cut % 10 == 0 {
      GapAtBoundary(readings, cut / 10, lost / 10, lost % 10);
    } else if NoEndByte(lost % 10) {
      GapNeedsEndByte(readings, cut / 10, cut % 10, lost / 10, lost % 10);
    }
  }

  // ---------- the block that spans the gap can pass ----------

  const NEAR := SensorPayloads.SensorPayload(0x04, 11628, 0x04)
  const FAR := SensorPayloads.SensorPayload(0x04, 21760, 0x04)
  const NEVER_MEASURED := SensorPayloads.SensorPayload(0x04, 0x0B7A_55AA, 0x04)

  /** The value bytes of the three, and the four bytes that `SpellConstants` does not list. */
  lemma ExampleBytes()
    ensures ToBe(4, NEAR.valueRaw) == [0x00, 0x00, 0x2D, 0x6C] && ToBe(4, FAR.valueRaw) == [0x00, 0x00, 0x55, 0x00]
    ensures ToBe(4, NEVER_MEASURED.valueRaw) == [0x0B, 0x7A, 0x55, 0xAA]
    ensures HighByte(0x0B) == 0x0B00 && HighByte(0x7A) == 0x7A00
    ensures HighByte(0x2D) == 0x2D00 && HighByte(0x6C) == 0x6C00
  {
    OctetsOfToBe(4, NEAR.valueRaw);
    OctetsOfToBe(4, FAR.valueRaw);
    OctetsOfToBe(4, NEVER_MEASURED.valueRaw);
  }

  /** The two CRCs by which the block passes: that of the first distance's frame, and its own. */
  lemma ExampleCrcs()
    ensures FrameWord(0x2D00, 0x6C00) == 0x0B7A
    ensures AbsorbWord(AbsorbWord(AbsorbWord(0xAF3E, 0x0B00), 0x7A00), 0x5500) == 0xAA04
    ensures AbsorbWord(AbsorbWord(0xAA04, 0xAA00), 0x0400) == 0x0000
  {
  }

  lemma SameByte(b: byte, c: byte)
    requires ByteBits(b) + Zeros(8) == ByteBits(c) + Zeros(8)
    ensures b == c
  {
    hide ByteBits, BitsByte;
    assert (ByteBits(b) + Zeros(8))[..8] == (ByteBits(c) + Zeros(8))[..8];
    BitsByteByteBits(b);
    BitsByteByteBits(c);
  }

  lemma WordOfBytes(c: bv16, high: byte, low: byte)
    requires HighByte(high) == c & 0xFF00 && HighByte(low) == c << 8
    ensures WordToBytes(WordBits(c)) == [high, low]
  {
    hide WordBits, HighByte, BitsByte, ByteBits;
    HalvesAsBytes(c);
    HighWord(high);
    HighWord(low);
    SameByte(HighOf(c), high);
    SameByte(LowOf(c), low);
  }

  lemma NearFrame()
    ensures SensorNode.RawFrame(NEAR)[0] == 0xAA && SensorNode.RawFrame(NEAR)[6..] == [0x04, 0x0B, 0x7A, 0x55]
  {
    hide Crc, WordBits, HighByte, FrameWord, AbsorbWord, WordToBytes, ToBe, ByteBits;
    ExampleBytes();
    assert SensorNode.RawFrame(NEAR)[4..6] == [0x2D, 0x6C];
    HighWord(0x6C);
    FrameCrc(NEAR, 0x6C00);
    ExampleCrcs();
    WordOfBytes(0x0B7A, 0x0B, 0x7A);
  }

  lemma GapFrame()
    ensures SensorNode.RawFrame(NEVER_MEASURED) == [0xAA, 0x04, 0x0B, 0x7A, 0x55, 0xAA, 0x04, 0x00, 0x00, 0x55]
  {
    hide Crc, WordBits, HighByte, AbsorbAll, AbsorbWord, WordToBytes, ToBe, ByteBits;
    ExampleBytes();
    SpellConstants();
    ConstantBytes();
    HighWord(0x0B);
    HighWord(0x7A);
    var part := SensorNode.CheckedPart(NEVER_MEASURED);
    assert part == [0xAA, 0x04, 0x0B, 0x7A, 0x55, 0xAA, 0x04];
    var highs := [0xAA00, 0x0400, 0x0B00, 0x7A00, 0x5500, 0xAA00, 0x0400];
    SpellsSeven(highs, part);
    CrcAsWord(highs, part);
    AbsorbSeven(0xFFFF, 0xAA00, 0x0400, 0x0B00, 0x7A00, 0x5500, 0xAA00, 0x0400);
    PrefixWords();
    ExampleCrcs();
    WordOfBytes(0x0000, 0x00, 0x00);
  }

  lemma FarFrame()
    ensures SensorNode.RawFrame(FAR)[..5] == [0xAA, 0x04, 0x00, 0x00, 0x55]
  {
    hide Crc, WordToBytes, ToBe;
    ExampleBytes();
  }

  lemma TwoFrames(p: SensorPayload, q: SensorPayload)
    ensures Esp32.UartBytes([p, q]) == SensorNode.RawFrame(p) + SensorNode.RawFrame(q)
  {
    hide SensorNode.RawFrame;
    assert [p, q][1..] == [q] && [q][1..] == [];
    assert Esp32.UartBytes([q]) == SensorNode.RawFrame(q) + [];
  }

  /** Two distances, 116.28 and 217.60 centimetres, and five lost bytes: the reader takes a distance of almost
      two million centimetres. */
  lemma GapCanPass()
    ensures IsDistance(NEAR) && IsDistance(FAR)
    ensures Esp32.Intake(Received([NEAR, FAR], 1, 5)) == [NEVER_MEASURED]
  {
    hide SensorNode.RawFrame, Esp32.ValidRawFrame, Esp32.RawReading, Esp32.UartBytes, Esp32.Intake, Misread;
    var received := Received([NEAR, FAR], 1, 5);
    TwoFrames(NEAR, FAR);
    NearFrame();
    FarFrame();
    GapFrame();
    assert received[..10] == SensorNode.RawFrame(NEVER_MEASURED);
    Esp32.RawFrameReading(NEVER_MEASURED);
    NeverRealignsAt([NEAR, FAR], 0, 1, 0, 5);
    LaterSilent([NEAR, FAR], 1, 5);
  }
}
