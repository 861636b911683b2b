/** The Arduino node: the ten-byte UART frame and its printer. */
module SensorNode {
  import opened Words
  import opened Crc16
  import SensorPayloads

  type SensorPayload = SensorPayloads.SensorPayload

  const FRAME_START: byte := 0xAA
  const FRAME_END: byte := 0x55
  const FRAME_SIZE := 10

  function CheckedPart(p: SensorPayload): (s: seq<byte>)
    ensures |s| == 7
  {
    [FRAME_START, p.sensorType] + ToBe(4, p.valueRaw) + [p.unit]
  }

  function RawFrame(p: SensorPayload): (s: seq<byte>)
    ensures |s| == FRAME_SIZE
  {
    CheckedPart(p) + WordToBytes(Crc(CheckedPart(p))) + [FRAME_END]
  }

  /** Where each field lies in the ten bytes. */
  lemma FrameBytes(p: SensorPayload)
    ensures var frame := RawFrame(p);
            && frame[0] == 0xAA && frame[1] == p.sensorType && frame[2..6] == ToBe(4, p.valueRaw)
            && frame[6] == p.unit && frame[7..9] == WordToBytes(Crc(frame[..7])) && frame[9] == 0x55
  {
    hide Crc, WordToBytes, ToBe;
    var frame := RawFrame(p);
    assert frame[..7] == CheckedPart(p);
    assert frame[2..6] == CheckedPart(p)[2..6] && CheckedPart(p)[2..6] == ToBe(4, p.valueRaw);
  }

  /** The node's CRC loop, whose length and counter are single bytes. */
  method ComputeCrc16(data: array<byte>, length: byte) returns (crc: bv16)
    requires length <= data.Length
    ensures WordBits(crc) == Crc(data[..length])
  {
    ghost var message := data[..length];
    crc := 0xFFFF;
    ConstantWords();
    var i: byte := 0;
    while i < length
      invariant i <= length
      invariant Continue(WordBits(crc), message[i..]) == Crc(message)
    {
      assert message[i..][1..] == message[i + 1..];
      crc := AbsorbByte(crc, data[i]);
      i := i + 1;
    }
  }

  class Node {
    var frameCount: u32
    var uart: seq<byte>

    constructor ()
      ensures frameCount == 0 && uart == []
    {
      frameCount := 0;
      uart := [];
    }

    /** Prints one frame byte by byte into a buffer and writes it to the UART. */
    method SendFrame(sensorType: byte, valueRaw: i32, unit: byte)
      modifies this`uart
      ensures uart == old(uart) + RawFrame(SensorPayloads.SensorPayload(sensorType, valueRaw, unit))
    {
      hide BitsByte, WordBits, Crc, ToBe, Octet;
      var frame := new byte[FRAME_SIZE];
      frame[0] := FRAME_START;
      frame[1] := sensorType;
      frame[2] := Octet(valueRaw, 3);
      frame[3] := Octet(valueRaw, 2);
      frame[4] := Octet(valueRaw, 1);
      frame[5] := Octet(valueRaw, 0);
      frame[6] := unit;
      ghost var p := SensorPayloads.SensorPayload(sensorType, valueRaw, unit);
      OctetsOfToBe(4, valueRaw);
      assert frame[..7] == CheckedPart(p);
      var crc := ComputeCrc16(frame, 7);
      frame[7] := HighOf(crc);
      frame[8] := LowOf(crc);
      frame[9] := FRAME_END;
      assert frame[..7] == CheckedPart(p);
      assert frame[..] == frame[..7] + [HighOf(crc), LowOf(crc)] + [FRAME_END];
      uart := uart + frame[..];
    }

    /** One measurement; nothing is sent, and nothing counted, when the echo was out of range. */
    method Report(distance: Option<i32>)
      modifies this
      ensures distance.None? ==> uart == old(uart) && frameCount == old(frameCount)
      ensures distance.Some? ==> frameCount == (old(frameCount) + 1) % 0x1_0000_0000
      ensures distance.Some? ==> uart == old(uart) + RawFrame(SensorPayloads.SensorPayload(0x04, distance.value, 0x04))
    {
      if distance.None? {
        return;
      }
      frameCount := (frameCount + 1) % 0x1_0000_0000;
      SendFrame(0x04, distance.value, 0x04);
    }
  }
}
