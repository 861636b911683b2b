/** The ESP32 sender: UART intake, payload and header printers, the persisted counter, and its crashes. */
module Esp32 {
  import opened Words
  import opened Crc16
  import opened Frames
  import opened SenderMachine
  import CrcOrder
  import SensorNode
  import SensorPayloads

  type SensorPayload = SensorPayloads.SensorPayload

  const RAW_FRAME_SIZE := 10

  // ---------- UART intake ----------

  function ValidRawFrame(frame: seq<byte>): bool
    requires |frame| == RAW_FRAME_SIZE
  {
    frame[0] == 0xAA && frame[9] == 0x55 && WordFromBytes(frame[7..9]) == Crc(frame[..7])
  }

  function RawReading(frame: seq<byte>): SensorPayload
    requires |frame| == RAW_FRAME_SIZE
  {
    SensorPayloads.SensorPayload(frame[1], ReadI32(frame[2..6]), frame[6])
  }

  /** The readings the sketch takes from received UART bytes, ten at a time, discarding invalid frames. */
  function Intake(uart: seq<byte>): seq<SensorPayload> {
    if |uart| < RAW_FRAME_SIZE then [] else
      (if ValidRawFrame(uart[..RAW_FRAME_SIZE]) then [RawReading(uart[..RAW_FRAME_SIZE])] else [])
      + Intake(uart[RAW_FRAME_SIZE..])
  }

  function UartBytes(readings: seq<SensorPayload>): (s: seq<byte>)
    ensures |s| == RAW_FRAME_SIZE * |readings|
  {
    if readings == [] then [] else SensorNode.RawFrame(readings[0]) + UartBytes(readings[1..])
  }

  /** The frames that pass validation are exactly those the Arduino prints. */
  lemma ValidFramesArePrinted(frame: seq<byte>)
    requires |frame| == RAW_FRAME_SIZE
    ensures ValidRawFrame(frame) <==> frame == SensorNode.RawFrame(RawReading(frame))
  {
    var body := SensorNode.CheckedPart(RawReading(frame));
    assert body[1..] == frame[1..7];
    WordBytesRoundTrip(frame[7..9]);
    assert frame == frame[..7] + frame[7..9] + [frame[9]];
    if frame[0] == 0xAA {
      assert frame[..7] == body;
    }
  }

  lemma RawFrameReading(p: SensorPayload)
    ensures RawReading(SensorNode.RawFrame(p)) == p && ValidRawFrame(SensorNode.RawFrame(p))
  {
    var frame := SensorNode.RawFrame(p);
    assert frame[2..6] == ToBe(4, p.valueRaw);
    I32RoundTrip(p.valueRaw);
    assert RawReading(frame) == p;
    ValidFramesArePrinted(frame);
  }

  /** Over a lossless UART every reading arrives, in order and unchanged. */
  lemma {:induction false} IntakeUndoesPrinting(readings: seq<SensorPayload>)
    ensures Intake(UartBytes(readings)) == readings
  {
    hide ValidRawFrame, RawReading, SensorNode.RawFrame;
    if readings != [] {
      var first := SensorNode.RawFrame(readings[0]);
      var uart := UartBytes(readings);
      assert uart[..RAW_FRAME_SIZE] == first && uart[RAW_FRAME_SIZE..] == UartBytes(readings[1..]);
      RawFrameReading(readings[0]);
      IntakeUndoesPrinting(readings[1..]);
    }
  }

  lemma BadChecksumDiscarded(frame: seq<byte>, checked: seq<byte>)
    requires |frame| == RAW_FRAME_SIZE && |checked| == 9 && checked == frame[..9]
    requires WordFromBytes(checked[7..]) != Crc(checked[..7])
    ensures !ValidRawFrame(frame)
  {
    assert checked[..7] == frame[..7] && checked[7..] == frame[7..9];
  }

  lemma CorruptCheckedPart(body: seq<byte>, received: seq<byte>, part: seq<byte>)
    requires |body| == 7 && |received| == RAW_FRAME_SIZE && |part| == 9 && part == received[..9]
    requires CrcOrder.Caught(Xor(Bits(body + WordToBytes(Crc(body))), Bits(part)))
    ensures !ValidRawFrame(received)
  {
    hide Crc, Bits, WordToBytes, WordFromBytes, ValidRawFrame, Xor, CrcOrder.Caught;
    CrcOrder.CaughtDetected(body, part);
    BadChecksumDiscarded(received, part);
  }

  /** A UART frame hit anywhere by a burst of at most sixteen bits, by an odd number of bit errors, or by two
      of them, is discarded. */
  lemma CorruptRawFrameDiscarded(p: SensorPayload, received: seq<byte>)
    requires |received| == RAW_FRAME_SIZE
    requires CrcOrder.Caught(Xor(Bits(SensorNode.RawFrame(p)), Bits(received)))
    ensures !ValidRawFrame(received)
  {
    hide Crc, Bits, WordToBytes, CrcOrder.Caught;
    if received[9] == SensorNode.FRAME_END {
      var body := SensorNode.CheckedPart(p);
      var sent, part := body + WordToBytes(Crc(body)), received[..9];
      assert received == part + [SensorNode.FRAME_END];
      CrcOrder.SameLastByte(sent, part, SensorNode.FRAME_END);
      CrcOrder.CaughtCut(Xor(Bits(sent), Bits(part)), 8);
      CorruptCheckedPart(body, received, part);
    }
  }

  // ---------- the sketch ----------

  /** What the sketch obtains from outside for one transmission: a random nonce, the clock, and the result
      of the encryption, if it succeeds. */
  datatype Occasion = Occasion(nonce: Nonce, timestamp: u64, encryption: Option<(Cipher, Tag)>)

  /** The operations of one transmission, in their order: the counter is saved before anything is sent. */
  function Transmission(o: Occasion): seq<SenderStep> {
    [Count, Store] + if o.encryption.None? then [Abandon] else [Transmit]
  }

  /** What is handed to the cipher. */
  datatype CipherInput = CipherInput(aad: seq<byte>, plaintext: seq<byte>)

  function FrameFor(deviceId: u32, sequenceNr: u32, o: Occasion): Frame
    requires o.encryption.Some?
  {
    Frame(PROTOCOL_VERSION, deviceId, sequenceNr, o.timestamp, o.nonce, o.encryption.value.0, o.encryption.value.1)
  }

  /** The sequence number in a frame's header. */
  function NumberIn(frame: seq<byte>): u32 {
    if |frame| < HEADER_SIZE then 0 else ReadU32(frame[7..11])
  }

  function NumbersIn(frames: seq<seq<byte>>): (s: seq<u32>)
    ensures |s| == |frames| && forall i :: 0 <= i < |s| ==> s[i] == NumberIn(frames[i])
  {
    seq(|frames|, i requires 0 <= i < |frames| => NumberIn(frames[i]))
  }

  lemma NumberInHeader(deviceId: u32, sequenceNr: u32, timestamp: u64, payloadLen: nat, nonce: Nonce, rest: seq<byte>)
    ensures NumberIn(Header(0x01, deviceId, sequenceNr, timestamp, payloadLen, nonce) + rest) == sequenceNr
  {
    hide Header, FromBe, ToBe;
    var header := Header(0x01, deviceId, sequenceNr, timestamp, payloadLen, nonce);
    HeaderFields(0x01, deviceId, sequenceNr, timestamp, payloadLen, nonce);
    assert (header + rest)[7..11] == header[7..11];
    U32RoundTrip(sequenceNr);
  }

  method ComputeCrc16(data: array<byte>, length: nat) returns (crc: bv16)
    requires length <= data.Length && length < 0x1_0000
    ensures WordBits(crc) == Crc(data[..length])
  {
    ghost var message := data[..length];
    crc := 0xFFFF;
    ConstantWords();
    var i := 0;
    while i < length
      invariant i <= length
      invariant Continue(WordBits(crc), message[i..]) == Crc(message)
    {
      assert message[i..][1..] == message[i + 1..];
      crc := AbsorbByte(crc, data[i]);
      i := i + 1;
    }
  }

  /** The four assignments that print one u32. */
  method PutU32(out: array<byte>, at: nat, x: u32)
    requires at + 4 <= out.Length
    modifies out
    ensures out[..at + 4] == old(out[..at]) + ToBe(4, x) && out[at + 4..] == old(out[at + 4..])
  {
    hide ToBe, Octet;
    OctetsOfToBe(4, x);
    out[at] := Octet(x, 3);
    out[at + 1] := Octet(x, 2);
    out[at + 2] := Octet(x, 1);
    out[at + 3] := Octet(x, 0);
  }

  /** The eight assignments that print one u64. */
  method PutU64(out: array<byte>, at: nat, x: u64)
    requires at + 8 <= out.Length
    modifies out
    ensures out[..at + 8] == old(out[..at]) + ToBe(8, x) && out[at + 8..] == old(out[at + 8..])
  {
    hide ToBe, Octet;
    OctetsOfToBe(8, x);
    out[at] := Octet(x, 7);
    out[at + 1] := Octet(x, 6);
    out[at + 2] := Octet(x, 5);
    out[at + 3] := Octet(x, 4);
    out[at + 4] := Octet(x, 3);
    out[at + 5] := Octet(x, 2);
    out[at + 6] := Octet(x, 1);
    out[at + 7] := Octet(x, 0);
  }

  method ValidateRawFrame(frame: seq<byte>) returns (valid: bool)
    requires |frame| == RAW_FRAME_SIZE
    ensures valid == ValidRawFrame(frame)
  {
    if frame[0] != 0xAA || frame[9] != 0x55 {
      return false;
    }
    var receivedCrc := WordFromBytes(frame[7..9]);
    var buffer := new byte[RAW_FRAME_SIZE](i requires 0 <= i < RAW_FRAME_SIZE => frame[i]);
    assert buffer[..7] == frame[..7];
    var computedCrc := ComputeCrc16(buffer, 7);
    return receivedCrc == WordBits(computedCrc);
  }

  class Sender {
    const deviceId: u32
    var sequenceNr: u32
    /** The counter in flash; absent until it is first saved. */
    var saved: Option<u32>
    /** Received UART bytes not yet read. */
    var uart: seq<byte>
    /** The frames written to the connection. */
    var wire: seq<seq<byte>>
    /** The counter in flash when this history began, and what was done to counter, flash and wire since. */
    ghost const initially: Option<u32>
    ghost var trace: seq<SenderStep>

    /** Flash and wire are what the operations done so far leave, whatever memory holds. */
    ghost predicate Consistent()
      reads this
    {
      var s := Exec(initially, trace);
      s.Some? && s.value.saved == saved && s.value.wire == NumbersIn(wire)
    }

    /** Memory too: the transmission at hand has come as far as `phase`. */
    ghost predicate In(phase: Phase)
      reads this
    {
      Exec(initially, trace) == Some(SenderState(sequenceNr, saved, phase, NumbersIn(wire)))
    }

    /** No transmission is at hand. */
    ghost predicate Valid()
      reads this
    {
      In(Idle)
    }

    constructor (deviceId: u32, saved: Option<u32>)
      ensures Valid() && this.deviceId == deviceId && this.saved == saved && uart == [] && wire == []
      ensures sequenceNr == if saved.Some? then saved.value else 0
      ensures initially == saved && trace == []
    {
      this.deviceId := deviceId;
      this.saved := saved;
      uart := [];
      wire := [];
      sequenceNr := if saved.Some? then saved.value else 0;
      initially := saved;
      trace := [];
    }

    method SaveSequenceNr(seqNr: u32)
      requires In(Counted) && seqNr == sequenceNr
      modifies this`saved, this`trace
      ensures In(Stored) && saved == Some(seqNr) && trace == old(trace) + [Store]
    {
      saved := Some(seqNr);
      ExecAppend(initially, trace, Store);
      trace := trace + [Store];
    }

    method LoadSequenceNr() returns (seqNr: u32)
      ensures seqNr == if saved.Some? then saved.value else 0
    {
      seqNr := if saved.Some? then saved.value else 0;
    }

    /** A crash or power cycle at any moment, and what `setup` then does with the counter. */
    method Reboot()
      requires Consistent()
      modifies this`sequenceNr, this`uart, this`trace
      ensures Valid() && trace == old(trace) + [Crash]
      ensures sequenceNr == (if saved.Some? then saved.value else 0) && uart == []
    {
      hide Exec, NumbersIn;
      uart := [];
      sequenceNr := LoadSequenceNr();
      ExecAppend(initially, trace, Crash);
      trace := trace + [Crash];
    }

    method BuildPayload(out: array<byte>, sensorType: byte, valueRaw: i32, unit: byte)
      requires out.Length == PAYLOAD_SIZE
      modifies out
      ensures out[..] == SensorPayloads.SensorPayload(sensorType, valueRaw, unit).Print()
    {
      hide BitsByte, WordBits, Crc, ToBe, Octet;
      ghost var p := SensorPayloads.SensorPayload(sensorType, valueRaw, unit);
      out[0] := sensorType;
      out[1] := Octet(valueRaw, 3);
      out[2] := Octet(valueRaw, 2);
      out[3] := Octet(valueRaw, 1);
      out[4] := Octet(valueRaw, 0);
      out[5] := unit;
      OctetsOfToBe(4, valueRaw);
      assert out[..6] == p.Fields();
      var crc := ComputeCrc16(out, 6);
      out[6] := HighOf(crc);
      out[7] := LowOf(crc);
      assert out[..6] == p.Fields();
      assert out[..] == out[..6] + [HighOf(crc), LowOf(crc)];
    }

    method BuildHeader(out: array<byte>, timestamp: u64, nonce: Nonce, payloadLen: u32)
      requires out.Length == HEADER_SIZE
      modifies out
      ensures out[..] == Header(0x01, deviceId, sequenceNr, timestamp, payloadLen, nonce)
    {
      hide ToBe;
      out[0] := 0x53;
      out[1] := 0x50;
      out[2] := PROTOCOL_VERSION;
      assert out[..3] == Magic() + [PROTOCOL_VERSION];
      PutU32(out, 3, deviceId);
      PutU32(out, 7, sequenceNr);
      PutU64(out, 11, timestamp);
      PutU32(out, 19, payloadLen);
      ghost var fields := out[..23];
      forall i | 0 <= i < NONCE_SIZE {
        out[23 + i] := nonce[i];
      }
      assert out[..23] == fields && out[23..] == nonce;
      assert out[..] == out[..23] + out[23..];
    }

    /** Sends a frame that carries the number last saved. */
    method SendSecurePipeFrame(header: seq<byte>, encPayload: Cipher, authTag: Tag)
      requires In(Stored) && NumberIn(header + (encPayload + authTag)) == sequenceNr
      modifies this`wire, this`trace
      ensures Valid() && wire == old(wire) + [header + encPayload + authTag] && trace == old(trace) + [Transmit]
    {
      hide NumberIn, Exec;
      var frame := header + encPayload + authTag;
      assert frame == header + (encPayload + authTag);
      ExecAppend(initially, trace, Transmit);
      assert NumbersIn(wire + [frame]) == NumbersIn(wire) + [sequenceNr];
      wire := wire + [frame];
      trace := trace + [Transmit];
    }

    /** Counts, saves, builds, encrypts and sends one reading, uninterrupted, in this order. `header` and
        `payload` are what was handed to the cipher. */
    method ProcessAndSendDirect(sensorType: byte, valueRaw: i32, unit: byte,
          o: Occasion) returns (header: seq<byte>, payload: seq<byte>)
      requires Valid()
      modifies this`sequenceNr, this`saved, this`wire, this`trace
      ensures Valid() && trace == old(trace) + Transmission(o)
      ensures sequenceNr == Incremented(old(sequenceNr)) && saved == Some(sequenceNr)
      ensures header == Header(0x01, deviceId, sequenceNr, o.timestamp, 8, o.nonce)
      ensures payload == SensorPayloads.SensorPayload(sensorType, valueRaw, unit).Print()
      ensures wire == if o.encryption.None? then old(wire) else old(wire) + [FrameFor(deviceId, sequenceNr, o).Print()]
    {
      hide SensorPayloads.SensorPayload.Print, Header, NumbersIn, Exec;
      sequenceNr := (sequenceNr + 1) % 0x1_0000_0000;
      ExecAppend(initially, trace, Count);
      trace := trace + [Count];
      SaveSequenceNr(sequenceNr);
      var payloadBuf := new byte[PAYLOAD_SIZE];
      BuildPayload(payloadBuf, sensorType, valueRaw, unit);
      var headerBuf := new byte[HEADER_SIZE];
      BuildHeader(headerBuf, o.timestamp, o.nonce, PAYLOAD_SIZE);
      header, payload := headerBuf[..], payloadBuf[..];
      if o.encryption.None? {
        ExecAppend(initially, trace, Abandon);
        trace := trace + [Abandon];
        return;
      }
      NumberInHeader(deviceId, sequenceNr, o.timestamp, PAYLOAD_SIZE, o.nonce,
                     o.encryption.value.0 + o.encryption.value.1);
      SendSecurePipeFrame(header, o.encryption.value.0, o.encryption.value.1);
    }

    /** Decodes a validated UART frame and sends it. */
    method ProcessAndSend(rawFrame: seq<byte>, o: Occasion) returns (header: seq<byte>, payload: seq<byte>)
      requires Valid() && |rawFrame| == RAW_FRAME_SIZE
      modifies this`sequenceNr, this`saved, this`wire, this`trace
      ensures Valid() && trace == old(trace) + Transmission(o)
      ensures sequenceNr == Incremented(old(sequenceNr)) && saved == Some(sequenceNr)
      ensures header == Header(0x01, deviceId, sequenceNr, o.timestamp, 8, o.nonce)
      ensures payload == RawReading(rawFrame).Print()
      ensures wire == if o.encryption.None? then old(wire) else old(wire) + [FrameFor(deviceId, sequenceNr, o).Print()]
    {
      header, payload := ProcessAndSendDirect(rawFrame[1], ReadI32(rawFrame[2..6]), rawFrame[6], o);
    }

    /** One pass of the main loop in UART mode, once connected, and what it handed to the cipher. */
    method Loop(o: Occasion) returns (handed: Option<CipherInput>)
      requires Valid()
      modifies this`sequenceNr, this`saved, this`wire, this`uart, this`trace
      ensures Valid()
      ensures |old(uart)| < RAW_FRAME_SIZE ==> handed == None && uart == old(uart)
      ensures |old(uart)| < RAW_FRAME_SIZE ==>
                sequenceNr == old(sequenceNr) && wire == old(wire) && saved == old(saved) && trace == old(trace)
      ensures |old(uart)| >= RAW_FRAME_SIZE ==> uart == old(uart)[RAW_FRAME_SIZE..]
      ensures |old(uart)| >= RAW_FRAME_SIZE && !ValidRawFrame(old(uart)[..RAW_FRAME_SIZE]) ==>
                && handed == None && sequenceNr == old(sequenceNr) && wire == old(wire)
                && saved == old(saved) && trace == old(trace)
      ensures |old(uart)| >= RAW_FRAME_SIZE && ValidRawFrame(old(uart)[..RAW_FRAME_SIZE]) ==>
                && sequenceNr == Incremented(old(sequenceNr)) && saved == Some(sequenceNr)
                && trace == old(trace) + Transmission(o)
                && handed == Some(CipherInput(Header(0x01, deviceId, sequenceNr, o.timestamp, 8, o.nonce),
                                              RawReading(old(uart)[..RAW_FRAME_SIZE]).Print()))
      ensures |old(uart)| >= RAW_FRAME_SIZE && ValidRawFrame(old(uart)[..RAW_FRAME_SIZE]) ==>
                wire == old(wire) + if o.encryption.None? then [] else [FrameFor(deviceId, sequenceNr, o).Print()]
    {
      handed := None;
      if |uart| >= RAW_FRAME_SIZE {
        var rawFrame := uart[..RAW_FRAME_SIZE];
        uart := uart[RAW_FRAME_SIZE..];
        var valid := ValidateRawFrame(rawFrame);
        if valid {
          var header, payload := ProcessAndSend(rawFrame, o);
          handed := Some(CipherInput(header, payload));
        }
      }
    }
  }
}
