/** The eight plaintext bytes of a reading: sensor type, value, unit and CRC-16. */
module SensorPayloads {
  import opened Words
  import opened Crc16
  import opened Frames
  import CrcOrder

  datatype SensorPayload = SensorPayload(sensorType: byte, valueRaw: i32, unit: byte)
  {
    function Fields(): (s: seq<byte>)
      ensures |s| == 6
    {
      [sensorType] + ToBe(4, valueRaw) + [unit]
    }

    function Print(): (s: seq<byte>)
      ensures |s| == PAYLOAD_SIZE
    {
      Fields() + WordToBytes(Crc(Fields()))
    }
  }

  /** The gateway's CRC loop. */
  method ComputeCrc16(data: seq<byte>) returns (crc: bv16)
    ensures WordBits(crc) == Crc(data)
  {
    crc := 0xFFFF;
    ConstantWords();
    for i := 0 to |data|
      invariant Continue(WordBits(crc), data[i..]) == Crc(data)
    {
      assert data[i..][1..] == data[i + 1..];
      crc := AbsorbByte(crc, data[i]);
    }
  }

  function Parse(raw: seq<byte>): Result<SensorPayload, ProtocolError> {
    if |raw| < PAYLOAD_SIZE then Err(FrameTooShort(PAYLOAD_SIZE, |raw|))
    else if WordFromBytes(raw[6..8]) != Crc(raw[0..6]) then Err(AuthTagInvalid)
    else Ok(SensorPayload(raw[0], ReadI32(raw[1..5]), raw[5]))
  }

  /** Every reading survives its payload, negative values included. */
  lemma ParsePrint(p: SensorPayload, rest: seq<byte>)
    ensures Parse(p.Print() + rest) == Ok(p)
  {
    var raw := p.Print() + rest;
    assert raw[0..6] == p.Fields();
    assert raw[6..8] == WordToBytes(Crc(p.Fields()));
    assert raw[1..5] == ToBe(4, p.valueRaw);
    I32RoundTrip(p.valueRaw);
  }

  /** An accepted plaintext begins with the printed payload of the reading it yields. */
  lemma PrintParse(raw: seq<byte>)
    ensures Parse(raw).Ok? ==> 8 <= |raw| && Parse(raw).value.Print() == raw[..8]
  {
    if Parse(raw).Ok? {
      var p := Parse(raw).value;
      assert raw[0..6] == [raw[0]] + raw[1..5] + [raw[5]];
      WordBytesRoundTrip(raw[6..8]);
      assert raw[..8] == raw[0..6] + raw[6..8];
    }
  }

  /** Where each field lies in the eight bytes. */
  lemma PayloadBytes(p: SensorPayload)
    ensures var raw := p.Print();
            && |raw| == 8 && raw[0] == p.sensorType && raw[1..5] == ToBe(4, p.valueRaw) && raw[5] == p.unit
            && raw[6..8] == WordToBytes(Crc(raw[..6]))
  {
    hide Crc, WordToBytes, ToBe;
    assert p.Print()[..6] == p.Fields() && p.Print()[1..5] == p.Fields()[1..5];
    assert p.Fields()[1..5] == ToBe(4, p.valueRaw);
  }

  /** Why a plaintext is refused: shorter than eight bytes, or a CRC that does not fit. */
  lemma ParseErrors(raw: seq<byte>)
    ensures Parse(raw) == Err(FrameTooShort(8, |raw|)) <==> |raw| < 8
    ensures Parse(raw) == Err(AuthTagInvalid) <==> 8 <= |raw| && raw[6..8] != WordToBytes(Crc(raw[..6]))
  {
    hide Crc, WordToBytes, WordFromBytes;
    if 8 <= |raw| {
      assert raw[0..6] == raw[..6];
      WordBytesRoundTrip(raw[6..8]);
    }
  }

  lemma CorruptFieldsRefused(fields: seq<byte>, received: seq<byte>)
    requires |fields| == 6 && |received| == 8
    requires var error := Xor(Bits(fields + WordToBytes(Crc(fields))), Bits(received));
             CrcOrder.Caught(error)
    ensures Parse(received) == Err(AuthTagInvalid)
  {
    hide Crc, Bits, WordToBytes, CrcOrder.Caught;
    CrcOrder.CaughtDetected(fields, received);
    assert received[..6] == received[0..6] && received[6..] == received[6..8];
  }

  /** A payload hit by a burst of at most sixteen bits, by an odd number of bit errors, or by two of them,
      is refused. */
  lemma CorruptPayloadRefused(p: SensorPayload, received: seq<byte>)
    requires |received| == 8
    requires var error := Xor(Bits(p.Print()), Bits(received));
             CrcOrder.Caught(error)
    ensures Parse(received) == Err(AuthTagInvalid)
  {
    hide Crc, Bits, WordToBytes, CrcOrder.Caught, Parse;
    CorruptFieldsRefused(p.Fields(), received);
  }
}
