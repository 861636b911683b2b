/** The simulator: its frame builder, its deterministic nonces, and its run with the optional replay. */
module Simulator {
  import opened Words
  import opened Crc16
  import opened Frames
  import opened Framing
  import opened Replay
  import opened ReplayRuns
  import opened SenderRuns
  import Esp32
  import Gateway
  import SensorPayloads

  const DEVICE_ID: u32 := 1
  const SENSOR_TEMPERATURE: byte := 0x01
  const UNIT_CELSIUS: byte := 0x01

  /** `x as i32`. */
  function AsI32(x: u32): i32 {
    if x < 0x8000_0000 then x else x - 0x1_0000_0000
  }

  /** The remainder that takes the sign of its left operand. */
  function SignedRemainder(a: int, b: int): int
    requires b > 0
  {
    if a >= 0 then a % b else -(-a % b)
  }

  function Temperature(sequenceNr: u32): i32 {
    2000 + SignedRemainder(AsI32(sequenceNr), 10) * 37
  }

  /** Number, low half of the time, device. */
  function NonceFor(deviceId: u32, sequenceNr: u32, timestamp: u64): Nonce {
    ToBe(4, sequenceNr) + ToBe(8, timestamp)[4..] + ToBe(4, deviceId)
  }

  function FrameFor(deviceId: u32, sequenceNr: u32, timestamp: u64, encryption: (Cipher, Tag)): Frame {
    Frame(PROTOCOL_VERSION, deviceId, sequenceNr, timestamp, NonceFor(deviceId, sequenceNr, timestamp),
          encryption.0, encryption.1)
  }

  method BuildPayload(tempRaw: i32) returns (payload: seq<byte>)
    ensures payload == SensorPayloads.SensorPayload(0x01, tempRaw, 0x01).Print()
  {
    payload := [SENSOR_TEMPERATURE] + ToBe(4, tempRaw) + [UNIT_CELSIUS];
    assert payload == SensorPayloads.SensorPayload(SENSOR_TEMPERATURE, tempRaw, UNIT_CELSIUS).Fields();
    var crc := SensorPayloads.ComputeCrc16(payload);
    payload := payload + [HighOf(crc), LowOf(crc)];
  }

  method BuildHeader(deviceId: u32, sequenceNr: u32, timestamp: u64, payloadLen: u32,
        nonce: Nonce) returns (header: seq<byte>)
    ensures header == Header(0x01, deviceId, sequenceNr, timestamp, payloadLen, nonce)
  {
    header := [];
    header := header + Magic();
    header := header + [PROTOCOL_VERSION];
    header := header + ToBe(4, deviceId);
    header := header + ToBe(4, sequenceNr);
    header := header + ToBe(8, timestamp);
    header := header + ToBe(4, payloadLen);
    header := header + nonce;
  }

  lemma EightAsBytes()
    ensures ToBe(4, 8) == [0, 0, 0, 8]
  {
    OctetsOfToBe(4, 8);
  }

  /** The bytes of a frame; the nonce repeats the number, the low half of the time and the device. */
  lemma FrameBytes(deviceId: u32, sequenceNr: u32, timestamp: u64, encryption: (Cipher, Tag))
    ensures var frame := FrameFor(deviceId, sequenceNr, timestamp, encryption).Print();
            && |frame| == 59 && frame[..3] == [0x53, 0x50, 0x01] && frame[3..7] == ToBe(4, deviceId)
            && frame[7..11] == ToBe(4, sequenceNr) && frame[11..19] == ToBe(8, timestamp)
            && frame[19..23] == [0, 0, 0, 8]
            && frame[23..27] == frame[7..11] && frame[27..31] == frame[15..19] && frame[31..35] == frame[3..7]
            && frame[35..] == encryption.0 + encryption.1
  {
    hide ToBe, Header;
    var f := FrameFor(deviceId, sequenceNr, timestamp, encryption);
    var frame, h := f.Print(), f.Aad();
    HeaderFields(f.version, deviceId, sequenceNr, timestamp, 8, f.nonce);
    EightAsBytes();
    assert frame == h + (encryption.0 + encryption.1);
    assert frame[..3] == h[0..2] + [h[2]];
    assert frame[3..7] == h[3..7] && frame[7..11] == h[7..11] && frame[11..19] == h[11..19];
    assert frame[19..23] == h[19..23] && frame[15..19] == h[11..19][4..];
    assert frame[23..27] == f.nonce[..4] && frame[27..31] == f.nonce[4..8] && frame[31..35] == f.nonce[8..];
  }

  /** Builds one frame. `header` and `payload` are what is handed to the cipher, whose result is given. */
  method BuildFrame(deviceId: u32, sequenceNr: u32, tempRaw: i32, timestamp: u64, encryption: (Cipher, Tag))
    returns (frame: seq<byte>, header: seq<byte>, payload: seq<byte>)
    ensures |frame| == 59 && frame[..3] == [0x53, 0x50, 0x01] && frame[3..7] == ToBe(4, deviceId)
    ensures frame[7..11] == ToBe(4, sequenceNr) && frame[11..19] == ToBe(8, timestamp) && frame[19..23] == [0, 0, 0, 8]
    ensures frame[23..27] == frame[7..11] && frame[27..31] == frame[15..19] && frame[31..35] == frame[3..7]
    ensures frame[35..] == encryption.0 + encryption.1
    ensures frame == FrameFor(deviceId, sequenceNr, timestamp, encryption).Print()
    ensures header == FrameFor(deviceId, sequenceNr, timestamp, encryption).Aad()
    ensures payload == SensorPayloads.SensorPayload(0x01, tempRaw, 0x01).Print()
  {
    var nonce := NonceFor(deviceId, sequenceNr, timestamp);
    payload := BuildPayload(tempRaw);
    header := BuildHeader(deviceId, sequenceNr, timestamp, |payload|, nonce);
    frame := header;
    frame := frame + encryption.0 + encryption.1;
    FrameBytes(deviceId, sequenceNr, timestamp, encryption);
  }

  /** The `nr`th frame of a run; the clock and the cipher are consulted once per frame. */
  function RunFrame(nr: u32, clock: u32 -> u64, cipher: u32 -> (Cipher, Tag)): Frame {
    FrameFor(DEVICE_ID, nr, clock(nr), cipher(nr))
  }

  /** A run's frames are those of device 1, numbered by their turn, with the clock's reading of that turn. */
  lemma RunFrameFields(nr: u32, clock: u32 -> u64, cipher: u32 -> (Cipher, Tag))
    ensures var f := RunFrame(nr, clock, cipher);
            f.version == 1 && f.deviceId == 1 && f.sequenceNr == nr && f.timestamp == clock(nr)
            && f.encryptedPayload + f.authTag == cipher(nr).0 + cipher(nr).1
  {
  }

  /** What is written during the first `count` turns; in replay mode frame 1 goes out again after frame 5. */
  function Written(count: u32, replayMode: bool, clock: u32 -> u64, cipher: u32 -> (Cipher, Tag)): seq<Frame> {
    if count == 0 then [] else
      Written(count - 1, replayMode, clock, cipher) + [RunFrame(count, clock, cipher)]
      + if replayMode && count == 5 then [RunFrame(1, clock, cipher)] else []
  }

  /** The bytes of the first `count` turns, one string per write. */
  ghost function Output(count: u32, replayMode: bool, clock: u32 -> u64, cipher: u32 -> (Cipher, Tag)): seq<seq<byte>> {
    Prints(Written(count, replayMode, clock, cipher))
  }

  lemma NothingWritten(replayMode: bool, clock: u32 -> u64, cipher: u32 -> (Cipher, Tag))
    ensures Output(0, replayMode, clock, cipher) == []
  {
  }

  /** What one turn of the loop adds. */
  lemma TurnWrites(nr: u32, replayMode: bool, clock: u32 -> u64, cipher: u32 -> (Cipher, Tag))
    requires nr > 0
    ensures var before := Output(nr - 1, replayMode, clock, cipher) + [RunFrame(nr, clock, cipher).Print()];
            Output(nr, replayMode, clock, cipher)
            == if replayMode && nr == 5 then before + [RunFrame(1, clock, cipher).Print()] else before
  {
    hide Frame.Print, RunFrame;
    var before, own := Written(nr - 1, replayMode, clock, cipher), RunFrame(nr, clock, cipher);
    PrintsAppend(before, own);
    if replayMode && nr == 5 {
      PrintsAppend(before + [own], RunFrame(1, clock, cipher));
    } else {
      assert before + [own] + [] == before + [own];
    }
  }

  /** The reading of the `nr`th turn. */
  function ReadingAt(nr: u32): SensorPayloads.SensorPayload {
    SensorPayloads.SensorPayload(SENSOR_TEMPERATURE, Temperature(nr), UNIT_CELSIUS)
  }

  /** What the first `count` turns hand to the cipher: each turn's reading under its own frame's header. */
  ghost predicate HandedOver(handed: seq<Esp32.CipherInput>, count: u32, clock: u32 -> u64, cipher: u32 -> (Cipher,
        Tag)) {
    && |handed| == count
    && forall nr: u32 :: 1 <= nr <= count ==>
         handed[nr - 1] == Esp32.CipherInput(RunFrame(nr, clock, cipher).Aad(), ReadingAt(nr).Print())
  }

  lemma OneMoreHanded(handed: seq<Esp32.CipherInput>, nr: u32, clock: u32 -> u64, cipher: u32 -> (Cipher, Tag),
        aad: seq<byte>, plaintext: seq<byte>)
    requires nr > 0 && HandedOver(handed, nr - 1, clock, cipher)
    requires aad == RunFrame(nr, clock, cipher).Aad() && plaintext == ReadingAt(nr).Print()
    ensures HandedOver(handed + [Esp32.CipherInput(aad, plaintext)], nr, clock, cipher)
  {
    hide RunFrame, ReadingAt, Frame.Aad, SensorPayloads.SensorPayload.Print;
  }

  /** The first `count` turns of the main loop: what is written, and what was handed to the cipher. */
  method Run(count: u32, replayMode: bool, clock: u32 -> u64, cipher: u32 -> (Cipher, Tag))
    returns (written: seq<seq<byte>>, handed: seq<Esp32.CipherInput>)
    ensures written == Output(count, replayMode, clock, cipher)
    ensures HandedOver(handed, count, clock, cipher)
  {
    hide Output, FrameFor, Frame.Print, Frame.Aad, SensorPayloads.SensorPayload.Print, Temperature;
    NothingWritten(replayMode, clock, cipher);
    written, handed := [], [];
    var sequenceNr: u32 := 0;
    var firstFrame: Option<seq<byte>> := None;
    while sequenceNr < count
      invariant sequenceNr <= count
      invariant sequenceNr >= 1 ==> firstFrame == Some(RunFrame(1, clock, cipher).Print())
      invariant written == Output(sequenceNr, replayMode, clock, cipher)
      invariant HandedOver(handed, sequenceNr, clock, cipher)
    {
      sequenceNr := sequenceNr + 1;
      TurnWrites(sequenceNr, replayMode, clock, cipher);
      var tempRaw := Temperature(sequenceNr);
      var frameBytes, header, payload :=
        BuildFrame(DEVICE_ID, sequenceNr, tempRaw, clock(sequenceNr), cipher(sequenceNr));
      OneMoreHanded(handed, sequenceNr, clock, cipher, header, payload);
      handed := handed + [Esp32.CipherInput(header, payload)];
      if sequenceNr == 1 {
        firstFrame := Some(frameBytes);
      }
      written := written + [frameBytes];
      if replayMode && sequenceNr == 5 {
        written := written + [firstFrame.value];
      }
    }
  }

  /** The temperature of every frame: 20.00 degrees at each multiple of ten and 0.37 more with every frame up
      to the ninth after it, until the number no longer fits an i32; from then on the remainder is negative. */
  lemma TemperatureValue(nr: u32)
    ensures nr < 0x8000_0000 ==> Temperature(nr) == 2000 + 37 * (nr % 10)
    ensures nr >= 0x8000_0000 ==> Temperature(nr) == 2000 - 37 * ((0x1_0000_0000 - nr) % 10)
  {
  }

  /** Ten temperatures from 20.00 to 23.33 degrees, over and over, and none below until then. */
  lemma TemperatureCycle(nr: u32)
    ensures Temperature(1) == 2037 && Temperature(9) == 2333 && Temperature(10) == 2000
    ensures nr < 0x8000_0000 - 10 ==> Temperature(nr + 10) == Temperature(nr)
    ensures nr < 0x8000_0000 ==> 2000 <= Temperature(nr) <= 2333
    ensures nr >= 0x8000_0000 ==> 1667 <= Temperature(nr) <= 2000
  {
    hide Temperature;
    TemperatureValue(1);
    TemperatureValue(9);
    TemperatureValue(10);
    TemperatureValue(nr);
    if nr < 0x8000_0000 - 10 {
      TemperatureValue(nr + 10);
    }
  }

  // ---------- the run at the gateway ----------

  /** Within a run nonces are distinct because they spell the frame's number. */
  lemma NonceSpellsNumber(d: u32, m: u32, t: u64, e: u32, n: u32, u: u64)
    requires NonceFor(d, m, t) == NonceFor(e, n, u)
    ensures m == n && d == e
  {
    assert NonceFor(d, m, t)[..4] == ToBe(4, m) && NonceFor(e, n, u)[..4] == ToBe(4, n);
    assert NonceFor(d, m, t)[8..] == ToBe(4, d) && NonceFor(e, n, u)[8..] == ToBe(4, e);
    U32RoundTrip(m);
    U32RoundTrip(n);
    U32RoundTrip(d);
    U32RoundTrip(e);
  }

  /** When nonces repeat: for one number and one device, exactly at times that agree modulo 2^32. */
  lemma NonceRepeats(d: u32, m: u32, t: u64, e: u32, n: u32, u: u64)
    ensures NonceFor(d, m, t) == NonceFor(e, n, u)
       <==> m == n && d == e && t % 0x1_0000_0000 == u % 0x1_0000_0000
  {
    var a, b := NonceFor(d, m, t), NonceFor(e, n, u);
    ToBeSuffix(8, 4, t);
    ToBeSuffix(8, 4, u);
    FourBytes(t, u);
    assert a[4..8] == ToBe(4, t) && b[4..8] == ToBe(4, u);
    if a == b {
      NonceSpellsNumber(d, m, t, e, n, u);
    }
  }

  /** Some frame of one run has the nonce of some frame of the other. */
  ghost predicate ShareNonce(count: u32, clock: u32 -> u64, cipher: u32 -> (Cipher, Tag),
        count': u32, clock': u32 -> u64, cipher': u32 -> (Cipher, Tag)) {
    exists m: u32, n: u32 {:trigger RunFrame(m, clock, cipher), RunFrame(n, clock', cipher')} ::
      1 <= m <= count && 1 <= n <= count' && RunFrame(m, clock, cipher).nonce == RunFrame(n, clock', cipher').nonce
  }

  /** Two runs share a nonce exactly when they built some frame number at times that agree modulo 2^32. */
  lemma RunsShareNonce(count: u32, clock: u32 -> u64, cipher: u32 -> (Cipher, Tag),
        count': u32, clock': u32 -> u64, cipher': u32 -> (Cipher, Tag))
    ensures ShareNonce(count, clock, cipher, count', clock', cipher')
       <==> exists m: u32 ::
              1 <= m <= count && m <= count' && clock(m) % 0x1_0000_0000 == clock'(m) % 0x1_0000_0000
  {
    hide NonceFor;
    if ShareNonce(count, clock, cipher, count', clock', cipher') {
      var m: u32, n: u32 :| 1 <= m <= count && 1 <= n <= count'
                            && RunFrame(m, clock, cipher).nonce == RunFrame(n, clock', cipher').nonce;
      NonceRepeats(DEVICE_ID, m, clock(m), DEVICE_ID, n, clock'(n));
      assert m <= count';
    }
    if m: u32 :| 1 <= m <= count && m <= count' && clock(m) % 0x1_0000_0000 == clock'(m) % 0x1_0000_0000 {
      NonceRepeats(DEVICE_ID, m, clock(m), DEVICE_ID, m, clock'(m));
      assert RunFrame(m, clock, cipher).nonce == RunFrame(m, clock', cipher').nonce;
    }
  }

  /** The number of the `k`th frame written. */
  function NumberAt(k: nat, replayMode: bool): nat {
    if !replayMode || k < 5 then k + 1 else if k == 5 then 1 else k
  }

  lemma {:induction false} WrittenNumbers(count: u32, replayMode: bool, clock: u32 -> u64, cipher: u32 -> (Cipher, Tag))
    ensures var w := Written(count, replayMode, clock, cipher);
            && |w| == count + (if replayMode && count >= 5 then 1 else 0)
            && forall k :: 0 <= k < |w| ==>
                 1 <= NumberAt(k, replayMode) <= count && w[k] == RunFrame(NumberAt(k, replayMode), clock, cipher)
    decreases count
  {
    hide RunFrame;
    if count > 0 {
      WrittenNumbers(count - 1, replayMode, clock, cipher);
    }
  }

  /** The gateway's view of a run: each written frame, in order, with some clock reading. */
  ghost predicate Arrives(events: seq<Event>, frames: seq<Frame>) {
    && |events| == |frames|
    && forall k :: 0 <= k < |events| ==> events[k].Check? && events[k].delivery == Gateway.DeliveryOf(frames[k])
  }

  lemma RunIsHonest(events: seq<Event>, count: u32, replayMode: bool, clock: u32 -> u64, cipher: u32 -> (Cipher, Tag))
    requires Arrives(events, Written(count, replayMode, clock, cipher))
    requires forall k :: 0 <= k < |events| && !(replayMode && k == 5) ==>
               -30 <= events[k].now - events[k].delivery.timestamp <= 30
    ensures Honest(events, DEVICE_ID)
    ensures forall k :: 0 <= k < |events| ==> events[k].Check? && (IsReplay(events, k) <==> replayMode && k == 5)
  {
    WrittenNumbers(count, replayMode, clock, cipher);
    forall k | 0 <= k < |events|
      ensures replayMode && k == 5 ==> IsReplay(events, k)
      ensures !(replayMode && k == 5) ==> IsNew(events, k) && !IsReplay(events, k)
    {
      var d := events[k].delivery;
      if replayMode && k == 5 {
        assert events[0].Check? && events[0].delivery == d;
      } else {
        forall j | 0 <= j < k
          ensures events[j].delivery.sequenceNr < d.sequenceNr && events[j].delivery.nonce != d.nonce
        {
          assert NumberAt(j, replayMode) < NumberAt(k, replayMode);
          if events[j].delivery.nonce == d.nonce {
            NonceSpellsNumber(DEVICE_ID, events[j].delivery.sequenceNr, events[j].delivery.timestamp,
                              DEVICE_ID, d.sequenceNr, d.timestamp);
          }
        }
      }
    }
  }

  /** Delivered in order and in time, every frame of a run is accepted, and the replayed first frame is the
      one rejection. */
  lemma OnlyTheReplayIsRejected(events: seq<Event>, count: u32, replayMode: bool, clock: u32 -> u64,
        cipher: u32 -> (Cipher, Tag), k: nat)
    requires Arrives(events, Written(count, replayMode, clock, cipher)) && k < |events|
    requires forall i :: 0 <= i < |events| && !(replayMode && i == 5) ==>
               -30 <= events[i].now - events[i].delivery.timestamp <= 30
    ensures AcceptedAt(events, k) <==> !(replayMode && k == 5)
  {
    RunIsHonest(events, count, replayMode, clock, cipher);
    WrittenNumbers(count, replayMode, clock, cipher);
    assert FromDevice(events, k, DEVICE_ID);
    HonestTrafficSorted(events, DEVICE_ID, k);
  }
}
