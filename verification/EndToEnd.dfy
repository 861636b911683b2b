/** A sensor value's whole way: Arduino frame, UART, ESP32, seal, connection, gateway, published reading. */
module EndToEnd {
  import opened Words
  import opened Frames
  import opened Framing
  import opened Replay
  import opened Registry
  import opened Gateway
  import Esp32
  import SensorNode
  import SenderMachine
  import SensorPayloads

  type SensorPayload = SensorPayloads.SensorPayload

  // ---------- printed frames through the connection loop ----------

  /** The frames one after another through the pipeline, meeting the clock from its `k`th reading on. */
  function ProcessFrames(registry: DeviceRegistry, vault: Vault, g: Shared, frames: seq<Frame>, clock: nat -> u64,
        k: nat): Shared
    decreases frames
  {
    if frames == [] then g
    else
      var g' := Process(registry, vault, g, frames[0].Print(), clock(k));
      ProcessFrames(registry, vault, g', frames[1..], clock, k + 1)
  }

  lemma ServeFirst(registry: DeviceRegistry, vault: Vault, g: Shared, stream: seq<byte>, pos: nat, frame: Frame,
        clock: nat -> u64, k: nat)
    requires At(stream, pos, frame.Print()) && |frame.encryptedPayload| <= 512
    ensures Serve(registry, vault, g, stream, pos, clock, k)
         == Serve(registry, vault, Process(registry, vault, g, frame.Print(), clock(k)),
                  stream, pos + |frame.Print()|, clock, k + 1)
  {
    ReadPrinted(stream, pos, frame);
    ServeFrame(registry, vault, g, stream, pos, clock, k);
  }

  lemma NothingToServe(registry: DeviceRegistry, vault: Vault, g: Shared, stream: seq<byte>, clock: nat -> u64, k: nat)
    ensures Serve(registry, vault, g, stream, |stream|, clock, k) == (g, ConnectionClosed)
  {
  }

  /** Serving a connection that brings printed frames is processing those frames. */
  lemma {:induction false} ServePrinted(registry: DeviceRegistry, vault: Vault, g: Shared, stream: seq<byte>,
        pos: nat, frames: seq<Frame>, clock: nat -> u64, k: nat)
    requires At(stream, pos, PrintAll(frames)) && |stream| == pos + |PrintAll(frames)|
    requires forall f :: f in frames ==> |f.encryptedPayload| <= 512
    ensures Serve(registry, vault, g, stream, pos, clock, k)
         == (ProcessFrames(registry, vault, g, frames, clock, k), ConnectionClosed)
    decreases frames
  {
    hide Process, Serve, At, Frame.Print;
    if frames == [] {
      NothingToServe(registry, vault, g, stream, clock, k);
    } else {
      var first, rest := frames[0].Print(), frames[1..];
      var g' := Process(registry, vault, g, first, clock(k));
      AtSplit(stream, pos, first, PrintAll(rest));
      ServeFirst(registry, vault, g, stream, pos, frames[0], clock, k);
      ServePrinted(registry, vault, g', stream, pos + |first|, rest, clock, k + 1);
      assert ProcessFrames(registry, vault, g, frames, clock, k)
          == ProcessFrames(registry, vault, g', rest, clock, k + 1);
    }
  }

  // ---------- what the sender makes of its readings ----------

  /** The frames of consecutive transmissions, numbered from `nr` on. */
  function Transmitted(deviceId: u32, nr: nat, occasions: seq<Esp32.Occasion>): seq<Frame>
    requires nr + |occasions| <= U32_MAX + 1
    requires forall o :: o in occasions ==> o.encryption.Some?
    decreases occasions
  {
    if occasions == [] then []
    else [Esp32.FrameFor(deviceId, nr, occasions[0])] + Transmitted(deviceId, nr + 1, occasions[1..])
  }

  function ExpectedReading(deviceId: u32, nr: u32, reading: SensorPayload, o: Esp32.Occasion): Reading {
    Reading(deviceId, reading.sensorType, reading.valueRaw, reading.unit, nr, o.timestamp)
  }

  function Expected(deviceId: u32, nr: nat, readings: seq<SensorPayload>, occasions: seq<Esp32.Occasion>): seq<Reading>
    requires |readings| == |occasions| && nr + |occasions| <= U32_MAX + 1
    decreases readings
  {
    if readings == [] then []
    else [ExpectedReading(deviceId, nr, readings[0], occasions[0])]
         + Expected(deviceId, nr + 1, readings[1..], occasions[1..])
  }

  /** The frames were sealed over these readings' payloads. */
  ghost predicate SealedAs(vault: Vault, frames: seq<Frame>, readings: seq<SensorPayload>) {
    && |frames| == |readings|
    && forall i :: 0 <= i < |frames| ==>
         SealedOf(frames[i]) in vault && vault[SealedOf(frames[i])] == readings[i].Print()
  }

  ghost predicate DistinctNonces(occasions: seq<Esp32.Occasion>) {
    forall i, j :: 0 <= i < j < |occasions| ==> occasions[i].nonce != occasions[j].nonce
  }

  ghost predicate InTime(occasions: seq<Esp32.Occasion>, clock: nat -> u64, k: nat) {
    forall i :: 0 <= i < |occasions| ==>
      -30 <= clock(k + i) - occasions[i].timestamp <= 30
  }

  /** The guard knows no number of the device from `nr` on, and none of these nonces. */
  ghost predicate Ready(devices: Devices, deviceId: u32, nr: nat, occasions: seq<Esp32.Occasion>) {
    var state := Lookup(devices, deviceId);
    state.lastSequenceNr < nr && forall o :: o in occasions ==> o.nonce !in state.nonceCache
  }

  /** One genuine frame becomes one reading, and the guard is ready for the next. */
  lemma OneReading(registry: DeviceRegistry, vault: Vault, g: Shared, frame: Frame, p: SensorPayload, now: u64)
    requires frame.Supported() && registry.IsAllowed(frame.deviceId)
    requires SealedOf(frame) in vault && vault[SealedOf(frame)] == p.Print()
    requires VerdictOn(g.devices, now, DeliveryOf(frame)).Fresh?
    ensures var g' := Process(registry, vault, g, frame.Print(), now);
            && g'.devices == Checked(g.devices, now, DeliveryOf(frame))
            && g'.readings == g.readings + [Reading(frame.deviceId, p.sensorType, p.valueRaw, p.unit,
                                                    frame.sequenceNr, frame.timestamp)]
            && g'.events == g.events
  {
    ParsePrint(frame, []);
    assert frame.Print() + [] == frame.Print();
    SensorPayloads.ParsePrint(p, []);
    assert p.Print() + [] == p.Print();
  }

  /** A gateway configured from an unset variable, and in any state that does not know the device yet,
      publishes a genuine frame of any device whatever that is at most thirty seconds off. */
  lemma UnconfiguredGatewayPublishes(vault: Vault, g: Shared, frame: Frame, p: SensorPayload, now: u64)
    requires frame.Supported() && SealedOf(frame) in vault && vault[SealedOf(frame)] == p.Print()
    requires frame.deviceId !in g.devices && -30 <= now - frame.timestamp <= 30
    ensures var g' := Process(FromValue(None), vault, g, frame.Print(), now);
            && g'.readings == g.readings + [Reading(frame.deviceId, p.sensorType, p.valueRaw, p.unit,
                                                    frame.sequenceNr, frame.timestamp)]
            && g'.events == g.events
  {
    hide Process, SealedOf, Frame.Print, SensorPayloads.SensorPayload.Print;
    AllowedBy(None, frame.deviceId);
    OneReading(FromValue(None), vault, g, frame, p, now);
  }

  lemma ReadyAccepts(devices: Devices, frame: Frame, nr: nat, occasions: seq<Esp32.Occasion>, now: u64)
    requires occasions != [] && DistinctNonces(occasions) && Ready(devices, frame.deviceId, nr, occasions)
    requires frame.sequenceNr == nr && frame.nonce == occasions[0].nonce
    requires -30 <= now - frame.timestamp <= 30
    ensures VerdictOn(devices, now, DeliveryOf(frame)).Fresh?
    ensures Ready(Checked(devices, now, DeliveryOf(frame)), frame.deviceId, nr + 1, occasions[1..])
  {
  }

  lemma RestIsSealed(vault: Vault, deviceId: u32, nr: nat, readings: seq<SensorPayload>, occasions: seq<Esp32.Occasion>)
    requires occasions != [] && nr + |occasions| <= U32_MAX + 1
    requires forall o :: o in occasions ==> o.encryption.Some?
    requires SealedAs(vault, Transmitted(deviceId, nr, occasions), readings)
    ensures SealedAs(vault, Transmitted(deviceId, nr + 1, occasions[1..]), readings[1..])
  {
    var frames, rest := Transmitted(deviceId, nr, occasions), Transmitted(deviceId, nr + 1, occasions[1..]);
    assert frames[1..] == rest;
    forall i | 0 <= i < |rest|
      ensures SealedOf(rest[i]) in vault && vault[SealedOf(rest[i])] == readings[1..][i].Print()
    {
      assert rest[i] == frames[i + 1];
    }
  }

  lemma RestInTime(occasions: seq<Esp32.Occasion>, clock: nat -> u64, k: nat)
    requires occasions != [] && InTime(occasions, clock, k)
    ensures InTime(occasions[1..], clock, k + 1)
  {
  }

  /** Readings, the occasions on which they are sent, and a gateway that will publish them. */
  ghost predicate Deliverable(
    registry: DeviceRegistry, vault: Vault, devices: Devices, deviceId: u32, nr: nat,
    readings: seq<SensorPayload>, occasions: seq<Esp32.Occasion>, clock: nat -> u64, k: nat)
  {
    && |readings| == |occasions| && nr + |occasions| <= U32_MAX + 1
    && (forall o :: o in occasions ==> o.encryption.Some?)
    && registry.IsAllowed(deviceId) && SealedAs(vault, Transmitted(deviceId, nr, occasions), readings)
    && DistinctNonces(occasions) && InTime(occasions, clock, k) && Ready(devices, deviceId, nr, occasions)
  }

  /** The sender's first frame is published, and the gateway will publish the rest. */
  lemma FirstPublished(
    registry: DeviceRegistry, vault: Vault, g: Shared, deviceId: u32, nr: nat,
    readings: seq<SensorPayload>, occasions: seq<Esp32.Occasion>, clock: nat -> u64, k: nat)
    requires occasions != [] && Deliverable(registry, vault, g.devices, deviceId, nr, readings, occasions, clock, k)
    ensures var g' := Process(registry, vault, g, Transmitted(deviceId, nr, occasions)[0].Print(), clock(k));
            && g'.readings == g.readings + [ExpectedReading(deviceId, nr, readings[0], occasions[0])]
            && g'.events == g.events
            && Deliverable(registry, vault, g'.devices, deviceId, nr + 1, readings[1..], occasions[1..], clock, k + 1)
  {
    hide Process, VerdictOn, Checked, Ready, Frame.Print, Frame.Aad, SensorPayloads.SensorPayload.Print;
    var frame := Transmitted(deviceId, nr, occasions)[0];
    assert clock(k + 0) == clock(k);
    ReadyAccepts(g.devices, frame, nr, occasions, clock(k));
    OneReading(registry, vault, g, frame, readings[0], clock(k));
    RestIsSealed(vault, deviceId, nr, readings, occasions);
    RestInTime(occasions, clock, k);
  }

  lemma {:induction false} GenuineFramesPublished(
    registry: DeviceRegistry, vault: Vault, g: Shared, deviceId: u32, nr: nat,
    readings: seq<SensorPayload>, occasions: seq<Esp32.Occasion>, clock: nat -> u64, k: nat)
    requires Deliverable(registry, vault, g.devices, deviceId, nr, readings, occasions, clock, k)
    ensures var g' := ProcessFrames(registry, vault, g, Transmitted(deviceId, nr, occasions), clock, k);
            g'.readings == g.readings + Expected(deviceId, nr, readings, occasions) && g'.events == g.events
    decreases readings
  {
    hide Process, Ready, InTime, SealedAs, DistinctNonces;
    if readings != [] {
      var frames, rest := Transmitted(deviceId, nr, occasions), Transmitted(deviceId, nr + 1, occasions[1..]);
      assert frames[1..] == rest;
      FirstPublished(registry, vault, g, deviceId, nr, readings, occasions, clock, k);
      var g' := Process(registry, vault, g, frames[0].Print(), clock(k));
      GenuineFramesPublished(registry, vault, g', deviceId, nr + 1, readings[1..], occasions[1..], clock, k + 1);
      assert ProcessFrames(registry, vault, g, frames, clock, k)
          == ProcessFrames(registry, vault, g', rest, clock, k + 1);
    }
  }

  // ---------- the sketch makes these transmissions ----------

  lemma {:induction false} TransmittedAppend(deviceId: u32, nr: nat, occasions: seq<Esp32.Occasion>, o: Esp32.Occasion)
    requires nr + |occasions| <= U32_MAX && o.encryption.Some?
    requires forall p :: p in occasions ==> p.encryption.Some?
    ensures Transmitted(deviceId, nr, occasions + [o])
         == Transmitted(deviceId, nr, occasions) + [Esp32.FrameFor(deviceId, nr + |occasions|, o)]
    decreases occasions
  {
    if occasions != [] {
      assert (occasions + [o])[1..] == occasions[1..] + [o];
      TransmittedAppend(deviceId, nr + 1, occasions[1..], o);
    }
  }

  /** The frames were handed to the cipher as these readings' payloads under the frames' own headers. */
  ghost predicate HandedAs(handed: seq<Esp32.CipherInput>, frames: seq<Frame>, readings: seq<SensorPayload>) {
    && |handed| == |frames| == |readings|
    && forall i :: 0 <= i < |frames| ==> handed[i] == Esp32.CipherInput(frames[i].Aad(), readings[i].Print())
  }

  /** One pass of the main loop over a UART that holds the frames the Arduino printed. */
  method LoopOnPrinted(sender: Esp32.Sender, ghost readings: seq<SensorPayload>,
        o: Esp32.Occasion) returns (handed: Esp32.CipherInput)
    requires sender.Valid() && readings != [] && sender.uart == Esp32.UartBytes(readings) && o.encryption.Some?
    requires sender.sequenceNr < U32_MAX
    modifies sender
    ensures sender.Valid() && sender.uart == Esp32.UartBytes(readings[1..])
    ensures sender.sequenceNr == old(sender.sequenceNr) + 1
    ensures sender.wire == old(sender.wire) + [Esp32.FrameFor(sender.deviceId, sender.sequenceNr, o).Print()]
    ensures handed
         == Esp32.CipherInput(Esp32.FrameFor(sender.deviceId, sender.sequenceNr, o).Aad(), readings[0].Print())
  {
    hide SensorNode.RawFrame, Esp32.ValidRawFrame, Esp32.RawReading;
    hide Header, Frame.Print, SensorPayloads.SensorPayload.Print;
    ghost var first := SensorNode.RawFrame(readings[0]);
    assert sender.uart[..Esp32.RAW_FRAME_SIZE] == first;
    assert sender.uart[Esp32.RAW_FRAME_SIZE..] == Esp32.UartBytes(readings[1..]);
    Esp32.RawFrameReading(readings[0]);
    var input := sender.Loop(o);
    handed := input.value;
  }

  lemma NothingSent(id: u32, nr: nat)
    requires nr <= U32_MAX + 1
    ensures Prints(Transmitted(id, nr, [])) == [] && HandedAs([], Transmitted(id, nr, []), [])
  {
  }

  lemma OneMore(id: u32, nr: nat, occasions: seq<Esp32.Occasion>, readings: seq<SensorPayload>,
        handed: seq<Esp32.CipherInput>, i: nat, input: Esp32.CipherInput)
    requires i < |occasions| == |readings| && nr + |occasions| <= U32_MAX + 1
    requires forall o :: o in occasions ==> o.encryption.Some?
    requires HandedAs(handed, Transmitted(id, nr, occasions[..i]), readings[..i])
    requires input == Esp32.CipherInput(Esp32.FrameFor(id, nr + i, occasions[i]).Aad(), readings[i].Print())
    ensures var before, after := Transmitted(id, nr, occasions[..i]), Transmitted(id, nr, occasions[..i + 1]);
            && Prints(after) == Prints(before) + [Esp32.FrameFor(id, nr + i, occasions[i]).Print()]
            && HandedAs(handed + [input], after, readings[..i + 1])
  {
    hide Frame.Print, Frame.Aad, SensorPayloads.SensorPayload.Print, Esp32.FrameFor;
    assert occasions[..i + 1] == occasions[..i] + [occasions[i]];
    TransmittedAppend(id, nr, occasions[..i], occasions[i]);
    PrintsAppend(Transmitted(id, nr, occasions[..i]), Esp32.FrameFor(id, nr + i, occasions[i]));
  }

  /** The ESP32 sketch, given the UART bytes the Arduino printed, one pass of its main loop per reading:
      it numbers, saves, seals and sends exactly the frames of `Transmitted`. */
  method SendAll(sender: Esp32.Sender, ghost readings: seq<SensorPayload>, occasions: seq<Esp32.Occasion>)
    returns (handed: seq<Esp32.CipherInput>)
    requires sender.Valid() && sender.uart == Esp32.UartBytes(readings) && |occasions| == |readings|
    requires sender.sequenceNr + |occasions| <= U32_MAX && forall o :: o in occasions ==> o.encryption.Some?
    modifies sender
    ensures sender.Valid() && sender.uart == [] && sender.sequenceNr == old(sender.sequenceNr) + |occasions|
    ensures var frames := Transmitted(sender.deviceId, old(sender.sequenceNr) + 1, occasions);
            sender.wire == old(sender.wire) + Prints(frames) && HandedAs(handed, frames, readings)
  {
    hide Transmitted, HandedAs, Prints, Esp32.FrameFor, Frame.Print, Frame.Aad;
    hide SensorPayloads.SensorPayload.Print, SensorNode.RawFrame;
    ghost var id, nr := sender.deviceId, sender.sequenceNr + 1;
    NothingSent(id, nr);
    handed := [];
    var i := 0;
    while i < |occasions|
      invariant 0 <= i <= |occasions| && sender.Valid()
      invariant sender.uart == Esp32.UartBytes(readings[i..]) && sender.sequenceNr == old(sender.sequenceNr) + i
      invariant sender.wire == old(sender.wire) + Prints(Transmitted(id, nr, occasions[..i]))
      invariant HandedAs(handed, Transmitted(id, nr, occasions[..i]), readings[..i])
    {
      var input := LoopOnPrinted(sender, readings[i..], occasions[i]);
      assert readings[i..][1..] == readings[i + 1..];
      OneMore(id, nr, occasions, readings, handed, i, input);
      handed := handed + [input];
      i := i + 1;
    }
    assert occasions[..i] == occasions && readings[..i] == readings;
  }

  lemma HeaderIsAad(id: u32, nr: u32, o: Esp32.Occasion)
    requires o.encryption.Some?
    ensures Esp32.FrameFor(id, nr, o).Aad()
         == Header(0x01, id, nr, o.timestamp, 8, o.nonce)
  {
  }

  /** One transmission of direct sensor mode; when the power goes off before it, the counter comes back from
      flash. */
  method SendOneDirectly(sender: Esp32.Sender, p: SensorPayload, o: Esp32.Occasion, powerCycle: bool)
    returns (handed: Esp32.CipherInput)
    requires sender.Valid() && o.encryption.Some? && sender.sequenceNr < U32_MAX
    modifies sender
    ensures sender.Valid() && sender.sequenceNr == old(sender.sequenceNr) + 1
    ensures sender.wire == old(sender.wire) + [Esp32.FrameFor(sender.deviceId, sender.sequenceNr, o).Print()]
    ensures handed == Esp32.CipherInput(Esp32.FrameFor(sender.deviceId, sender.sequenceNr, o).Aad(), p.Print())
  {
    hide SensorPayloads.SensorPayload.Print, Header, SenderMachine.Exec;
    if powerCycle {
      SenderMachine.IdleIsSaved(sender.initially, sender.trace);
      sender.Reboot();
    }
    var header, payload := sender.ProcessAndSendDirect(p.sensorType, p.valueRaw, p.unit, o);
    HeaderIsAad(sender.deviceId, sender.sequenceNr, o);
    handed := Esp32.CipherInput(header, payload);
  }

  /** Direct sensor mode, one reading after the other, with the power going off before any of them that
      `powerCycles` names: memory is lost, yet the frames are those of an undisturbed sketch. */
  method SendDirectly(sender: Esp32.Sender, readings: seq<SensorPayload>, occasions: seq<Esp32.Occasion>,
        powerCycles: seq<bool>)
    returns (handed: seq<Esp32.CipherInput>)
    requires sender.Valid() && |occasions| == |readings| == |powerCycles|
    requires sender.sequenceNr + |occasions| <= U32_MAX && forall o :: o in occasions ==> o.encryption.Some?
    modifies sender
    ensures sender.Valid() && sender.sequenceNr == old(sender.sequenceNr) + |occasions|
    ensures var frames := Transmitted(sender.deviceId, old(sender.sequenceNr) + 1, occasions);
            sender.wire == old(sender.wire) + Prints(frames) && HandedAs(handed, frames, readings)
  {
    hide Transmitted, HandedAs, Prints, Esp32.FrameFor, Frame.Print, Frame.Aad, SensorPayloads.SensorPayload.Print;
    ghost var id, nr := sender.deviceId, sender.sequenceNr + 1;
    NothingSent(id, nr);
    handed := [];
    for i := 0 to |occasions|
      invariant sender.Valid() && sender.sequenceNr == old(sender.sequenceNr) + i
      invariant sender.wire == old(sender.wire) + Prints(Transmitted(id, nr, occasions[..i]))
      invariant HandedAs(handed, Transmitted(id, nr, occasions[..i]), readings[..i])
    {
      var input := SendOneDirectly(sender, readings[i], occasions[i], powerCycles[i]);
      OneMore(id, nr, occasions, readings, handed, i, input);
      handed := handed + [input];
    }
    assert occasions[..|occasions|] == occasions && readings[..|occasions|] == readings;
  }

  // ---------- from the sensor to the dashboard ----------

  lemma {:induction false} TransmittedLengths(deviceId: u32, nr: nat, occasions: seq<Esp32.Occasion>)
    requires nr + |occasions| <= U32_MAX + 1
    requires forall o :: o in occasions ==> o.encryption.Some?
    ensures |Transmitted(deviceId, nr, occasions)| == |occasions|
    ensures forall f :: f in Transmitted(deviceId, nr, occasions) ==> |f.encryptedPayload| == 8
    decreases occasions
  {
    if occasions != [] {
      TransmittedLengths(deviceId, nr + 1, occasions[1..]);
    }
  }

  /** Every value measured arrives: the readings printed by the Arduino, taken in by the ESP32 over a
      lossless UART, sealed, framed, sent over one connection, cut apart, opened, checked and parsed are
      published as the same triples, in the same order, with consecutive numbers, and raise no security
      event. */
  lemma SensorToDashboard(
    registry: DeviceRegistry, vault: Vault, g: Shared, deviceId: u32, counter: u32,
    measured: seq<SensorPayload>, occasions: seq<Esp32.Occasion>, clock: nat -> u64)
    requires counter < U32_MAX
    requires Deliverable(registry, vault, g.devices, deviceId, counter + 1,
                         Esp32.Intake(Esp32.UartBytes(measured)), occasions, clock, 0)
    ensures Esp32.Intake(Esp32.UartBytes(measured)) == measured
    ensures var stream := PrintAll(Transmitted(deviceId, counter + 1, occasions));
            var (g', exit) := Serve(registry, vault, g, stream, 0, clock, 0);
            && g'.readings == g.readings + Expected(deviceId, counter + 1, measured, occasions)
            && g'.events == g.events
            && exit == ConnectionClosed
  {
    hide Esp32.UartBytes, Esp32.Intake, Process, ProcessFrames, Serve, Ready, InTime, SealedAs, DistinctNonces;
    Esp32.IntakeUndoesPrinting(measured);
    var frames := Transmitted(deviceId, counter + 1, occasions);
    TransmittedLengths(deviceId, counter + 1, occasions);
    ServePrinted(registry, vault, g, PrintAll(frames), 0, frames, clock, 0);
    GenuineFramesPublished(registry, vault, g, deviceId, counter + 1, measured, occasions, clock, 0);
  }
}
