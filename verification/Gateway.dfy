/** The gateway, one frame and one connection at a time. */
module Gateway {
  import opened Words
  import opened Frames
  import opened Framing
  import opened Replay
  import opened Registry
  import SensorPayloads

  // ---------- authenticated encryption ----------

  /** The inputs of an opening: nonce, associated data, and ciphertext with its tag appended. */
  datatype Sealed = Sealed(nonce: Nonce, aad: seq<byte>, ciphertext: seq<byte>)

  /** Ideal authenticated encryption (sections 2.1 and 2.2 of RFC 5116): everything that holders of the key
      have sealed, with its plaintext. What is not in it does not open. */
  type Vault = map<Sealed, seq<byte>>

  function Unseal(vault: Vault, k: Sealed): Option<seq<byte>> {
    if k in vault then Some(vault[k]) else None
  }

  function SealedOf(frame: Frame): Sealed {
    Sealed(frame.nonce, frame.Aad(), frame.encryptedPayload + frame.authTag)
  }

  // ---------- one frame ----------

  /** A published reading; the dashboard's strings and its division by 100 are functions of these fields. */
  datatype Reading = Reading(
    deviceId: u32,
    sensorType: byte,
    valueRaw: i32,
    unit: byte,
    sequenceNr: u32,
    timestamp: u64)

  datatype SecurityEvent =
    | MagicInvalid
    | PayloadRefused(payloadLen: nat)
    | ParseFailed(error: ProtocolError)
    | TagInvalid(deviceId: u32)
    | UnknownDevice(deviceId: u32)
    | ReplayDetected(deviceId: u32, reason: ReplayError)

  datatype Authentication = Authentic(frame: Frame, plaintext: seq<byte>) | Refused(event: SecurityEvent)

  /** The first three stages, which touch no shared state: parse, open, whitelist. */
  function Authenticate(registry: DeviceRegistry, vault: Vault, raw: seq<byte>): Authentication {
    match Parse(raw)
    case Err(e) => Refused(ParseFailed(e))
    case Ok(frame) =>
      match Unseal(vault, SealedOf(frame))
      case None => Refused(TagInvalid(frame.deviceId))
      case Some(plaintext) =>
        if registry.IsAllowed(frame.deviceId) then Authentic(frame, plaintext)
        else Refused(UnknownDevice(frame.deviceId))
  }

  function DeliveryOf(frame: Frame): Delivery {
    Delivery(frame.deviceId, frame.sequenceNr, frame.timestamp, frame.nonce)
  }

  /** The last stage: the reading of an accepted frame, if its plaintext parses. */
  function ReadingOf(frame: Frame, plaintext: seq<byte>): Option<Reading> {
    match SensorPayloads.Parse(plaintext)
    case Err(_) => None
    case Ok(p) => Some(Reading(frame.deviceId, p.sensorType, p.valueRaw, p.unit, frame.sequenceNr, frame.timestamp))
  }

  /** What a frame can change. */
  datatype Shared = Shared(devices: Devices, readings: seq<Reading>, events: seq<SecurityEvent>)

  function Process(registry: DeviceRegistry, vault: Vault, g: Shared, raw: seq<byte>, now: u64): Shared {
    match Authenticate(registry, vault, raw)
    case Refused(event) => g.(events := g.events + [event])
    case Authentic(frame, plaintext) =>
      var d := DeliveryOf(frame);
      match VerdictOn(g.devices, now, d)
      case Rejected(e) => g.(events := g.events + [ReplayDetected(frame.deviceId, e)])
      case Fresh =>
        match ReadingOf(frame, plaintext)
        case None => g.(devices := Checked(g.devices, now, d))
        case Some(reading) => g.(devices := Checked(g.devices, now, d), readings := g.readings + [reading])
  }

  lemma NonceInHeader(f: Frame)
    ensures f.Aad()[23..35] == f.nonce
  {
    hide Header, ToBe;
    HeaderFields(f.version, f.deviceId, f.sequenceNr, f.timestamp, |f.encryptedPayload|, f.nonce);
  }

  lemma Around(h: seq<byte>, c: seq<byte>)
    requires |h| == 35
    ensures (h + c)[..35] == h && (h + c)[35..] == c && (h + c)[23..35] == h[23..35]
  {
  }

  /** What the tag covers: the first 35 bytes of the printed frame as associated data, the rest as ciphertext,
      under the nonce in bytes 23 to 34. */
  lemma SealedOfBytes(f: Frame)
    ensures var raw := f.Print();
            SealedOf(f).aad == raw[..35] && SealedOf(f).ciphertext == raw[35..] && SealedOf(f).nonce == raw[23..35]
  {
    hide Frame.Aad;
    assert f.Print() == f.Aad() + (f.encryptedPayload + f.authTag);
    Around(f.Aad(), f.encryptedPayload + f.authTag);
    NonceInHeader(f);
  }

  /** The verdict of the first three stages on a well-formed frame: a bad tag comes before the whitelist. */
  lemma AuthenticateFrame(registry: DeviceRegistry, vault: Vault, f: Frame)
    requires f.Supported()
    ensures var a := Authenticate(registry, vault, f.Print());
            && (a == Refused(TagInvalid(f.deviceId)) <==> SealedOf(f) !in vault)
            && (a == Refused(UnknownDevice(f.deviceId))
                <==> SealedOf(f) in vault && !registry.IsAllowed(f.deviceId))
            && (SealedOf(f) in vault && registry.IsAllowed(f.deviceId) ==> a == Authentic(f, vault[SealedOf(f)]))
  {
    hide SealedOf;
    ParsePrint(f, []);
    assert f.Print() + [] == f.Print();
  }

  lemma AuthenticateRefusedBytes(registry: DeviceRegistry, vault: Vault, raw: seq<byte>, e: ProtocolError)
    ensures Authenticate(registry, vault, raw) == Refused(ParseFailed(e)) <==> Parse(raw) == Err(e)
  {
    hide Parse, SealedOf;
  }

  lemma AppendsDiffer<T>(s: seq<T>, a: T, b: T)
    ensures s + [a] != s && (s + [a] == s + [b] <==> a == b)
  {
    assert (s + [a])[|s|] == a && (s + [b])[|s|] == b;
  }

  /** Which event the pipeline reports for a well-formed frame, and for no other reason: the tag, then the
      whitelist, then the guard. */
  lemma EventOfFrame(registry: DeviceRegistry, vault: Vault, g: Shared, f: Frame, now: u64, reason: ReplayError)
    requires f.Supported()
    ensures var events := Process(registry, vault, g, f.Print(), now).events;
            var sealed, listed := SealedOf(f) in vault, registry.IsAllowed(f.deviceId);
            var verdict := VerdictOn(g.devices, now, DeliveryOf(f));
            && (events == g.events + [TagInvalid(f.deviceId)] <==> !sealed)
            && (events == g.events + [UnknownDevice(f.deviceId)] <==> sealed && !listed)
            && (events == g.events + [ReplayDetected(f.deviceId, reason)]
                <==> sealed && listed && verdict == Rejected(reason))
            && (events == g.events <==> sealed && listed && verdict == Fresh)
  {
    hide Authenticate, SealedOf, VerdictOn, ReadingOf, Checked;
    AuthenticateFrame(registry, vault, f);
    var e := g.events;
    AppendsDiffer(e, TagInvalid(f.deviceId), UnknownDevice(f.deviceId));
    AppendsDiffer(e, TagInvalid(f.deviceId), ReplayDetected(f.deviceId, reason));
    AppendsDiffer(e, UnknownDevice(f.deviceId), ReplayDetected(f.deviceId, reason));
    if VerdictOn(g.devices, now, DeliveryOf(f)).Rejected? {
      var actual := VerdictOn(g.devices, now, DeliveryOf(f)).error;
      AppendsDiffer(e, TagInvalid(f.deviceId), ReplayDetected(f.deviceId, actual));
      AppendsDiffer(e, UnknownDevice(f.deviceId), ReplayDetected(f.deviceId, actual));
      AppendsDiffer(e, ReplayDetected(f.deviceId, actual), ReplayDetected(f.deviceId, reason));
    }
  }

  /** The same for any bytes that the parser refuses, and a refused frame changes nothing else. */
  lemma EventOfBytes(registry: DeviceRegistry, vault: Vault, g: Shared, raw: seq<byte>, now: u64, e: ProtocolError)
    ensures var g' := Process(registry, vault, g, raw, now);
            && (g'.events == g.events + [ParseFailed(e)] <==> Parse(raw) == Err(e))
            && (g'.events != g.events ==> g' == g.(events := g'.events))
  {
    hide Parse, SealedOf, VerdictOn, ReadingOf, Checked;
    AppendsDiffer(g.events, ParseFailed(e), ParseFailed(e));
    if Parse(raw).Ok? {
      var f := Parse(raw).value;
      AppendsDiffer(g.events, ParseFailed(e), TagInvalid(f.deviceId));
      AppendsDiffer(g.events, ParseFailed(e), UnknownDevice(f.deviceId));
      var v := VerdictOn(g.devices, now, DeliveryOf(f));
      if v.Rejected? {
        AppendsDiffer(g.events, ParseFailed(e), ReplayDetected(f.deviceId, v.error));
      }
    } else {
      AppendsDiffer(g.events, ParseFailed(e), ParseFailed(Parse(raw).error));
    }
  }

  // ---------- one connection ----------

  datatype Exit = ConnectionClosed | UnexpectedEof | ClosedTooLarge(payloadLen: nat)

  /** The connection loop from read position `pos` on, the `k`th frame meeting the clock at `clock(k)`. */
  function Serve(registry: DeviceRegistry, vault: Vault, g: Shared, stream: seq<byte>, pos: nat, clock: nat -> u64,
        k: nat): (Shared, Exit)
    requires pos <= |stream|
    decreases |stream| - pos
  {
    match ReadNext(stream, pos)
    case NeedHeader => (g, ConnectionClosed)
    case NeedBody => (g, UnexpectedEof)
    case BadMagic =>
      Serve(registry, vault, g.(events := g.events + [MagicInvalid]), stream, pos + HEADER_SIZE, clock, k)
    case TooLarge(payloadLen) => (g.(events := g.events + [PayloadRefused(payloadLen)]), ClosedTooLarge(payloadLen))
    case Complete(raw) =>
      Serve(registry, vault, Process(registry, vault, g, raw, clock(k)), stream, pos + |raw|, clock, k + 1)
  }

  lemma ServeEnds(registry: DeviceRegistry, vault: Vault, g: Shared, stream: seq<byte>, pos: nat, clock: nat -> u64,
        k: nat)
    requires pos <= |stream|
    ensures var (end, exit) := Serve(registry, vault, g, stream, pos, clock, k);
            match ReadNext(stream, pos)
            case NeedHeader => end == g && exit == ConnectionClosed
            case NeedBody => end == g && exit == UnexpectedEof
            case TooLarge(payloadLen) =>
              end == g.(events := g.events + [PayloadRefused(payloadLen)]) && exit == ClosedTooLarge(payloadLen)
            case _ => true
  {
  }

  lemma ServeBadMagic(registry: DeviceRegistry, vault: Vault, g: Shared, stream: seq<byte>, pos: nat,
        clock: nat -> u64, k: nat)
    requires pos <= |stream| && ReadNext(stream, pos).BadMagic?
    ensures pos + HEADER_SIZE <= |stream|
    ensures Serve(registry, vault, g, stream, pos, clock, k)
         == Serve(registry, vault, g.(events := g.events + [MagicInvalid]), stream, pos + HEADER_SIZE, clock, k)
  {
  }

  lemma ServeFrame(registry: DeviceRegistry, vault: Vault, g: Shared, stream: seq<byte>, pos: nat,
        clock: nat -> u64, k: nat)
    requires pos <= |stream| && ReadNext(stream, pos).Complete?
    ensures var raw := ReadNext(stream, pos).raw;
            && raw != [] && pos + |raw| <= |stream|
            && Serve(registry, vault, g, stream, pos, clock, k)
               == Serve(registry, vault, Process(registry, vault, g, raw, clock(k)), stream, pos + |raw|, clock, k + 1)
  {
  }

  /** One turn of the connection, in terms of the bytes at its position. */
  lemma ServeTurn(registry: DeviceRegistry, vault: Vault, g: Shared, stream: seq<byte>, pos: nat, clock: nat -> u64,
        k: nat)
    requires pos <= |stream|
    ensures var n := DeclaredAt(stream, pos);
            Serve(registry, vault, g, stream, pos, clock, k)
            == if |stream| - pos < 35 then (g, ConnectionClosed)
               else if !HeaderAt(stream, pos) then
                 Serve(registry, vault, g.(events := g.events + [MagicInvalid]), stream, pos + 35, clock, k)
               else if n > 512 then (g.(events := g.events + [PayloadRefused(n)]), ClosedTooLarge(n))
               else if |stream| - pos < 51 + n then (g, UnexpectedEof)
               else Serve(registry, vault, Process(registry, vault, g, stream[pos..pos + 51 + n], clock(k)),
                          stream, pos + 51 + n, clock, k + 1)
  {
    hide ReadNext, Process, HeaderAt, DeclaredAt;
    ReadFromBytes(stream, pos);
  }

  /** A header that declares more than 512 bytes ends the connection at once, whatever bytes follow, with one
      more event and nothing else changed. */
  lemma OversizedEndsConnection(registry: DeviceRegistry, vault: Vault, g: Shared, stream: seq<byte>, pos: nat,
        more: seq<byte>, clock: nat -> u64, k: nat)
    requires HeaderAt(stream, pos) && DeclaredAt(stream, pos) > 512
    ensures var n := DeclaredAt(stream, pos);
            Serve(registry, vault, g, stream + more, pos, clock, k)
            == (g.(events := g.events + [PayloadRefused(n)]), ClosedTooLarge(n))
  {
    hide ReadNext;
    RefusedWhateverFollows(stream, pos, more);
  }

  /** An exit explained by the bytes at which the loop stopped: fewer than a header, a body cut short, or a
      declared length above 512. */
  predicate ExitFits(exit: Exit, stream: seq<byte>, at: nat) {
    var n := DeclaredAt(stream, at);
    && at <= |stream|
    && (exit == ConnectionClosed <==> |stream| - at < 35)
    && (exit == UnexpectedEof <==> HeaderAt(stream, at) && n <= 512 && |stream| - at < 51 + n)
    && (exit == ClosedTooLarge(n) <==> HeaderAt(stream, at) && n > 512)
  }

  lemma ExitHere(registry: DeviceRegistry, vault: Vault, g: Shared, stream: seq<byte>, pos: nat, clock: nat -> u64,
        k: nat)
    requires pos <= |stream| && !ReadNext(stream, pos).BadMagic? && !ReadNext(stream, pos).Complete?
    ensures ExitFits(Serve(registry, vault, g, stream, pos, clock, k).1, stream, pos)
    ensures EndOf(Actions(stream, pos), pos) == pos
  {
    hide ReadNext, DeclaredAt;
    ReadFromBytes(stream, pos);
  }

  lemma EndAfter(first: Action, rest: seq<Action>, from: nat)
    ensures EndOf([first] + rest, from)
         == match first
            case DropHeader(at) => EndOf(rest, at + 35)
            case HandOver(_, end) => EndOf(rest, end)
            case Refuse(at, _) => at
  {
    assert ([first] + rest)[1..] == rest;
  }

  /** How a whole connection ends. */
  lemma {:induction false} ConnectionEnds(registry: DeviceRegistry, vault: Vault, g: Shared, stream: seq<byte>,
        pos: nat, clock: nat -> u64, k: nat)
    requires pos <= |stream|
    ensures ExitFits(Serve(registry, vault, g, stream, pos, clock, k).1, stream, EndOf(Actions(stream, pos), pos))
    decreases |stream| - pos
  {
    hide ReadNext, Process, ExitFits, EndOf;
    match ReadNext(stream, pos)
    case BadMagic =>
      ServeBadMagic(registry, vault, g, stream, pos, clock, k);
      EndAfter(DropHeader(pos), Actions(stream, pos + 35), pos);
      ConnectionEnds(registry, vault, g.(events := g.events + [MagicInvalid]), stream, pos + 35, clock, k);
    case Complete(raw) =>
      ServeFrame(registry, vault, g, stream, pos, clock, k);
      EndAfter(HandOver(pos, pos + |raw|), Actions(stream, pos + |raw|), pos);
      ConnectionEnds(registry, vault, Process(registry, vault, g, raw, clock(k)), stream, pos + |raw|, clock, k + 1);
    case _ =>
      ExitHere(registry, vault, g, stream, pos, clock, k);
  }

  /** The reads of one turn of the connection loop: the header, its magic and length, then the body. */
  method ReadFrame(stream: seq<byte>, pos: nat) returns (step: ReadStep)
    requires pos <= |stream|
    ensures step == ReadNext(stream, pos)
  {
    if |stream| - pos < HEADER_SIZE {
      return NeedHeader;
    }
    var headerBuf := stream[pos..pos + HEADER_SIZE];
    if headerBuf[0..2] != Magic() {
      return BadMagic;
    }
    var payloadLen := ReadU32(headerBuf[19..23]);
    if payloadLen > MAX_PAYLOAD_SIZE {
      return TooLarge(payloadLen);
    }
    var remaining := payloadLen + AUTH_TAG_SIZE;
    if |stream| - (pos + HEADER_SIZE) < remaining {
      return NeedBody;
    }
    var restBuf := stream[pos + HEADER_SIZE..pos + HEADER_SIZE + remaining];
    assert headerBuf + restBuf == stream[pos..pos + HEADER_SIZE + remaining];
    return Complete(headerBuf + restBuf);
  }

  class GatewayState {
    const registry: DeviceRegistry
    const vault: Vault
    const replayGuard: ReplayGuard
    var readings: seq<Reading>
    var events: seq<SecurityEvent>

    ghost predicate Valid()
      reads this, replayGuard
    {
      replayGuard.Valid()
    }

    function Value(): Shared
      reads this, replayGuard
    {
      Shared(replayGuard.devices, readings, events)
    }

    constructor (registry: DeviceRegistry, vault: Vault)
      ensures Valid() && fresh(replayGuard) && this.registry == registry && this.vault == vault
      ensures Value() == Shared(map[], [], [])
    {
      this.registry := registry;
      this.vault := vault;
      replayGuard := new ReplayGuard();
      readings := [];
      events := [];
    }

    method EmitSecurityEvent(event: SecurityEvent)
      requires Valid()
      modifies this
      ensures Valid() && Value() == old(Value()).(events := old(events) + [event])
    {
      events := events + [event];
    }

    method ProcessFrame(raw: seq<byte>, now: u64)
      requires Valid()
      modifies this, replayGuard
      ensures Valid() && Value() == Process(registry, vault, old(Value()), raw, now)
    {
      hide Parse, SensorPayloads.Parse, VerdictOn, Recorded, Stands, IsFresh;
      var parsed := Parse(raw);
      if parsed.Err? {
        EmitSecurityEvent(ParseFailed(parsed.error));
        return;
      }
      var frame := parsed.value;
      var payloadWithTag := frame.encryptedPayload + frame.authTag;
      var aad := HeaderAsAad(frame);
      var plaintext := Unseal(vault, Sealed(frame.nonce, aad, payloadWithTag));
      if plaintext.None? {
        EmitSecurityEvent(TagInvalid(frame.deviceId));
        return;
      }
      if !registry.IsAllowed(frame.deviceId) {
        EmitSecurityEvent(UnknownDevice(frame.deviceId));
        return;
      }
      var verdict := replayGuard.Check(frame.deviceId, frame.sequenceNr, frame.timestamp, frame.nonce, now);
      if verdict.Rejected? {
        EmitSecurityEvent(ReplayDetected(frame.deviceId, verdict.error));
        return;
      }
      var sensor := SensorPayloads.Parse(plaintext.value);
      if sensor.Err? {
        return;
      }
      var p := sensor.value;
      readings := readings
        + [Reading(frame.deviceId, p.sensorType, p.valueRaw, p.unit, frame.sequenceNr, frame.timestamp)];
    }

    method HandleConnection(stream: seq<byte>, clock: nat -> u64) returns (exit: Exit)
      requires Valid()
      modifies this, replayGuard
      ensures Valid() && (Value(), exit) == Serve(registry, vault, old(Value()), stream, 0, clock, 0)
      ensures ExitFits(exit, stream, EndOf(Actions(stream, 0), 0))
    {
      hide Process, Serve, ReadNext, Stands, ExitFits;
      ConnectionEnds(registry, vault, Value(), stream, 0, clock, 0);
      ghost var result := Serve(registry, vault, Value(), stream, 0, clock, 0);
      var pos, k := 0, 0;
      while true
        invariant Valid() && pos <= |stream|
        invariant Serve(registry, vault, Value(), stream, pos, clock, k) == result
        decreases |stream| - pos
      {
        var step := ReadFrame(stream, pos);
        ServeEnds(registry, vault, Value(), stream, pos, clock, k);
        match step {
          case NeedHeader =>
            return ConnectionClosed;
          case BadMagic =>
            ServeBadMagic(registry, vault, Value(), stream, pos, clock, k);
            EmitSecurityEvent(MagicInvalid);
            pos := pos + HEADER_SIZE;
          case TooLarge(payloadLen) =>
            EmitSecurityEvent(PayloadRefused(payloadLen));
            return ClosedTooLarge(payloadLen);
          case NeedBody =>
            return UnexpectedEof;
          case Complete(fullFrame) =>
            ServeFrame(registry, vault, Value(), stream, pos, clock, k);
            ProcessFrame(fullFrame, clock(k));
            pos := pos + |fullFrame|;
            k := k + 1;
        }
      }
    }
  }

  // ---------- frames that are refused leave no trace ----------

  datatype Arrival = Arrival(raw: seq<byte>, now: u64)

  function ProcessAll(registry: DeviceRegistry, vault: Vault, g: Shared, arrivals: seq<Arrival>): Shared
    decreases arrivals
  {
    if arrivals == [] then g
    else ProcessAll(registry, vault, Process(registry, vault, g, arrivals[0].raw, arrivals[0].now), arrivals[1..])
  }

  predicate Reaches(registry: DeviceRegistry, vault: Vault, devices: Devices, a: Arrival) {
    var auth := Authenticate(registry, vault, a.raw);
    auth.Authentic? && VerdictOn(devices, a.now, DeliveryOf(auth.frame)).Fresh?
  }

  /** The arrivals the guard accepts. */
  function Accepted(registry: DeviceRegistry, vault: Vault, devices: Devices, arrivals: seq<Arrival>): seq<Arrival>
    decreases arrivals
  {
    if arrivals == [] then []
    else if Reaches(registry, vault, devices, arrivals[0]) then
      var frame := Authenticate(registry, vault, arrivals[0].raw).frame;
      [arrivals[0]] + Accepted(registry, vault, Checked(devices, arrivals[0].now, DeliveryOf(frame)), arrivals[1..])
    else Accepted(registry, vault, devices, arrivals[1..])
  }

  /** Deleting from a run every frame that failed the parser, the tag, the whitelist or the replay check
      changes neither what is published nor the guard. */
  lemma {:induction false} RefusedFramesErasable(registry: DeviceRegistry, vault: Vault, g: Shared, h: Shared,
        arrivals: seq<Arrival>)
    requires g.devices == h.devices && g.readings == h.readings
    ensures var full := ProcessAll(registry, vault, g, arrivals);
            var pruned := ProcessAll(registry, vault, h, Accepted(registry, vault, g.devices, arrivals));
            full.devices == pruned.devices && full.readings == pruned.readings && pruned.events == h.events
    decreases arrivals
  {
    if arrivals != [] {
      var a := arrivals[0];
      var g' := Process(registry, vault, g, a.raw, a.now);
      if Reaches(registry, vault, g.devices, a) {
        var h' := Process(registry, vault, h, a.raw, a.now);
        RefusedFramesErasable(registry, vault, g', h', arrivals[1..]);
        var rest := Accepted(registry, vault, g'.devices, arrivals[1..]);
        assert ([a] + rest)[1..] == rest;
      } else {
        RefusedFramesErasable(registry, vault, g', h, arrivals[1..]);
      }
    }
  }
}
