/** A crashing sender's frames at the gateway, among anything that other peers send. */
module SenderAtGateway {
  import opened Words
  import opened Frames
  import opened Replay
  import opened ReplayRuns
  import opened Registry
  import opened Gateway
  import opened SenderMachine
  import opened SenderRuns
  import SensorPayloads

  // ---------- what of the arrivals reaches the guard ----------

  /** An arrival that passed parser, tag and whitelist. */
  datatype Opened = Opened(frame: Frame, plaintext: seq<byte>, now: u64)

  function OpenedOf(registry: DeviceRegistry, vault: Vault, arrivals: seq<Arrival>): seq<Opened> {
    if arrivals == [] then [] else
      var last := arrivals[|arrivals| - 1];
      OpenedOf(registry, vault, arrivals[..|arrivals| - 1])
      + match Authenticate(registry, vault, last.raw)
        case Authentic(frame, plaintext) => [Opened(frame, plaintext, last.now)]
        case Refused(_) => []
  }

  function EventsOf(seen: seq<Opened>): (events: seq<Event>)
    ensures |events| == |seen|
    ensures forall k :: 0 <= k < |events| ==> events[k] == Check(seen[k].now, DeliveryOf(seen[k].frame))
  {
    seq(|seen|, k requires 0 <= k < |seen| => Check(seen[k].now, DeliveryOf(seen[k].frame)))
  }

  function ReadingFrom(o: Opened): seq<Reading> {
    match ReadingOf(o.frame, o.plaintext) case None => [] case Some(reading) => [reading]
  }

  /** The readings of the arrivals that the guard accepts. */
  function Published(seen: seq<Opened>): seq<Reading> {
    if seen == [] then [] else
      var n := |seen| - 1;
      Published(seen[..n]) + if AcceptedAt(EventsOf(seen), n) then ReadingFrom(seen[n]) else []
  }

  lemma EventsPrefix(seen: seq<Opened>, o: Opened)
    ensures EventsOf(seen + [o]) == EventsOf(seen) + [Check(o.now, DeliveryOf(o.frame))]
    ensures EventsOf(seen + [o])[..|seen|] == EventsOf(seen)
  {
    var events := EventsOf(seen + [o]);
    assert forall k :: 0 <= k < |seen| ==> events[k] == EventsOf(seen)[k];
  }

  lemma {:induction false} ProcessAllAppend(registry: DeviceRegistry, vault: Vault, g: Shared,
        arrivals: seq<Arrival>, a: Arrival)
    ensures ProcessAll(registry, vault, g, arrivals + [a])
         == Process(registry, vault, ProcessAll(registry, vault, g, arrivals), a.raw, a.now)
    decreases arrivals
  {
    hide Process;
    if arrivals == [] {
      assert (arrivals + [a])[1..] == [];
    } else {
      assert (arrivals + [a])[1..] == arrivals[1..] + [a];
      var g' := Process(registry, vault, g, arrivals[0].raw, arrivals[0].now);
      ProcessAllAppend(registry, vault, g', arrivals[1..], a);
    }
  }

  lemma PublishedAppend(seen: seq<Opened>, o: Opened)
    ensures Published(seen + [o])
         == Published(seen)
            + if Accepts(Run(map[], EventsOf(seen)), Check(o.now, DeliveryOf(o.frame))) then ReadingFrom(o) else []
    ensures Run(map[], EventsOf(seen + [o])) == Step(Run(map[], EventsOf(seen)), Check(o.now, DeliveryOf(o.frame)))
  {
    hide Accepts, Step, ReadingFrom;
    EventsPrefix(seen, o);
    assert (seen + [o])[..|seen|] == seen;
  }

  /** What one more arrival does to guard and log. */
  lemma ProcessOpened(registry: DeviceRegistry, vault: Vault, g: Shared, a: Arrival)
    ensures var auth, g' := Authenticate(registry, vault, a.raw), Process(registry, vault, g, a.raw, a.now);
            match auth
            case Refused(_) => g'.devices == g.devices && g'.readings == g.readings
            case Authentic(frame, plaintext) =>
              var e := Check(a.now, DeliveryOf(frame));
              && g'.devices == Step(g.devices, e)
              && g'.readings
                 == g.readings + if Accepts(g.devices, e) then ReadingFrom(Opened(frame, plaintext, a.now)) else []
  {
    hide Authenticate, VerdictOn, ReadingOf;
  }

  /** The gateway, given any bytes whatever, is the replay guard run on what authenticates. */
  lemma {:induction false} GatewayIsGuard(registry: DeviceRegistry, vault: Vault, arrivals: seq<Arrival>)
    ensures var g := ProcessAll(registry, vault, Shared(map[], [], []), arrivals);
            var seen := OpenedOf(registry, vault, arrivals);
            g.devices == Run(map[], EventsOf(seen)) && g.readings == Published(seen)
  {
    hide Authenticate, Process, Accepts, Step, ReadingFrom;
    if arrivals != [] {
      var n := |arrivals| - 1;
      var before, a := arrivals[..n], arrivals[n];
      var g, seen := ProcessAll(registry, vault, Shared(map[], [], []), before), OpenedOf(registry, vault, before);
      assert before + [a] == arrivals;
      GatewayIsGuard(registry, vault, before);
      ProcessAllAppend(registry, vault, Shared(map[], [], []), before, a);
      ProcessOpened(registry, vault, g, a);
      match Authenticate(registry, vault, a.raw)
      case Refused(_) =>
        assert OpenedOf(registry, vault, arrivals) == seen;
      case Authentic(frame, plaintext) =>
        PublishedAppend(seen, Opened(frame, plaintext, a.now));
    }
  }

  // ---------- the sender among them ----------

  function OfDevice(readings: seq<Reading>, id: u32): seq<Reading> {
    if readings == [] then [] else
      OfDevice(readings[..|readings| - 1], id)
      + if readings[|readings| - 1].deviceId == id then [readings[|readings| - 1]] else []
  }

  lemma OfDeviceAppend(readings: seq<Reading>, o: Opened, id: u32)
    ensures OfDevice(readings + ReadingFrom(o), id)
         == OfDevice(readings, id) + if o.frame.deviceId == id then ReadingFrom(o) else []
  {
    if ReadingFrom(o) == [] {
      assert readings + ReadingFrom(o) == readings;
    } else {
      assert (readings + ReadingFrom(o))[..|readings|] == readings;
    }
  }

  function OnlyDevice(seen: seq<Opened>, id: u32): seq<Opened> {
    if seen == [] then [] else
      OnlyDevice(seen[..|seen| - 1], id)
      + if seen[|seen| - 1].frame.deviceId == id then [seen[|seen| - 1]] else []
  }

  lemma OnlyDeviceAppend(seen: seq<Opened>, o: Opened, id: u32)
    ensures OnlyDevice(seen + [o], id) == OnlyDevice(seen, id) + if o.frame.deviceId == id then [o] else []
  {
    assert (seen + [o])[..|seen|] == seen;
  }

  predicate Timely(o: Opened) {
    -30 <= o.now - o.frame.timestamp <= 30
  }

  /** In time, and numbered above every frame of its device that reached the guard in time before. */
  predicate TakesLead(before: seq<Opened>, o: Opened) {
    && Timely(o)
    && forall e :: e in before && e.frame.deviceId == o.frame.deviceId && Timely(e) ==>
         e.frame.sequenceNr < o.frame.sequenceNr
  }

  /** The device's frames that take the lead, in the order in which they do. */
  function LeadersOf(seen: seq<Opened>, id: u32): seq<Opened> {
    if seen == [] then [] else
      var n := |seen| - 1;
      LeadersOf(seen[..n], id) + if seen[n].frame.deviceId == id && TakesLead(seen[..n], seen[n]) then [seen[n]] else []
  }

  function ReadingsFrom(seen: seq<Opened>): seq<Reading> {
    if seen == [] then [] else ReadingsFrom(seen[..|seen| - 1]) + ReadingFrom(seen[|seen| - 1])
  }

  /** The guard accepts exactly the device's frames that take the lead. */
  ghost predicate LeadersAccepted(seen: seq<Opened>, id: u32) {
    forall k :: 0 <= k < |seen| && seen[k].frame.deviceId == id ==>
      (AcceptedAt(EventsOf(seen), k) <==> TakesLead(seen[..k], seen[k]))
  }

  lemma LeadersAcceptedPrefix(seen: seq<Opened>, id: u32, n: nat)
    requires LeadersAccepted(seen, id) && n <= |seen|
    ensures LeadersAccepted(seen[..n], id)
  {
    hide Accepts, Run, TakesLead;
    forall k | 0 <= k < n && seen[..n][k].frame.deviceId == id
      ensures AcceptedAt(EventsOf(seen[..n]), k) <==> TakesLead(seen[..n][..k], seen[..n][k])
    {
      assert seen[..n][..k] == seen[..k] && EventsOf(seen[..n])[..k] == EventsOf(seen)[..k];
    }
  }

  lemma ReadingsFromAppend(seen: seq<Opened>, o: Opened)
    ensures ReadingsFrom(seen + [o]) == ReadingsFrom(seen) + ReadingFrom(o)
  {
    assert (seen + [o])[..|seen|] == seen;
  }

  lemma OneMorePublished(readings: seq<Reading>, leaders: seq<Opened>, o: Opened, id: u32, accepted: bool)
    requires OfDevice(readings, id) == ReadingsFrom(leaders)
    ensures OfDevice(readings + if accepted then ReadingFrom(o) else [], id)
         == ReadingsFrom(leaders + if accepted && o.frame.deviceId == id then [o] else [])
  {
    hide OfDevice, ReadingsFrom, ReadingFrom;
    if accepted {
      OfDeviceAppend(readings, o, id);
      ReadingsFromAppend(leaders, o);
    } else {
      assert readings + [] == readings;
    }
    assert leaders + [] == leaders;
  }

  /** Where the guard accepts exactly those, exactly those are published. */
  lemma {:induction false} LeadersPublished(seen: seq<Opened>, id: u32)
    requires LeadersAccepted(seen, id)
    ensures OfDevice(Published(seen), id) == ReadingsFrom(LeadersOf(seen, id))
  {
    hide AcceptedAt, TakesLead, ReadingFrom;
    if seen != [] {
      var n := |seen| - 1;
      LeadersAcceptedPrefix(seen, id, n);
      LeadersPublished(seen[..n], id);
      hide OfDevice, ReadingsFrom;
      OneMorePublished(Published(seen[..n]), LeadersOf(seen[..n], id), seen[n], id, AcceptedAt(EventsOf(seen), n));
    }
  }

  /** What the guard knows of a device when only frames were delivered. */
  lemma {:induction false} KnownIsTimely(seen: seq<Opened>, id: u32)
    ensures forall d :: d in Known(EventsOf(seen), id) <==>
              exists o :: o in seen && o.frame.deviceId == id && Timely(o) && DeliveryOf(o.frame) == d
  {
    if seen != [] {
      var n := |seen| - 1;
      KnownIsTimely(seen[..n], id);
      assert EventsOf(seen)[..n] == EventsOf(seen[..n]) && seen == seen[..n] + [seen[n]];
    }
  }

  lemma LeadsIsLead(seen: seq<Opened>, k: nat)
    requires k < |seen|
    ensures Leads(EventsOf(seen), k) <==> TakesLead(seen[..k], seen[k])
  {
    hide Known;
    var events, id := EventsOf(seen), seen[k].frame.deviceId;
    assert events[..k] == EventsOf(seen[..k]);
    KnownIsTimely(seen[..k], id);
    if Leads(events, k) {
      forall e | e in seen[..k] && e.frame.deviceId == id && Timely(e)
        ensures e.frame.sequenceNr < seen[k].frame.sequenceNr
      {
        assert DeliveryOf(e.frame) in Known(events[..k], id);
      }
    }
  }

  /** The `k`th frame to reach the guard arrives for the first time. */
  predicate FirstArrival(seen: seq<Opened>, k: nat)
    requires k < |seen|
  {
    forall j :: 0 <= j < k ==> seen[j].frame != seen[k].frame
  }

  /** A device's frames that reached the guard, each at its first arrival. */
  function FirstOf(seen: seq<Opened>, id: u32): seq<Opened> {
    if seen == [] then [] else
      var n := |seen| - 1;
      FirstOf(seen[..n], id) + if seen[n].frame.deviceId == id && FirstArrival(seen, n) then [seen[n]] else []
  }

  /** The guard accepts exactly the first arrivals of a device. */
  ghost predicate FirstAccepted(seen: seq<Opened>, id: u32) {
    forall k :: 0 <= k < |seen| && seen[k].frame.deviceId == id ==>
      (AcceptedAt(EventsOf(seen), k) <==> FirstArrival(seen, k))
  }

  /** The device's frames take the lead exactly when they arrive for the first time. */
  ghost predicate FirstLead(seen: seq<Opened>, id: u32) {
    forall k :: 0 <= k < |seen| && seen[k].frame.deviceId == id ==>
      (TakesLead(seen[..k], seen[k]) <==> FirstArrival(seen, k))
  }

  lemma {:induction false} LeadersAreFirst(seen: seq<Opened>, id: u32)
    requires FirstLead(seen, id)
    ensures LeadersOf(seen, id) == FirstOf(seen, id)
  {
    hide TakesLead;
    if seen != [] {
      var n := |seen| - 1;
      forall k | 0 <= k < n && seen[..n][k].frame.deviceId == id
        ensures TakesLead(seen[..n][..k], seen[..n][k]) <==> FirstArrival(seen[..n], k)
      {
        assert seen[..n][..k] == seen[..k];
      }
      LeadersAreFirst(seen[..n], id);
    }
  }

  /** The frames that one sender put on the wire, with the numbers of its run and distinct nonces. */
  ghost predicate FramesOf(frames: seq<Frame>, id: u32, wire: seq<u32>) {
    && |frames| == |wire|
    && (forall i :: 0 <= i < |frames| ==> frames[i].deviceId == id && frames[i].sequenceNr == wire[i])
    && (forall i, j :: 0 <= i < j < |frames| ==> frames[i].nonce != frames[j].nonce)
  }

  /** Whatever was sealed under a header that names the device is one of the sender's frames. */
  ghost predicate SealsFor(vault: Vault, id: u32, frames: seq<Frame>) {
    forall k :: k in vault && |k.aad| == HEADER_SIZE && k.aad[3..7] == ToBe(4, id) ==>
      exists i :: 0 <= i < |frames| && k == SealedOf(frames[i])
  }

  ghost predicate AllSupported(frames: seq<Frame>) {
    forall f :: f in frames ==> f.Supported()
  }

  /** The first place of a frame, or the length if it has none. */
  function IndexOf(frames: seq<Frame>, f: Frame): (i: nat)
    ensures i <= |frames| && (i < |frames| ==> frames[i] == f)
    ensures f in frames ==> i < |frames|
  {
    if frames == [] || frames[0] == f then 0 else 1 + IndexOf(frames[1..], f)
  }

  /** Which of the sender's frames reached the guard, in the order in which they did. */
  function OrderOf(seen: seq<Opened>, frames: seq<Frame>): (order: seq<nat>)
    ensures |order| == |seen| && forall k :: 0 <= k < |seen| ==> order[k] == IndexOf(frames, seen[k].frame)
  {
    seq(|seen|, k requires 0 <= k < |seen| => IndexOf(frames, seen[k].frame))
  }

  /** Everything that reached the guard was opened with the vault. */
  ghost predicate FromVault(seen: seq<Opened>, vault: Vault) {
    forall o :: o in seen ==>
      o.frame.Supported() && SealedOf(o.frame) in vault && o.plaintext == vault[SealedOf(o.frame)]
  }

  /** No two frames that the parser can return are sealed alike. */
  lemma SealedOfInjective(f: Frame, g: Frame)
    requires f.Supported() && g.Supported() && SealedOf(f) == SealedOf(g)
    ensures f == g
  {
    hide Header;
    HeaderInjective(f, g);
    var n := |f.encryptedPayload|;
    assert (f.encryptedPayload + f.authTag)[..n] == f.encryptedPayload;
    assert (f.encryptedPayload + f.authTag)[n..] == f.authTag;
    assert (g.encryptedPayload + g.authTag)[..n] == g.encryptedPayload;
    assert (g.encryptedPayload + g.authTag)[n..] == g.authTag;
  }

  lemma HeaderNamesDevice(f: Frame)
    ensures SealedOf(f).aad[3..7] == ToBe(4, f.deviceId)
  {
    hide Header;
    HeaderFields(f.version, f.deviceId, f.sequenceNr, f.timestamp, |f.encryptedPayload|, f.nonce);
  }

  lemma AadLength(f: Frame)
    ensures |SealedOf(f).aad| == HEADER_SIZE
  {
  }

  /** Ideal encryption and the header leave no other choice: what opens in the device's name is one of the
      frames sealed for it. */
  lemma OpensOnlySealed(o: Opened, vault: Vault, id: u32, frames: seq<Frame>)
    requires FromVault([o], vault) && SealsFor(vault, id, frames) && AllSupported(frames) && o.frame.deviceId == id
    ensures o.frame in frames
  {
    hide SealedOf;
    assert o in [o];
    HeaderNamesDevice(o.frame);
    assert |SealedOf(o.frame).aad| == HEADER_SIZE by {
      AadLength(o.frame);
    }
    var i :| 0 <= i < |frames| && SealedOf(o.frame) == SealedOf(frames[i]);
    SealedOfInjective(o.frame, frames[i]);
  }

  /** The `k`th frame to reach the guard, if the device's, is the sender's frame `OrderOf(seen, frames)[k]`. */
  lemma OnlyTheSender(seen: seq<Opened>, vault: Vault, id: u32, frames: seq<Frame>, k: nat)
    requires FromVault(seen, vault) && SealsFor(vault, id, frames) && AllSupported(frames)
    requires k < |seen| && seen[k].frame.deviceId == id
    ensures var i := OrderOf(seen, frames)[k]; i < |frames| && seen[k].frame == frames[i]
  {
    hide SealedOf;
    assert seen[k] in seen;
    OpensOnlySealed(seen[k], vault, id, frames);
  }

  function Deliveries(frames: seq<Frame>): (s: seq<Delivery>)
    ensures |s| == |frames| && forall i :: 0 <= i < |s| ==> s[i] == DeliveryOf(frames[i])
  {
    seq(|frames|, i requires 0 <= i < |frames| => DeliveryOf(frames[i]))
  }

  /** A sender's frames among anything else that opens, in whatever order they reach the guard and however
      often: it accepts exactly those that take the lead. */
  lemma LeadersAmongOthers(seen: seq<Opened>, vault: Vault, id: u32, frames: seq<Frame>)
    requires Numbered(Deliveries(frames), id) && AllSupported(frames)
    requires FromVault(seen, vault) && SealsFor(vault, id, frames)
    ensures LeadersAccepted(seen, id)
  {
    hide Numbered, AllSupported, FromVault, SealsFor, AcceptedAt, Leads, TakesLead;
    var events, sent := EventsOf(seen), Deliveries(frames);
    forall k | 0 <= k < |seen| && FromDevice(events, k, id)
      ensures events[k].delivery in sent
    {
      OnlyTheSender(seen, vault, id, frames, k);
      assert sent[OrderOf(seen, frames)[k]] == events[k].delivery;
    }
    forall k | 0 <= k < |seen| && seen[k].frame.deviceId == id
      ensures AcceptedAt(events, k) <==> TakesLead(seen[..k], seen[k])
    {
      assert FromDevice(events, k, id);
      AcceptedIfLeads(sent, events, id, k);
      LeadsIsLead(seen, k);
    }
  }

  lemma CrashingSenderFrames(saved: Option<u32>, steps: seq<SenderStep>, id: u32, frames: seq<Frame>)
    requires Exec(saved, steps).Some? && NeverWraps(saved, steps)
    requires FramesOf(frames, id, Exec(saved, steps).value.wire)
    ensures Numbered(Deliveries(frames), id)
  {
    hide Exec, NeverWraps;
    CrashingSenderNumbers(saved, steps, id, Deliveries(frames));
  }

  lemma FirstArrivalIsNoRepeat(seen: seq<Opened>, vault: Vault, id: u32, frames: seq<Frame>, k: nat)
    requires FromVault(seen, vault) && SealsFor(vault, id, frames) && AllSupported(frames)
    requires k < |seen| && seen[k].frame.deviceId == id
    ensures FirstArrival(seen, k) <==> !Repeats(EventsOf(seen), id, OrderOf(seen, frames), k)
  {
    hide FromVault, SealsFor, AllSupported;
    var events, order := EventsOf(seen), OrderOf(seen, frames);
    OnlyTheSender(seen, vault, id, frames, k);
    if Repeats(events, id, order, k) {
      var j :| 0 <= j < k && FromDevice(events, j, id) && order[j] == order[k];
      OnlyTheSender(seen, vault, id, frames, j);
      assert seen[j].frame == seen[k].frame;
    }
    if !FirstArrival(seen, k) {
      var j :| 0 <= j < k && seen[j].frame == seen[k].frame;
      assert FromDevice(events, j, id) && order[j] == order[k];
    }
  }

  lemma OneAmongOthers(
    seen: seq<Opened>, vault: Vault, saved: Option<u32>, steps: seq<SenderStep>, id: u32, frames: seq<Frame>, k: nat)
    requires Exec(saved, steps).Some? && NeverWraps(saved, steps)
    requires FramesOf(frames, id, Exec(saved, steps).value.wire) && AllSupported(frames)
    requires FromVault(seen, vault) && SealsFor(vault, id, frames)
    requires LossyInOrder(EventsOf(seen), id, OrderOf(seen, frames))
    requires k < |seen| && seen[k].frame.deviceId == id
    ensures AcceptedAt(EventsOf(seen), k) <==> FirstArrival(seen, k)
  {
    hide Exec, NeverWraps, AcceptedAt, LossyInOrder, SealsFor, FromVault, AllSupported, FirstArrival;
    var events, sent, order := EventsOf(seen), Deliveries(frames), OrderOf(seen, frames);
    forall m | 0 <= m < |events| && FromDevice(events, m, id)
      ensures order[m] < |sent| && events[m].delivery == sent[order[m]]
    {
      OnlyTheSender(seen, vault, id, frames, m);
    }
    assert FromDevice(events, k, id);
    FirstArrivalIsNoRepeat(seen, vault, id, frames, k);
    NoHonestFrameRejected(saved, steps, id, sent, events, order, k);
  }

  /** Over a channel that keeps the sender's order, taking the lead is arriving for the first time. */
  lemma HonestAmongOthers(
    seen: seq<Opened>, vault: Vault, saved: Option<u32>, steps: seq<SenderStep>, id: u32, frames: seq<Frame>)
    requires Exec(saved, steps).Some? && NeverWraps(saved, steps)
    requires FramesOf(frames, id, Exec(saved, steps).value.wire) && AllSupported(frames)
    requires FromVault(seen, vault) && SealsFor(vault, id, frames)
    requires LossyInOrder(EventsOf(seen), id, OrderOf(seen, frames))
    ensures FirstAccepted(seen, id) && LeadersAccepted(seen, id) && FirstLead(seen, id)
  {
    hide Exec, NeverWraps, AcceptedAt, LossyInOrder, SealsFor, FromVault, AllSupported, FirstArrival, FramesOf;
    hide TakesLead, Numbered;
    CrashingSenderFrames(saved, steps, id, frames);
    LeadersAmongOthers(seen, vault, id, frames);
    forall k | 0 <= k < |seen| && seen[k].frame.deviceId == id
      ensures AcceptedAt(EventsOf(seen), k) <==> FirstArrival(seen, k)
    {
      OneAmongOthers(seen, vault, saved, steps, id, frames, k);
    }
  }

  /** Each frame was sealed over its reading's payload. */
  ghost predicate SealedOver(vault: Vault, frames: seq<Frame>, payloads: seq<SensorPayloads.SensorPayload>) {
    && |payloads| == |frames|
    && forall i :: 0 <= i < |frames| ==>
         SealedOf(frames[i]) in vault && vault[SealedOf(frames[i])] == payloads[i].Print()
  }

  lemma AuthenticIsSupported(registry: DeviceRegistry, vault: Vault, raw: seq<byte>)
    ensures var a := Authenticate(registry, vault, raw);
            a.Authentic? ==>
              a.frame.Supported() && SealedOf(a.frame) in vault && a.plaintext == vault[SealedOf(a.frame)]
  {
    hide SealedOf, Parse;
    if Parse(raw).Ok? {
      PrintParse(raw);
    }
  }

  lemma {:induction false} OpenedFromVault(registry: DeviceRegistry, vault: Vault, arrivals: seq<Arrival>)
    ensures FromVault(OpenedOf(registry, vault, arrivals), vault)
  {
    hide Authenticate, SealedOf;
    if arrivals != [] {
      OpenedFromVault(registry, vault, arrivals[..|arrivals| - 1]);
      AuthenticIsSupported(registry, vault, arrivals[|arrivals| - 1].raw);
    }
  }

  lemma GenuineReading(o: Opened, p: SensorPayloads.SensorPayload)
    requires o.plaintext == p.Print()
    ensures ReadingFrom(o)
         == [Reading(o.frame.deviceId, p.sensorType, p.valueRaw, p.unit, o.frame.sequenceNr, o.frame.timestamp)]
  {
    SensorPayloads.ParsePrint(p, []);
    assert p.Print() + [] == p.Print();
  }

  /** A frame's reading as its sender meant it. */
  function ReadingFor(frame: Frame, p: SensorPayloads.SensorPayload): Reading {
    Reading(frame.deviceId, p.sensorType, p.valueRaw, p.unit, frame.sequenceNr, frame.timestamp)
  }

  /** Each of the device's frames that reached the guard is one of the sender's, with its own reading. */
  ghost predicate ReadAsMeant(
    seen: seq<Opened>, id: u32, frames: seq<Frame>, payloads: seq<SensorPayloads.SensorPayload>)
    requires |payloads| == |frames|
  {
    forall o :: o in seen && o.frame.deviceId == id ==>
      var i := IndexOf(frames, o.frame); i < |frames| && ReadingFrom(o) == [ReadingFor(frames[i], payloads[i])]
  }

  lemma MeantReadings(
    seen: seq<Opened>, vault: Vault, id: u32, frames: seq<Frame>, payloads: seq<SensorPayloads.SensorPayload>)
    requires FromVault(seen, vault) && SealsFor(vault, id, frames) && AllSupported(frames)
    requires SealedOver(vault, frames, payloads)
    ensures ReadAsMeant(seen, id, frames, payloads)
  {
    hide SealedOf, SensorPayloads.SensorPayload.Print, ReadingFrom, SealsFor, AllSupported;
    forall o | o in seen && o.frame.deviceId == id
      ensures IndexOf(frames, o.frame) < |frames|
      ensures var i := IndexOf(frames, o.frame); ReadingFrom(o) == [ReadingFor(frames[i], payloads[i])]
    {
      OpensOnlySealed(o, vault, id, frames);
      GenuineReading(o, payloads[IndexOf(frames, o.frame)]);
    }
  }

  /** Whatever bytes else arrive at the gateway, as long as nobody else seals in the device's name, its
      published readings are those of the sender's frames that take the lead, unchanged and in this order,
      in whatever order the frames arrive and however often. */
  lemma ReadingsOfLeaders(
    registry: DeviceRegistry, vault: Vault, arrivals: seq<Arrival>,
    id: u32, frames: seq<Frame>, payloads: seq<SensorPayloads.SensorPayload>)
    requires Numbered(Deliveries(frames), id) && AllSupported(frames)
    requires SealsFor(vault, id, frames) && SealedOver(vault, frames, payloads)
    ensures var g := ProcessAll(registry, vault, Shared(map[], [], []), arrivals);
            var seen := OpenedOf(registry, vault, arrivals);
            OfDevice(g.readings, id) == ReadingsFrom(LeadersOf(seen, id)) && ReadAsMeant(seen, id, frames, payloads)
  {
    hide OpenedOf, ProcessAll, Numbered, AllSupported, SealsFor, SealedOver, LeadersAccepted, ReadAsMeant;
    var seen := OpenedOf(registry, vault, arrivals);
    GatewayIsGuard(registry, vault, arrivals);
    OpenedFromVault(registry, vault, arrivals);
    LeadersAmongOthers(seen, vault, id, frames);
    LeadersPublished(seen, id);
    MeantReadings(seen, vault, id, frames, payloads);
  }

  /** One reading per frame: over a channel that keeps the crashing sender's order, with replays of its frames
      in between, those are its frames that arrive, each exactly once, in the order of first arrival. */
  lemma OneReadingPerFrame(
    registry: DeviceRegistry, vault: Vault, arrivals: seq<Arrival>,
    saved: Option<u32>, steps: seq<SenderStep>, id: u32, frames: seq<Frame>,
    payloads: seq<SensorPayloads.SensorPayload>)
    requires Exec(saved, steps).Some? && NeverWraps(saved, steps)
    requires FramesOf(frames, id, Exec(saved, steps).value.wire) && AllSupported(frames)
    requires SealsFor(vault, id, frames) && SealedOver(vault, frames, payloads)
    requires var seen := OpenedOf(registry, vault, arrivals); LossyInOrder(EventsOf(seen), id, OrderOf(seen, frames))
    ensures var g := ProcessAll(registry, vault, Shared(map[], [], []), arrivals);
            var seen := OpenedOf(registry, vault, arrivals);
            OfDevice(g.readings, id) == ReadingsFrom(FirstOf(seen, id)) && ReadAsMeant(seen, id, frames, payloads)
  {
    hide OpenedOf, ProcessAll, Exec, NeverWraps, LossyInOrder, SealsFor, AllSupported, SealedOver, FramesOf, Numbered;
    hide LeadersAccepted, ReadAsMeant, FirstLead, FirstAccepted;
    var seen := OpenedOf(registry, vault, arrivals);
    OpenedFromVault(registry, vault, arrivals);
    CrashingSenderFrames(saved, steps, id, frames);
    ReadingsOfLeaders(registry, vault, arrivals, id, frames, payloads);
    HonestAmongOthers(seen, vault, saved, steps, id, frames);
    LeadersAreFirst(seen, id);
  }
}
