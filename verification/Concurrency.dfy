/** The gateway under load: any number of connections, each with its own handler, sharing one guard.

    A step of one handler is what it does between two points where another handler may run; the locked check is
    one step, and publishing is a later one. Peers choose every byte, key holders seal at any time, and
    each check meets an arbitrary clock reading. */
module Concurrency {
  import opened Words
  import opened Frames
  import opened Framing
  import opened Replay
  import opened Registry
  import opened Gateway

  /** Where a connection's handler stands. An accepted frame is known by its ticket, its place in the order of
      acceptances. */
  datatype Control =
    | Receiving
    | Framed(raw: seq<byte>)
    | Verified(frame: Frame, plaintext: seq<byte>)
    | InFlight(ticket: nat)
    | Ended

  datatype Connection = Connection(stream: seq<byte>, pos: nat, control: Control)

  datatype Admission = Admission(connection: nat, frame: Frame, plaintext: seq<byte>, now: u64)

  /** The shared state. `accepted`, `published` and `dropped` are history: what the guard accepted, and the
      tickets of what became of it. */
  datatype State = State(
    vault: Vault,
    devices: Devices,
    connections: seq<Connection>,
    readings: seq<Reading>,
    events: seq<SecurityEvent>,
    accepted: seq<Admission>,
    published: seq<nat>,
    dropped: seq<nat>)

  datatype Step =
    | Seal(key: Sealed, plaintext: seq<byte>)
    | Connect
    | Send(c: nat, bytes: seq<byte>)
    | Read(c: nat)
    | Disconnect(c: nat)
    | Verify(c: nat)
    | Check(c: nat, now: u64)
    | Publish(c: nat)

  function Start(): State {
    State(map[], map[], [], [], [], [], [], [])
  }

  function Moved(s: State, c: nat, to: Control): seq<Connection>
    requires c < |s.connections|
  {
    s.connections[c := s.connections[c].(control := to)]
  }

  function AfterVerify(registry: DeviceRegistry, s: State, c: nat): Option<State>
    requires c < |s.connections|
  {
    var conn := s.connections[c];
    if !conn.control.Framed? then None else
      match Authenticate(registry, s.vault, conn.control.raw)
      case Refused(event) => Some(s.(connections := Moved(s, c, Receiving), events := s.events + [event]))
      case Authentic(frame, plaintext) => Some(s.(connections := Moved(s, c, Verified(frame, plaintext))))
  }

  function AfterCheck(s: State, c: nat, now: u64): Option<State>
    requires c < |s.connections|
  {
    var conn := s.connections[c];
    if !conn.control.Verified? then None else
      var frame := conn.control.frame;
      var d := DeliveryOf(frame);
      match VerdictOn(s.devices, now, d)
      case Rejected(e) =>
        Some(s.(connections := Moved(s, c, Receiving), events := s.events + [ReplayDetected(frame.deviceId, e)]))
      case Fresh =>
        Some(s.(devices := Checked(s.devices, now, d),
                connections := Moved(s, c, InFlight(|s.accepted|)),
                accepted := s.accepted + [Admission(c, frame, conn.control.plaintext, now)]))
  }

  function AfterRead(s: State, c: nat): Option<State>
    requires c < |s.connections|
  {
    var conn := s.connections[c];
    if !conn.control.Receiving? || conn.pos > |conn.stream| then None else
      match ReadNext(conn.stream, conn.pos)
      case NeedHeader => None
      case NeedBody => None
      case BadMagic =>
        Some(s.(connections := s.connections[c := conn.(pos := conn.pos + HEADER_SIZE)],
                events := s.events + [MagicInvalid]))
      case TooLarge(payloadLen) =>
        Some(s.(connections := Moved(s, c, Ended), events := s.events + [PayloadRefused(payloadLen)]))
      case Complete(raw) =>
        Some(s.(connections := s.connections[c := conn.(pos := conn.pos + |raw|, control := Framed(raw))]))
  }

  function AfterPublish(s: State, c: nat): Option<State>
    requires c < |s.connections|
  {
    var conn := s.connections[c];
    if !conn.control.InFlight? || conn.control.ticket >= |s.accepted| then None else
      var t := conn.control.ticket;
      match ReadingOf(s.accepted[t].frame, s.accepted[t].plaintext)
      case None => Some(s.(connections := Moved(s, c, Receiving), dropped := s.dropped + [t]))
      case Some(reading) =>
        Some(s.(connections := Moved(s, c, Receiving), readings := s.readings + [reading],
                published := s.published + [t]))
  }

  /** The handler waits for bytes; only then does it notice that its peer has gone. */
  predicate Blocked(conn: Connection) {
    conn.control.Receiving? && conn.pos <= |conn.stream|
    && (ReadNext(conn.stream, conn.pos).NeedHeader? || ReadNext(conn.stream, conn.pos).NeedBody?)
  }

  /** The state after a step, if the step can be taken. */
  function Next(registry: DeviceRegistry, s: State, step: Step): Option<State> {
    match step
    case Seal(key, plaintext) =>
      if key in s.vault || |key.ciphertext| != |plaintext| + AUTH_TAG_SIZE then None
      else Some(s.(vault := s.vault[key := plaintext]))
    case Connect => Some(s.(connections := s.connections + [Connection([], 0, Receiving)]))
    case Send(c, bytes) =>
      if c >= |s.connections| || s.connections[c].control.Ended? then None
      else Some(s.(connections := s.connections[c := s.connections[c].(stream := s.connections[c].stream + bytes)]))
    case Read(c) => if c >= |s.connections| then None else AfterRead(s, c)
    case Disconnect(c) =>
      if c >= |s.connections| || !Blocked(s.connections[c]) then None
      else Some(s.(connections := Moved(s, c, Ended)))
    case Verify(c) => if c >= |s.connections| then None else AfterVerify(registry, s, c)
    case Check(c, now) => if c >= |s.connections| then None else AfterCheck(s, c, now)
    case Publish(c) => if c >= |s.connections| then None else AfterPublish(s, c)
  }

  function Exec(registry: DeviceRegistry, steps: seq<Step>): Option<State> {
    if steps == [] then Some(Start()) else
      match Exec(registry, steps[..|steps| - 1])
      case None => None
      case Some(s) => Next(registry, s, steps[|steps| - 1])
  }

  ghost predicate Reachable(registry: DeviceRegistry, s: State) {
    exists steps :: Exec(registry, steps) == Some(s)
  }

  /** The step accepts a frame. */
  predicate Admits(s: State, step: Step) {
    && step.Check? && step.c < |s.connections| && s.connections[step.c].control.Verified?
    && VerdictOn(s.devices, step.now, DeliveryOf(s.connections[step.c].control.frame)).Fresh?
  }

  /** What a connection's handler holds, as far as acceptance is concerned. */
  predicate SameBurden(a: Control, b: Control) {
    a == b || (!a.InFlight? && !b.InFlight?)
  }

  /** Every other step but publishing leaves the guard, the acceptances and the log alone. */
  ghost predicate Quiet(s: State, s': State) {
    && s'.devices == s.devices && s'.readings == s.readings
    && s'.accepted == s.accepted && s'.published == s.published && s'.dropped == s.dropped
    && |s.connections| <= |s'.connections|
    && (forall c :: 0 <= c < |s.connections| ==> SameBurden(s.connections[c].control, s'.connections[c].control))
    && (forall c :: |s.connections| <= c < |s'.connections| ==> s'.connections[c].control == Receiving)
  }

  lemma QuietStep(registry: DeviceRegistry, s: State, step: Step)
    requires Next(registry, s, step).Some? && !Admits(s, step) && !step.Publish?
    ensures Quiet(s, Next(registry, s, step).value)
  {
    hide Authenticate, VerdictOn, ReadingOf, ReadNext, Checked;
  }

  // ---------- invariant: everything past the tag check was sealed by a key holder ----------

  ghost predicate Backed(registry: DeviceRegistry, vault: Vault, frame: Frame, plaintext: seq<byte>) {
    && frame.Supported()
    && SealedOf(frame) in vault && vault[SealedOf(frame)] == plaintext
    && registry.IsAllowed(frame.deviceId)
  }

  ghost predicate AllBacked(registry: DeviceRegistry, s: State) {
    && (forall c :: 0 <= c < |s.connections| && s.connections[c].control.Verified? ==>
          Backed(registry, s.vault, s.connections[c].control.frame, s.connections[c].control.plaintext))
    && (forall t :: 0 <= t < |s.accepted| ==> Backed(registry, s.vault, s.accepted[t].frame, s.accepted[t].plaintext))
  }

  lemma AuthenticIsBacked(registry: DeviceRegistry, vault: Vault, raw: seq<byte>)
    ensures var a := Authenticate(registry, vault, raw);
            a.Authentic? ==> Backed(registry, vault, a.frame, a.plaintext)
  {
  }

  /** How a step can change what is known to be sealed: the vault grows, and a handler that holds a verified
      frame either held it before or has just verified it. */
  ghost predicate VerifiedFromVault(registry: DeviceRegistry, s: State, s': State) {
    && (forall k :: k in s.vault ==> k in s'.vault && s'.vault[k] == s.vault[k])
    && (forall c :: 0 <= c < |s'.connections| && s'.connections[c].control.Verified? ==>
          || (c < |s.connections| && s'.connections[c].control == s.connections[c].control)
          || Backed(registry, s.vault, s'.connections[c].control.frame, s'.connections[c].control.plaintext))
  }

  lemma VerifiedRead(registry: DeviceRegistry, s: State, c: nat)
    requires c < |s.connections| && AfterRead(s, c).Some?
    ensures VerifiedFromVault(registry, s, AfterRead(s, c).value)
  {
    hide Backed, ReadNext;
  }

  lemma VerifiedVerify(registry: DeviceRegistry, s: State, c: nat)
    requires c < |s.connections| && AfterVerify(registry, s, c).Some?
    ensures VerifiedFromVault(registry, s, AfterVerify(registry, s, c).value)
  {
    hide Backed, Authenticate;
    AuthenticIsBacked(registry, s.vault, s.connections[c].control.raw);
  }

  lemma VerifiedCheck(registry: DeviceRegistry, s: State, c: nat, now: u64)
    requires c < |s.connections| && AfterCheck(s, c, now).Some?
    ensures VerifiedFromVault(registry, s, AfterCheck(s, c, now).value)
  {
    hide Backed, VerdictOn, Checked;
  }

  lemma VerifiedPublish(registry: DeviceRegistry, s: State, c: nat)
    requires c < |s.connections| && AfterPublish(s, c).Some?
    ensures VerifiedFromVault(registry, s, AfterPublish(s, c).value)
  {
    hide Backed, ReadingOf;
  }

  lemma VerifiedStep(registry: DeviceRegistry, s: State, step: Step)
    requires Next(registry, s, step).Some?
    ensures VerifiedFromVault(registry, s, Next(registry, s, step).value)
  {
    hide Backed, AfterRead, AfterVerify, AfterCheck, AfterPublish;
    match step
    case Read(c) => VerifiedRead(registry, s, c);
    case Verify(c) => VerifiedVerify(registry, s, c);
    case Check(c, now) => VerifiedCheck(registry, s, c, now);
    case Publish(c) => VerifiedPublish(registry, s, c);
    case _ =>
  }

  lemma BackedPersists(registry: DeviceRegistry, s: State, s': State)
    requires AllBacked(registry, s) && VerifiedFromVault(registry, s, s')
    requires s'.accepted == s.accepted
          || (|s'.accepted| == |s.accepted| + 1 && s'.accepted[..|s.accepted|] == s.accepted
              && Backed(registry, s.vault, s'.accepted[|s.accepted|].frame, s'.accepted[|s.accepted|].plaintext))
    ensures AllBacked(registry, s')
  {
  }

  lemma BackedStep(registry: DeviceRegistry, s: State, step: Step)
    requires AllBacked(registry, s) && Next(registry, s, step).Some?
    ensures AllBacked(registry, Next(registry, s, step).value)
  {
    var s' := Next(registry, s, step).value;
    VerifiedStep(registry, s, step);
    if !Admits(s, step) && !step.Publish? {
      QuietStep(registry, s, step);
    }
    BackedPersists(registry, s, s');
  }

  // ---------- invariant: the guard's bounded state is that of the acceptances ----------

  function AcceptedFrom(items: seq<Admission>, id: u32): History {
    if items == [] then [] else
      var last := items[|items| - 1];
      AcceptedFrom(items[..|items| - 1], id)
      + if last.frame.deviceId == id then [Accept(last.now, DeliveryOf(last.frame))] else []
  }

  ghost predicate GuardAgrees(devices: Devices, items: seq<Admission>) {
    forall id: u32 :: Lookup(devices, id) == StateOf(AcceptedFrom(items, id))
  }

  /** Numbers of one device never repeat or fall back, zero excepted. */
  ghost predicate NumbersRise(items: seq<Admission>) {
    forall i, j :: 0 <= i < j < |items| && items[i].frame.deviceId == items[j].frame.deviceId ==>
      items[i].frame.sequenceNr == 0 || items[i].frame.sequenceNr < items[j].frame.sequenceNr
  }

  ghost predicate Carries(h: History, nr: u32) {
    exists k :: 0 <= k < |h| && h[k].sequenceNr == nr
  }

  ghost predicate Admitted(items: seq<Admission>, id: u32, nr: u32) {
    exists i :: 0 <= i < |items| && items[i].frame.deviceId == id && items[i].frame.sequenceNr == nr
  }

  lemma CarriesAppend(h: History, a: Acceptance, nr: u32)
    ensures Carries(h + [a], nr) <==> Carries(h, nr) || a.sequenceNr == nr
  {
    var h' := h + [a];
    assert h'[|h|] == a;
    if Carries(h, nr) {
      var k :| 0 <= k < |h| && h[k].sequenceNr == nr;
      assert h'[k].sequenceNr == nr;
    }
  }

  lemma AdmittedLast(items: seq<Admission>, id: u32, nr: u32)
    requires items != []
    ensures Admitted(items, id, nr) <==>
              || Admitted(items[..|items| - 1], id, nr)
              || (items[|items| - 1].frame.deviceId == id && items[|items| - 1].frame.sequenceNr == nr)
  {
  }

  lemma {:induction false} HistoryCarries(items: seq<Admission>, id: u32, nr: u32)
    ensures Carries(AcceptedFrom(items, id), nr) <==> Admitted(items, id, nr)
  {
    if items != [] {
      var n := |items| - 1;
      var h := AcceptedFrom(items[..n], id);
      HistoryCarries(items[..n], id, nr);
      AdmittedLast(items, id, nr);
      CarriesAppend(h, Accept(items[n].now, DeliveryOf(items[n].frame)), nr);
      assert h + [] == h;
    }
  }

  lemma {:induction false} HistoryRises(items: seq<Admission>, id: u32)
    requires NumbersRise(items)
    ensures ZerosThenIncreasing(AcceptedFrom(items, id))
  {
    if items != [] {
      var n := |items| - 1;
      var h := AcceptedFrom(items[..n], id);
      HistoryRises(items[..n], id);
      if items[n].frame.deviceId == id {
        forall k | 0 <= k < |h|
          ensures h[k].sequenceNr == 0 || h[k].sequenceNr < items[n].frame.sequenceNr
        {
          assert Carries(h, h[k].sequenceNr);
          HistoryCarries(items[..n], id, h[k].sequenceNr);
          var i :| 0 <= i < n && items[..n][i].frame.deviceId == id
            && items[..n][i].frame.sequenceNr == h[k].sequenceNr;
          assert items[i] == items[..n][i];
        }
      }
    }
  }

  ghost predicate GuardInvariant(devices: Devices, items: seq<Admission>) {
    GuardAgrees(devices, items) && NumbersRise(items)
  }

  lemma FreshNumbersRise(items: seq<Admission>, item: Admission)
    requires NumbersRise(items) && IsFresh(AcceptedFrom(items, item.frame.deviceId), item.now, DeliveryOf(item.frame))
    ensures NumbersRise(items + [item])
  {
    var id := item.frame.deviceId;
    var h := AcceptedFrom(items, id);
    forall i | 0 <= i < |items| && items[i].frame.deviceId == id
      ensures items[i].frame.sequenceNr == 0 || items[i].frame.sequenceNr < item.frame.sequenceNr
    {
      assert Admitted(items, id, items[i].frame.sequenceNr);
      HistoryCarries(items, id, items[i].frame.sequenceNr);
      var k :| 0 <= k < |h| && h[k].sequenceNr == items[i].frame.sequenceNr;
    }
  }

  lemma AgreesAfterAcceptance(devices: Devices, items: seq<Admission>, item: Admission)
    requires GuardAgrees(devices, items)
    ensures var id, d := item.frame.deviceId, DeliveryOf(item.frame);
            GuardAgrees(devices[id := Remember(Lookup(devices, id), d)], items + [item])
  {
    var id := item.frame.deviceId;
    var h := AcceptedFrom(items, id);
    RememberExtends(h, item.now, DeliveryOf(item.frame));
    assert (items + [item])[..|items|] == items;
    forall other: u32 | other != id
      ensures AcceptedFrom(items + [item], other) == AcceptedFrom(items, other)
    {
    }
  }

  lemma AcceptanceKeepsGuard(devices: Devices, items: seq<Admission>, item: Admission)
    requires GuardInvariant(devices, items) && VerdictOn(devices, item.now, DeliveryOf(item.frame)).Fresh?
    ensures GuardInvariant(Checked(devices, item.now, DeliveryOf(item.frame)), items + [item])
  {
    HistoryRises(items, item.frame.deviceId);
    ChecksDecideFreshness(devices, AcceptedFrom(items, item.frame.deviceId), item.now, DeliveryOf(item.frame));
    FreshNumbersRise(items, item);
    AgreesAfterAcceptance(devices, items, item);
  }

  lemma GuardStep(registry: DeviceRegistry, s: State, step: Step)
    requires GuardInvariant(s.devices, s.accepted) && Next(registry, s, step).Some?
    ensures var s' := Next(registry, s, step).value; GuardInvariant(s'.devices, s'.accepted)
  {
    if Admits(s, step) {
      var control := s.connections[step.c].control;
      AcceptanceKeepsGuard(s.devices, s.accepted, Admission(step.c, control.frame, control.plaintext, step.now));
    } else if !step.Publish? {
      QuietStep(registry, s, step);
    }
  }

  // ---------- invariant: every acceptance is published, dropped, or in flight, exactly once ----------

  /** Whether a handler has ticket `t` in flight, or any ticket when none is named. */
  function Held(control: Control, t: Option<nat>): nat {
    if control.InFlight? && (t == None || t == Some(control.ticket)) then 1 else 0
  }

  function Flying(connections: seq<Connection>, t: Option<nat>): nat {
    if connections == [] then 0 else
      Flying(connections[..|connections| - 1], t) + Held(connections[|connections| - 1].control, t)
  }

  function Copies(tickets: seq<nat>, t: nat): nat {
    multiset(tickets)[t]
  }

  ghost predicate Accounted(s: State, t: nat) {
    Copies(s.published, t) + Copies(s.dropped, t) + Flying(s.connections, Some(t)) == if t < |s.accepted| then 1 else 0
  }

  /** Each ticket issued is in exactly one place, once, and no other ticket exists. */
  ghost predicate Conserved(s: State) {
    && (forall t: nat :: Accounted(s, t))
    && |s.accepted| == |s.published| + |s.dropped| + Flying(s.connections, None)
  }

  lemma {:induction false} FlyingUpdate(connections: seq<Connection>, c: nat, conn: Connection, t: Option<nat>)
    requires c < |connections|
    ensures Flying(connections[c := conn], t) + Held(connections[c].control, t)
         == Flying(connections, t) + Held(conn.control, t)
  {
    var n := |connections| - 1;
    var updated := connections[c := conn];
    if c < n {
      assert updated[..n] == connections[..n][c := conn] && updated[n] == connections[n];
      FlyingUpdate(connections[..n], c, conn, t);
    } else {
      assert updated[..n] == connections[..n];
    }
  }

  lemma {:induction false} FlyingSame(a: seq<Connection>, b: seq<Connection>, t: Option<nat>)
    requires |a| <= |b|
    requires forall c :: 0 <= c < |a| ==> SameBurden(a[c].control, b[c].control)
    requires forall c :: |a| <= c < |b| ==> b[c].control == Receiving
    ensures Flying(a, t) == Flying(b, t)
    decreases |b|
  {
    if b != [] {
      var n := |b| - 1;
      if |a| == |b| {
        FlyingSame(a[..n], b[..n], t);
      } else {
        FlyingSame(a, b[..n], t);
      }
    }
  }

  lemma CopiesAppend(tickets: seq<nat>, x: nat, t: nat)
    ensures Copies(tickets + [x], t) == Copies(tickets, t) + (if x == t then 1 else 0)
  {
  }

  lemma ConservedCheck(s: State, step: Step)
    requires Conserved(s) && Admits(s, step)
    ensures Conserved(AfterCheck(s, step.c, step.now).value)
  {
    var s' := AfterCheck(s, step.c, step.now).value;
    var conn := s.connections[step.c].(control := InFlight(|s.accepted|));
    FlyingUpdate(s.connections, step.c, conn, None);
    forall t: nat
      ensures Accounted(s', t)
    {
      assert Accounted(s, t);
      FlyingUpdate(s.connections, step.c, conn, Some(t));
    }
  }

  lemma ConservedPublish(s: State, c: nat)
    requires Conserved(s) && c < |s.connections| && AfterPublish(s, c).Some?
    ensures Conserved(AfterPublish(s, c).value)
  {
    var s' := AfterPublish(s, c).value;
    var conn := s.connections[c].(control := Receiving);
    var x := s.connections[c].control.ticket;
    FlyingUpdate(s.connections, c, conn, None);
    forall t: nat
      ensures Accounted(s', t)
    {
      assert Accounted(s, t);
      FlyingUpdate(s.connections, c, conn, Some(t));
      CopiesAppend(s.published, x, t);
      CopiesAppend(s.dropped, x, t);
    }
  }

  lemma ConservedQuiet(s: State, s': State)
    requires Conserved(s) && Quiet(s, s')
    ensures Conserved(s')
  {
    FlyingSame(s.connections, s'.connections, None);
    forall t: nat
      ensures Accounted(s', t)
    {
      assert Accounted(s, t);
      FlyingSame(s.connections, s'.connections, Some(t));
    }
  }

  lemma ConservedStep(registry: DeviceRegistry, s: State, step: Step)
    requires Conserved(s) && Next(registry, s, step).Some?
    ensures Conserved(Next(registry, s, step).value)
  {
    if Admits(s, step) {
      ConservedCheck(s, step);
    } else if step.Publish? {
      ConservedPublish(s, step.c);
    } else {
      QuietStep(registry, s, step);
      ConservedQuiet(s, Next(registry, s, step).value);
    }
  }

  // ---------- invariant: what each ticket stands for, and one connection's order ----------

  ghost predicate TicketsKnown(s: State) {
    && (forall i :: 0 <= i < |s.published| ==> s.published[i] < |s.accepted|)
    && (forall c :: 0 <= c < |s.connections| && s.connections[c].control.InFlight? ==>
          s.connections[c].control.ticket < |s.accepted| && s.accepted[s.connections[c].control.ticket].connection == c)
  }

  ghost predicate ReadingsMatch(s: State)
    requires TicketsKnown(s)
  {
    && |s.readings| == |s.published|
    && forall i :: 0 <= i < |s.readings| ==>
         ReadingOf(s.accepted[s.published[i]].frame, s.accepted[s.published[i]].plaintext) == Some(s.readings[i])
  }

  /** The connection whose frame was published `i`th. */
  ghost function Publisher(s: State, i: nat): nat
    requires TicketsKnown(s) && i < |s.published|
  {
    s.accepted[s.published[i]].connection
  }

  ghost predicate AheadOfFlight(s: State, i: nat)
    requires TicketsKnown(s) && i < |s.published|
  {
    var c := Publisher(s, i);
    c < |s.connections| && (s.connections[c].control.InFlight? ==> s.published[i] < s.connections[c].control.ticket)
  }

  /** A connection publishes in the order of its acceptances, and its frame in flight is its latest. */
  ghost predicate ConnectionOrder(s: State)
    requires TicketsKnown(s)
  {
    && (forall i, j :: 0 <= i < j < |s.published| && Publisher(s, i) == Publisher(s, j) ==>
          s.published[i] < s.published[j])
    && (forall i :: 0 <= i < |s.published| ==> AheadOfFlight(s, i))
  }

  ghost predicate LogInvariant(s: State) {
    TicketsKnown(s) && ReadingsMatch(s) && ConnectionOrder(s)
  }

  /** A handler that has let go of its frame, with the log as it was. */
  lemma LogRelease(s: State, c: nat)
    requires LogInvariant(s) && c < |s.connections|
    ensures LogInvariant(s.(connections := Moved(s, c, Receiving)))
  {
    var s' := s.(connections := Moved(s, c, Receiving));
    assert TicketsKnown(s');
    forall i | 0 <= i < |s.published|
      ensures Publisher(s', i) == Publisher(s, i) && AheadOfFlight(s', i)
    {
      assert AheadOfFlight(s, i);
    }
  }

  /** Publishing a ticket that is ahead of everything its connection published before. */
  lemma LogAppend(s: State, t: nat, reading: Reading)
    requires LogInvariant(s) && t < |s.accepted|
    requires ReadingOf(s.accepted[t].frame, s.accepted[t].plaintext) == Some(reading)
    requires s.accepted[t].connection < |s.connections| && !s.connections[s.accepted[t].connection].control.InFlight?
    requires forall i :: 0 <= i < |s.published| && Publisher(s, i) == s.accepted[t].connection ==> s.published[i] < t
    ensures LogInvariant(s.(readings := s.readings + [reading], published := s.published + [t]))
  {
    hide ReadingOf;
    var s' := s.(readings := s.readings + [reading], published := s.published + [t]);
    assert TicketsKnown(s');
    forall i | 0 <= i < |s.published|
      ensures Publisher(s', i) == Publisher(s, i) && AheadOfFlight(s', i)
    {
      assert AheadOfFlight(s, i);
    }
    assert Publisher(s', |s.published|) == s.accepted[t].connection;
  }

  lemma LogQuietDropped(s: State, dropped: seq<nat>)
    requires LogInvariant(s)
    ensures LogInvariant(s.(dropped := dropped))
  {
    var s' := s.(dropped := dropped);
    assert TicketsKnown(s');
    forall i | 0 <= i < |s.published|
      ensures Publisher(s', i) == Publisher(s, i) && AheadOfFlight(s', i)
    {
      assert AheadOfFlight(s, i);
    }
  }

  lemma LogPublish(s: State, c: nat)
    requires LogInvariant(s) && c < |s.connections| && AfterPublish(s, c).Some?
    ensures LogInvariant(AfterPublish(s, c).value)
  {
    hide ReadingOf;
    var t := s.connections[c].control.ticket;
    var released := s.(connections := Moved(s, c, Receiving));
    LogRelease(s, c);
    match ReadingOf(s.accepted[t].frame, s.accepted[t].plaintext)
    case None =>
      assert LogInvariant(released.(dropped := s.dropped + [t])) by {
        LogQuietDropped(released, s.dropped + [t]);
      }
    case Some(reading) =>
      forall i | 0 <= i < |s.published| && Publisher(released, i) == c
        ensures s.published[i] < t
      {
        assert AheadOfFlight(s, i);
      }
      LogAppend(released, t, reading);
  }

  lemma LogCheck(s: State, step: Step)
    requires LogInvariant(s) && Admits(s, step)
    ensures LogInvariant(AfterCheck(s, step.c, step.now).value)
  {
    var s' := AfterCheck(s, step.c, step.now).value;
    assert TicketsKnown(s');
    forall i | 0 <= i < |s.published|
      ensures Publisher(s', i) == Publisher(s, i) && AheadOfFlight(s', i)
    {
      assert AheadOfFlight(s, i);
    }
  }

  lemma LogQuiet(s: State, s': State)
    requires LogInvariant(s) && Quiet(s, s')
    ensures LogInvariant(s')
  {
    forall c | 0 <= c < |s'.connections| && s'.connections[c].control.InFlight?
      ensures c < |s.connections| && s.connections[c].control == s'.connections[c].control
    {
      assert c < |s.connections| ==> SameBurden(s.connections[c].control, s'.connections[c].control);
    }
    assert TicketsKnown(s');
    forall i | 0 <= i < |s.published|
      ensures Publisher(s', i) == Publisher(s, i) && AheadOfFlight(s', i)
    {
      assert AheadOfFlight(s, i);
    }
  }

  lemma LogStep(registry: DeviceRegistry, s: State, step: Step)
    requires LogInvariant(s) && Next(registry, s, step).Some?
    ensures LogInvariant(Next(registry, s, step).value)
  {
    if Admits(s, step) {
      LogCheck(s, step);
    } else if step.Publish? {
      LogPublish(s, step.c);
    } else {
      QuietStep(registry, s, step);
      LogQuiet(s, Next(registry, s, step).value);
    }
  }

  // ---------- the invariant holds in every reachable state ----------

  ghost predicate Invariant(registry: DeviceRegistry, s: State) {
    && AllBacked(registry, s)
    && GuardInvariant(s.devices, s.accepted)
    && Conserved(s)
    && LogInvariant(s)
  }

  lemma InvariantStep(registry: DeviceRegistry, s: State, step: Step)
    requires Invariant(registry, s) && Next(registry, s, step).Some?
    ensures Invariant(registry, Next(registry, s, step).value)
  {
    BackedStep(registry, s, step);
    GuardStep(registry, s, step);
    ConservedStep(registry, s, step);
    LogStep(registry, s, step);
  }

  lemma InvariantAtStart(registry: DeviceRegistry)
    ensures Invariant(registry, Start())
  {
  }

  lemma {:induction false} InvariantHolds(registry: DeviceRegistry, steps: seq<Step>)
    requires Exec(registry, steps).Some?
    ensures Invariant(registry, Exec(registry, steps).value)
  {
    if steps == [] {
      InvariantAtStart(registry);
    } else {
      var n := |steps| - 1;
      InvariantHolds(registry, steps[..n]);
      InvariantStep(registry, Exec(registry, steps[..n]).value, steps[n]);
    }
  }

  lemma ReachableInvariant(registry: DeviceRegistry, s: State)
    requires Reachable(registry, s)
    ensures Invariant(registry, s)
  {
    var steps :| Exec(registry, steps) == Some(s);
    InvariantHolds(registry, steps);
  }
}
