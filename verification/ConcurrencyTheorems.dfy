/** What holds of the gateway in every reachable state, over every interleaving. */
module ConcurrencyTheorems {
  import opened Words
  import opened Frames
  import opened Framing
  import opened Replay
  import opened Registry
  import opened Gateway
  import opened Concurrency
  import SensorPayloads

  // ---------- authenticity ----------

  /** A key holder sealed this reading: its header names the device, number and time, and its plaintext
      begins with the printed sensor type, value and unit. */
  ghost predicate SealedByKeyHolder(vault: Vault, k: Sealed, reading: Reading) {
    && k in vault
    && 16 <= |k.ciphertext|
    && k.aad == Header(0x01, reading.deviceId, reading.sequenceNr, reading.timestamp,
                       |k.ciphertext| - 16, k.nonce)
    && 8 <= |vault[k]|
    && vault[k][..8]
       == SensorPayloads.SensorPayload(reading.sensorType, reading.valueRaw, reading.unit).Print()
  }

  lemma BackedReading(registry: DeviceRegistry, vault: Vault, frame: Frame, plaintext: seq<byte>, reading: Reading)
    requires Backed(registry, vault, frame, plaintext) && ReadingOf(frame, plaintext) == Some(reading)
    ensures SealedByKeyHolder(vault, SealedOf(frame), reading) && registry.IsAllowed(reading.deviceId)
  {
    hide Header;
    SensorPayloads.PrintParse(plaintext);
  }

  /** Whatever the peers send, in any number of connections and any interleaving, every published reading
      was sealed by a key holder, for an allowed device. */
  lemma PublishedReadingsAuthentic(registry: DeviceRegistry, s: State, i: nat)
    requires Reachable(registry, s) && i < |s.readings|
    ensures exists k :: SealedByKeyHolder(s.vault, k, s.readings[i])
    ensures registry.IsAllowed(s.readings[i].deviceId)
  {
    hide SealedByKeyHolder, Backed, ReadingOf, GuardInvariant, Conserved, ConnectionOrder;
    ReachableInvariant(registry, s);
    var item := s.accepted[s.published[i]];
    BackedReading(registry, s.vault, item.frame, item.plaintext, s.readings[i]);
  }

  // ---------- at most once ----------

  /** The tickets of two publications differ. */
  lemma PublishedTicketsDiffer(registry: DeviceRegistry, s: State, i: nat, j: nat)
    requires Invariant(registry, s) && i < j < |s.published|
    ensures s.published[i] != s.published[j]
  {
  }

  /** No device's number is published twice, the sentinel zero excepted. */
  lemma AtMostOnce(registry: DeviceRegistry, s: State, i: nat, j: nat)
    requires Reachable(registry, s) && i < j < |s.readings|
    requires s.readings[i].deviceId == s.readings[j].deviceId && s.readings[i].sequenceNr == s.readings[j].sequenceNr
    ensures s.readings[i].sequenceNr == 0
  {
    ReachableInvariant(registry, s);
    PublishedTicketsDiffer(registry, s, i, j);
    var p, q := s.published[i], s.published[j];
    assert s.accepted[p].frame.deviceId == s.accepted[q].frame.deviceId;
  }

  // ---------- conservation ----------

  lemma {:induction false} AtMostOneEach(connections: seq<Connection>)
    ensures Flying(connections, None) <= |connections|
  {
    if connections != [] {
      AtMostOneEach(connections[..|connections| - 1]);
    }
  }

  /** Accepted frames are the published readings, the frames dropped for a bad payload and the frames in
      flight, each counted once; a dropped or published frame is one the guard accepted. */
  lemma AcceptancesConserved(registry: DeviceRegistry, s: State)
    requires Reachable(registry, s)
    ensures |s.accepted| == |s.readings| + |s.dropped| + Flying(s.connections, None)
    ensures Flying(s.connections, None) <= |s.connections|
    ensures forall t: nat :: t < |s.accepted| ==>
              (if t in s.published then 1 else 0) + (if t in s.dropped then 1 else 0)
              + Flying(s.connections, Some(t)) == 1
    ensures forall t :: t in s.published || t in s.dropped ==> t < |s.accepted|
  {
    ReachableInvariant(registry, s);
    AtMostOneEach(s.connections);
    forall t: nat
      ensures t < |s.accepted| ==>
        (if t in s.published then 1 else 0) + (if t in s.dropped then 1 else 0) + Flying(s.connections, Some(t)) == 1
      ensures t in s.published || t in s.dropped ==> t < |s.accepted|
    {
      assert Accounted(s, t);
      assert t in s.published <==> t in multiset(s.published);
      assert t in s.dropped <==> t in multiset(s.dropped);
    }
  }

  // ---------- order ----------

  /** The connection that published the `i`th reading. */
  function PublishedBy(s: State, i: nat): Option<nat> {
    if i < |s.published| && s.published[i] < |s.accepted| then Some(s.accepted[s.published[i]].connection) else None
  }

  /** One connection's readings of a device come out in strictly increasing number, zeros excepted. */
  lemma ConnectionInOrder(registry: DeviceRegistry, s: State, i: nat, j: nat)
    requires Reachable(registry, s) && i < j < |s.readings|
    requires PublishedBy(s, i) == PublishedBy(s, j)
    requires s.readings[i].deviceId == s.readings[j].deviceId && s.readings[i].sequenceNr >= 1
    ensures s.readings[i].sequenceNr < s.readings[j].sequenceNr
  {
    ReachableInvariant(registry, s);
    var p, q := s.published[i], s.published[j];
    assert Publisher(s, i) == Publisher(s, j);
    assert s.accepted[p].frame.deviceId == s.accepted[q].frame.deviceId;
  }

  /** One device's readings stand in the log in increasing number, zeros first. */
  ghost predicate DeviceLogSorted(s: State, id: u32) {
    forall i, j :: 0 <= i < j < |s.readings| && s.readings[i].deviceId == id && s.readings[j].deviceId == id ==>
      s.readings[i].sequenceNr == 0 || s.readings[i].sequenceNr < s.readings[j].sequenceNr
  }

  lemma PublishedReading(s: State, i: nat)
    requires LogInvariant(s) && i < |s.readings|
    ensures i < |s.published| && s.published[i] < |s.accepted|
    ensures var frame := s.accepted[s.published[i]].frame;
            s.readings[i].deviceId == frame.deviceId && s.readings[i].sequenceNr == frame.sequenceNr
  {
  }

  lemma TicketOrder(registry: DeviceRegistry, s: State, i: nat, j: nat)
    requires Invariant(registry, s) && i < j < |s.readings|
    requires s.readings[i].deviceId == s.readings[j].deviceId && s.readings[i].sequenceNr >= 1
    ensures s.readings[i].sequenceNr < s.readings[j].sequenceNr <==> s.published[i] < s.published[j]
  {
    hide LogInvariant, Conserved, AllBacked, GuardAgrees;
    PublishedReading(s, i);
    PublishedReading(s, j);
    PublishedTicketsDiffer(registry, s, i, j);
  }

  /** Two readings of a device stand in the order of their numbers exactly when they were published in the
      order in which the guard accepted them. */
  lemma LogOrderIsAcceptanceOrder(registry: DeviceRegistry, s: State, i: nat, j: nat)
    requires Reachable(registry, s) && i < j < |s.readings|
    requires s.readings[i].deviceId == s.readings[j].deviceId && s.readings[i].sequenceNr >= 1
    ensures |s.published| == |s.readings|
    ensures s.readings[i].sequenceNr < s.readings[j].sequenceNr <==> s.published[i] < s.published[j]
  {
    ReachableInvariant(registry, s);
    TicketOrder(registry, s, i, j);
  }

  /** No numbered reading of the device was published with a ticket above `t`. */
  ghost predicate NoneAhead(s: State, id: u32, t: nat) {
    forall k ::
      0 <= k < |s.readings| && k < |s.published| && s.readings[k].deviceId == id && s.readings[k].sequenceNr >= 1 ==>
        s.published[k] < t
  }

  lemma {:induction false} ReachableStep(registry: DeviceRegistry, s: State, step: Step)
    requires Reachable(registry, s) && Next(registry, s, step).Some?
    ensures Reachable(registry, Next(registry, s, step).value)
  {
    var steps :| Exec(registry, steps) == Some(s);
    assert (steps + [step])[..|steps|] == steps;
    assert Exec(registry, steps + [step]) == Next(registry, s, step);
  }

  lemma SortedAppend(s: State, s': State, reading: Reading)
    requires DeviceLogSorted(s, reading.deviceId) && s'.readings == s.readings + [reading]
    ensures DeviceLogSorted(s', reading.deviceId)
       <==> forall k ::
              0 <= k < |s.readings| && s.readings[k].deviceId == reading.deviceId && s.readings[k].sequenceNr >= 1 ==>
                s.readings[k].sequenceNr < reading.sequenceNr
  {
    var n := |s.readings|;
    if DeviceLogSorted(s', reading.deviceId) {
      forall k | 0 <= k < n && s.readings[k].deviceId == reading.deviceId && s.readings[k].sequenceNr >= 1
        ensures s.readings[k].sequenceNr < reading.sequenceNr
      {
        assert s'.readings[k] == s.readings[k] && s'.readings[n] == reading;
      }
    }
  }

  lemma SameLength(registry: DeviceRegistry, s: State)
    requires Invariant(registry, s)
    ensures |s.readings| == |s.published|
  {
  }

  /** Publishing keeps a device's log in order exactly when no numbered frame of that device that was
      accepted later has been published already. */
  lemma PublishKeepsOrder(registry: DeviceRegistry, s: State, c: nat, t: nat, reading: Reading)
    requires Reachable(registry, s) && c < |s.connections| && s.connections[c].control == InFlight(t)
    requires t < |s.accepted|
    requires ReadingOf(s.accepted[t].frame, s.accepted[t].plaintext) == Some(reading)
    requires DeviceLogSorted(s, reading.deviceId)
    ensures Next(registry, s, Publish(c)).Some?
    ensures DeviceLogSorted(Next(registry, s, Publish(c)).value, reading.deviceId)
       <==> NoneAhead(s, reading.deviceId, t)
  {
    hide ReadingOf, Invariant;
    var s', n := AfterPublish(s, c).value, |s.readings|;
    assert Next(registry, s, Publish(c)) == Some(s');
    ReachableInvariant(registry, s);
    ReachableStep(registry, s, Publish(c));
    ReachableInvariant(registry, s');
    SameLength(registry, s);
    assert s'.readings == s.readings + [reading] && s'.published == s.published + [t];
    forall k | 0 <= k < n && s.readings[k].deviceId == reading.deviceId && s.readings[k].sequenceNr >= 1
      ensures s.readings[k].sequenceNr < reading.sequenceNr <==> s.published[k] < t
    {
      assert s'.readings[k] == s.readings[k] && s'.readings[n] == reading;
      TicketOrder(registry, s', k, n);
    }
    SortedAppend(s, s', reading);
  }

  // ---------- a discipline that keeps the log in order ----------

  ghost predicate InFlightOf(s: State, c: nat, id: u32) {
    && c < |s.connections| && s.connections[c].control.InFlight?
    && s.connections[c].control.ticket < |s.accepted|
    && s.accepted[s.connections[c].control.ticket].frame.deviceId == id
  }

  ghost predicate PublishedOf(s: State, k: nat, id: u32) {
    k < |s.published| && s.published[k] < |s.accepted| && s.accepted[s.published[k]].frame.deviceId == id
  }

  /** A device's tickets are published in order, and at most one is in flight, ahead of all of them. */
  ghost predicate OneAtATime(s: State, id: u32) {
    && (forall i: nat, j: nat :: i < j && PublishedOf(s, i, id) && PublishedOf(s, j, id) ==>
          s.published[i] < s.published[j])
    && (forall c: nat, k: nat :: InFlightOf(s, c, id) && PublishedOf(s, k, id) ==>
          s.published[k] < s.connections[c].control.ticket)
    && (forall c: nat, d: nat :: InFlightOf(s, c, id) && InFlightOf(s, d, id) ==> c == d)
  }

  lemma OneAtATimeCheck(s: State, step: Step, id: u32)
    requires TicketsKnown(s) && OneAtATime(s, id) && Admits(s, step)
    requires s.connections[step.c].control.frame.deviceId == id ==> forall c: nat :: !InFlightOf(s, c, id)
    ensures OneAtATime(AfterCheck(s, step.c, step.now).value, id)
  {
    hide VerdictOn, Checked;
    var s' := AfterCheck(s, step.c, step.now).value;
    assert forall k: nat :: PublishedOf(s', k, id) ==> PublishedOf(s, k, id);
    assert forall c: nat :: InFlightOf(s', c, id) && c != step.c ==> InFlightOf(s, c, id);
  }

  lemma OneAtATimePublish(s: State, c: nat, id: u32)
    requires TicketsKnown(s) && OneAtATime(s, id) && c < |s.connections| && AfterPublish(s, c).Some?
    ensures OneAtATime(AfterPublish(s, c).value, id)
  {
    hide ReadingOf;
    var s' := AfterPublish(s, c).value;
    assert forall d: nat :: InFlightOf(s', d, id) ==> InFlightOf(s, d, id) && d != c;
    forall k: nat | PublishedOf(s', k, id)
      ensures PublishedOf(s, k, id) || (k == |s.published| && InFlightOf(s, c, id))
    {
    }
  }

  lemma OneAtATimeQuiet(s: State, s': State, id: u32)
    requires TicketsKnown(s) && OneAtATime(s, id) && Quiet(s, s')
    ensures OneAtATime(s', id)
  {
    forall c: nat | InFlightOf(s', c, id)
      ensures InFlightOf(s, c, id) && s.connections[c].control == s'.connections[c].control
    {
      assert c < |s.connections| ==> SameBurden(s.connections[c].control, s'.connections[c].control);
    }
    assert forall k: nat :: PublishedOf(s', k, id) ==> PublishedOf(s, k, id);
  }

  lemma OneAtATimeStep(registry: DeviceRegistry, s: State, step: Step, id: u32)
    requires TicketsKnown(s) && OneAtATime(s, id) && Next(registry, s, step).Some?
    requires Admits(s, step) && s.connections[step.c].control.frame.deviceId == id ==>
               forall c: nat :: !InFlightOf(s, c, id)
    ensures OneAtATime(Next(registry, s, step).value, id)
  {
    hide OneAtATime, TicketsKnown, VerdictOn, Authenticate, ReadNext, ReadingOf;
    if Admits(s, step) {
      OneAtATimeCheck(s, step, id);
    } else if step.Publish? {
      OneAtATimePublish(s, step.c, id);
    } else {
      QuietStep(registry, s, step);
      OneAtATimeQuiet(s, Next(registry, s, step).value, id);
    }
  }

  /** In the whole run, no frame of the device is accepted while another of its frames is in flight. */
  ghost predicate Uncontended(registry: DeviceRegistry, steps: seq<Step>, id: u32) {
    forall n :: 0 <= n < |steps| && Exec(registry, steps[..n]).Some? ==>
      var s := Exec(registry, steps[..n]).value;
      Admits(s, steps[n]) && s.connections[steps[n].c].control.frame.deviceId == id ==>
        forall c: nat :: !InFlightOf(s, c, id)
  }

  lemma {:induction false} UncontendedOneAtATime(registry: DeviceRegistry, steps: seq<Step>, id: u32)
    requires Exec(registry, steps).Some? && Uncontended(registry, steps, id)
    ensures OneAtATime(Exec(registry, steps).value, id)
  {
    hide Admits, Next;
    if steps != [] {
      var n := |steps| - 1;
      assert forall m :: 0 <= m < n ==> steps[..n][..m] == steps[..m] && steps[..n][m] == steps[m];
      UncontendedOneAtATime(registry, steps[..n], id);
      InvariantHolds(registry, steps[..n]);
      OneAtATimeStep(registry, Exec(registry, steps[..n]).value, steps[n], id);
    }
  }

  /** If a device's frames are never accepted while another of its frames is still in flight, as when it
      uses one connection at a time, its readings come out in order over all connections. */
  lemma UncontendedLogSorted(registry: DeviceRegistry, steps: seq<Step>, id: u32)
    requires Exec(registry, steps).Some? && Uncontended(registry, steps, id)
    ensures DeviceLogSorted(Exec(registry, steps).value, id)
  {
    var s := Exec(registry, steps).value;
    UncontendedOneAtATime(registry, steps, id);
    InvariantHolds(registry, steps);
    forall i, j | 0 <= i < j < |s.readings| && s.readings[i].deviceId == id && s.readings[j].deviceId == id
      ensures s.readings[i].sequenceNr == 0 || s.readings[i].sequenceNr < s.readings[j].sequenceNr
    {
      PublishedReading(s, i);
      PublishedReading(s, j);
      assert PublishedOf(s, i, id) && PublishedOf(s, j, id);
      if s.readings[i].sequenceNr >= 1 {
        TicketOrder(registry, s, i, j);
      }
    }
  }

  /** Two frames of one device, each of them genuine and acceptable at `now`. */
  ghost predicate GenuinePair(registry: DeviceRegistry, f: Frame, g: Frame, now: u64) {
    && f.Supported() && g.Supported() && |f.encryptedPayload| == 8 && |g.encryptedPayload| == 8
    && f.deviceId == g.deviceId && registry.IsAllowed(f.deviceId)
    && 1 <= f.sequenceNr < g.sequenceNr && f.nonce != g.nonce
    && f.timestamp == now && g.timestamp == now
  }

  function Waiting(f: Frame, plaintext: seq<byte>): Connection {
    Connection(f.Print(), |f.Print()|, Verified(f, plaintext))
  }

  function WithLast(s: State, conn: Connection): State {
    s.(connections := s.connections + [conn])
  }

  lemma ReplaceLast(connections: seq<Connection>, a: Connection, b: Connection)
    ensures (connections + [a])[|connections| := b] == connections + [b]
  {
  }

  lemma ReachConnect(registry: DeviceRegistry, s: State)
    requires Reachable(registry, s)
    ensures Reachable(registry, WithLast(s, Connection([], 0, Receiving)))
  {
    ReachableStep(registry, s, Connect);
  }

  lemma ReachSend(registry: DeviceRegistry, s: State, bytes: seq<byte>)
    requires Reachable(registry, WithLast(s, Connection([], 0, Receiving)))
    ensures Reachable(registry, WithLast(s, Connection(bytes, 0, Receiving)))
  {
    ReachableStep(registry, WithLast(s, Connection([], 0, Receiving)), Send(|s.connections|, bytes));
    assert [] + bytes == bytes;
    ReplaceLast(s.connections, Connection([], 0, Receiving), Connection(bytes, 0, Receiving));
  }

  lemma ReachRead(registry: DeviceRegistry, s: State, f: Frame)
    requires f.Supported() && Reachable(registry, WithLast(s, Connection(f.Print(), 0, Receiving)))
    ensures Reachable(registry, WithLast(s, Connection(f.Print(), |f.Print()|, Framed(f.Print()))))
  {
    ReadPrinted(f.Print(), 0, f);
    ReachableStep(registry, WithLast(s, Connection(f.Print(), 0, Receiving)), Read(|s.connections|));
    ReplaceLast(s.connections, Connection(f.Print(), 0, Receiving),
                Connection(f.Print(), |f.Print()|, Framed(f.Print())));
  }

  lemma ReachVerify(registry: DeviceRegistry, s: State, f: Frame)
    requires f.Supported() && SealedOf(f) in s.vault && registry.IsAllowed(f.deviceId)
    requires Reachable(registry, WithLast(s, Connection(f.Print(), |f.Print()|, Framed(f.Print()))))
    ensures Reachable(registry, WithLast(s, Waiting(f, s.vault[SealedOf(f)])))
  {
    ParsePrint(f, []);
    assert f.Print() + [] == f.Print();
    var framed := Connection(f.Print(), |f.Print()|, Framed(f.Print()));
    ReachableStep(registry, WithLast(s, framed), Verify(|s.connections|));
    ReplaceLast(s.connections, framed, Waiting(f, s.vault[SealedOf(f)]));
  }

  /** A new connection can bring any sealed frame of an allowed device as far as the lock. */
  lemma ReachWaiting(registry: DeviceRegistry, s: State, f: Frame)
    requires Reachable(registry, s)
    requires f.Supported() && SealedOf(f) in s.vault && registry.IsAllowed(f.deviceId)
    ensures Reachable(registry, WithLast(s, Waiting(f, s.vault[SealedOf(f)])))
  {
    ReachConnect(registry, s);
    ReachSend(registry, s, f.Print());
    ReachRead(registry, s, f);
    ReachVerify(registry, s, f);
  }

  function BothWaiting(f: Frame, g: Frame, p: seq<byte>, q: seq<byte>): State {
    Start().(vault := map[SealedOf(f) := p][SealedOf(g) := q], connections := [Waiting(f, p), Waiting(g, q)])
  }

  lemma ReachBothWaiting(registry: DeviceRegistry, f: Frame, g: Frame, p: seq<byte>, q: seq<byte>, now: u64)
    requires GenuinePair(registry, f, g, now) && |p| == 8 && |q| == 8
    ensures Reachable(registry, BothWaiting(f, g, p, q))
  {
    assert Exec(registry, []) == Some(Start());
    ReachableStep(registry, Start(), Seal(SealedOf(f), p));
    var s1 := Start().(vault := map[SealedOf(f) := p]);
    ReachableStep(registry, s1, Seal(SealedOf(g), q));
    var s2 := s1.(vault := s1.vault[SealedOf(g) := q]);
    ReachWaiting(registry, s2, f);
    ReachWaiting(registry, WithLast(s2, Waiting(f, p)), g);
    assert [] + [Waiting(f, p)] + [Waiting(g, q)] == [Waiting(f, p), Waiting(g, q)];
  }

  /** Both handlers pass the locked check, the first one first. */
  function BothInFlight(f: Frame, g: Frame, p: seq<byte>, q: seq<byte>, now: u64): State {
    var s := BothWaiting(f, g, p, q);
    s.(devices := Checked(Checked(map[], now, DeliveryOf(f)), now, DeliveryOf(g)),
       connections := [Waiting(f, p).(control := InFlight(0)), Waiting(g, q).(control := InFlight(1))],
       accepted := [Admission(0, f, p, now), Admission(1, g, q, now)])
  }

  lemma SecondAccepted(f: Frame, g: Frame, now: u64)
    requires f.deviceId == g.deviceId && 1 <= f.sequenceNr < g.sequenceNr
    requires f.nonce != g.nonce && f.timestamp == now && g.timestamp == now
    ensures VerdictOn(map[], now, DeliveryOf(f)).Fresh?
    ensures VerdictOn(Checked(map[], now, DeliveryOf(f)), now, DeliveryOf(g)).Fresh?
  {
  }

  lemma ReachCheck(registry: DeviceRegistry, s: State, c: nat, now: u64)
    requires Reachable(registry, s) && c < |s.connections| && s.connections[c].control.Verified?
    requires VerdictOn(s.devices, now, DeliveryOf(s.connections[c].control.frame)).Fresh?
    ensures var conn := s.connections[c];
            Reachable(registry, s.(devices := Checked(s.devices, now, DeliveryOf(conn.control.frame)),
                                   connections := s.connections[c := conn.(control := InFlight(|s.accepted|))],
                                   accepted := s.accepted
                                     + [Admission(c, conn.control.frame, conn.control.plaintext, now)]))
  {
    ReachableStep(registry, s, Check(c, now));
  }

  lemma ReachBothInFlight(registry: DeviceRegistry, f: Frame, g: Frame, p: seq<byte>, q: seq<byte>, now: u64)
    requires GenuinePair(registry, f, g, now) && Reachable(registry, BothWaiting(f, g, p, q))
    ensures Reachable(registry, BothInFlight(f, g, p, q, now))
  {
    var s := BothWaiting(f, g, p, q);
    SecondAccepted(f, g, now);
    ReachCheck(registry, s, 0, now);
    var s1 := s.(devices := Checked(map[], now, DeliveryOf(f)),
                 connections := [Waiting(f, p).(control := InFlight(0)), Waiting(g, q)],
                 accepted := [Admission(0, f, p, now)]);
    assert s.connections[0 := Waiting(f, p).(control := InFlight(0))] == s1.connections;
    assert [] + [Admission(0, f, p, now)] == s1.accepted;
    ReachCheck(registry, s1, 1, now);
    assert s1.connections[1 := Waiting(g, q).(control := InFlight(1))] == BothInFlight(f, g, p, q, now).connections;
    assert s1.accepted + [Admission(1, g, q, now)] == BothInFlight(f, g, p, q, now).accepted;
  }

  lemma PayloadReads(f: Frame, a: SensorPayloads.SensorPayload)
    ensures ReadingOf(f, a.Print())
         == Some(Reading(f.deviceId, a.sensorType, a.valueRaw, a.unit, f.sequenceNr, f.timestamp))
  {
    SensorPayloads.ParsePrint(a, []);
    assert a.Print() + [] == a.Print();
  }

  lemma ReachPublish(registry: DeviceRegistry, s: State, c: nat, t: nat, reading: Reading)
    requires Reachable(registry, s) && c < |s.connections| && s.connections[c].control == InFlight(t)
    requires t < |s.accepted|
    requires ReadingOf(s.accepted[t].frame, s.accepted[t].plaintext) == Some(reading)
    ensures Reachable(registry, s.(connections := Moved(s, c, Receiving),
                                   readings := s.readings + [reading], published := s.published + [t]))
  {
    hide ReadingOf;
    ReachableStep(registry, s, Publish(c));
  }

  lemma PublishLaterFirst(registry: DeviceRegistry, s: State, first: Reading, second: Reading)
    requires Reachable(registry, s) && s.readings == [] && |s.accepted| == 2 && |s.connections| == 2
    requires s.connections[0].control == InFlight(0) && s.connections[1].control == InFlight(1)
    requires ReadingOf(s.accepted[0].frame, s.accepted[0].plaintext) == Some(first)
    requires ReadingOf(s.accepted[1].frame, s.accepted[1].plaintext) == Some(second)
    ensures exists s' :: Reachable(registry, s') && s'.readings == [second, first]
  {
    ReachPublish(registry, s, 1, 1, second);
    var s1 := s.(connections := Moved(s, 1, Receiving), readings := s.readings + [second],
                 published := s.published + [1]);
    ReachPublish(registry, s1, 0, 0, first);
    assert s1.readings + [first] == [second, first];
  }

  lemma LaterCanPublishFirst(registry: DeviceRegistry, f: Frame, g: Frame, p: seq<byte>, q: seq<byte>,
        first: Reading, second: Reading, now: u64)
    requires GenuinePair(registry, f, g, now) && |p| == 8 && |q| == 8
    requires ReadingOf(f, p) == Some(first) && ReadingOf(g, q) == Some(second)
    ensures exists s :: Reachable(registry, s) && s.readings == [second, first]
  {
    ReachBothWaiting(registry, f, g, p, q, now);
    ReachBothInFlight(registry, f, g, p, q, now);
    PublishLaterFirst(registry, BothInFlight(f, g, p, q, now), first, second);
  }

  /** The order of acceptance is not the order of the log: between a handler's locked check and its publishing
      another handler can accept and publish a later number of the same device. */
  lemma LogCanBeOutOfOrder(registry: DeviceRegistry, f: Frame, g: Frame, a: SensorPayloads.SensorPayload,
        b: SensorPayloads.SensorPayload, now: u64)
    requires GenuinePair(registry, f, g, now)
    ensures exists s :: Reachable(registry, s) && |s.readings| == 2
              && s.readings[0].deviceId == s.readings[1].deviceId
              && s.readings[0].sequenceNr == g.sequenceNr > f.sequenceNr == s.readings[1].sequenceNr
  {
    PayloadReads(f, a);
    PayloadReads(g, b);
    LaterCanPublishFirst(registry, f, g, a.Print(), b.Print(),
      Reading(f.deviceId, a.sensorType, a.valueRaw, a.unit, f.sequenceNr, f.timestamp),
      Reading(g.deviceId, b.sensorType, b.valueRaw, b.unit, g.sequenceNr, g.timestamp), now);
  }

  function Undisturbed(registry: DeviceRegistry, s: State, c: nat, now: u64): Option<State>
    requires c < |s.connections|
  {
    match AfterVerify(registry, s, c)
    case None => None
    case Some(s1) =>
      if !s1.connections[c].control.Verified? then Some(s1) else
        match AfterCheck(s1, c, now)
        case None => None
        case Some(s2) => if s2.connections[c].control.InFlight? then AfterPublish(s2, c) else Some(s2)
  }

  /** A single connection's handler that runs undisturbed from a framed buffer does what `Process` says. */
  lemma UndisturbedHandlerIsProcess(registry: DeviceRegistry, s: State, c: nat, now: u64)
    requires c < |s.connections| && s.connections[c].control.Framed?
    ensures var after := Undisturbed(registry, s, c, now);
            && after.Some?
            && Shared(after.value.devices, after.value.readings, after.value.events)
               == Process(registry, s.vault, Shared(s.devices, s.readings, s.events), s.connections[c].control.raw, now)
            && after.value.connections == s.connections[c := s.connections[c].(control := Receiving)]
  {
    hide Authenticate, VerdictOn, ReadingOf, Checked;
    var s1 := AfterVerify(registry, s, c).value;
    if s1.connections[c].control.Verified? {
      var s2 := AfterCheck(s1, c, now).value;
      if s2.connections[c].control.InFlight? {
        assert s2.accepted[|s.accepted|].frame == s1.connections[c].control.frame;
      }
    }
  }

  // ---------- one handler's steps, from the bytes ----------

  /** What a handler that waits for bytes does with those at its position: nothing while a header or a body is
      incomplete, and otherwise exactly one of four things. */
  lemma ReadStep(registry: DeviceRegistry, s: State, c: nat)
    requires c < |s.connections| && s.connections[c].control.Receiving?
    requires s.connections[c].pos <= |s.connections[c].stream|
    ensures var conn := s.connections[c];
            var stream, pos, n := conn.stream, conn.pos, DeclaredAt(conn.stream, conn.pos);
            var after := Next(registry, s, Read(c));
            && (after == None <==> || |stream| - pos < 35
                                   || (HeaderAt(stream, pos) && n <= 512 && |stream| - pos < 51 + n))
            && (35 <= |stream| - pos && !HeaderAt(stream, pos) ==>
                  after == Some(s.(connections := s.connections[c := conn.(pos := pos + 35)],
                                   events := s.events + [MagicInvalid])))
            && (HeaderAt(stream, pos) && n > 512 ==>
                  after == Some(s.(connections := s.connections[c := conn.(control := Ended)],
                                   events := s.events + [PayloadRefused(n)])))
            && (HeaderAt(stream, pos) && n <= 512 && 51 + n <= |stream| - pos ==>
                  after == Some(s.(connections := s.connections[
                                     c := conn.(pos := pos + 51 + n, control := Framed(stream[pos..pos + 51 + n]))])))
  {
    hide ReadNext, DeclaredAt;
    ReadFromBytes(s.connections[c].stream, s.connections[c].pos);
  }

  /** What a handler does with a well-formed frame before it takes the lock: it reports a bad tag, or a device
      not listed, or holds the frame with its plaintext. */
  lemma VerifyStep(registry: DeviceRegistry, s: State, c: nat, f: Frame)
    requires c < |s.connections| && s.connections[c].control == Framed(f.Print()) && f.Supported()
    ensures var after := Next(registry, s, Verify(c));
            var sealed, listed := SealedOf(f) in s.vault, registry.IsAllowed(f.deviceId);
            && (!sealed ==> after == Some(s.(connections := Moved(s, c, Receiving),
                                             events := s.events + [TagInvalid(f.deviceId)])))
            && (sealed && !listed ==> after == Some(s.(connections := Moved(s, c, Receiving),
                                                       events := s.events + [UnknownDevice(f.deviceId)])))
            && (sealed && listed ==>
                  after == Some(s.(connections := Moved(s, c, Verified(f, s.vault[SealedOf(f)])))))
  {
    hide Authenticate, SealedOf;
    AuthenticateFrame(registry, s.vault, f);
  }

  /** And with bytes that the parser refuses. */
  lemma VerifyRefusedBytes(registry: DeviceRegistry, s: State, c: nat, raw: seq<byte>, e: ProtocolError)
    requires c < |s.connections| && s.connections[c].control == Framed(raw)
    ensures var after := Next(registry, s, Verify(c));
            after.Some? && after.value.events == s.events + [ParseFailed(e)] <==> Parse(raw) == Err(e)
  {
    hide Authenticate, SealedOf, Parse;
    AuthenticateRefusedBytes(registry, s.vault, raw, e);
    var a := Authenticate(registry, s.vault, raw);
    if a.Refused? {
      AppendsDiffer(s.events, a.event, ParseFailed(e));
    } else {
      AppendsDiffer(s.events, ParseFailed(e), ParseFailed(e));
    }
  }

  /** A handler notices that its peer has gone exactly when it waits for bytes that are not there. */
  lemma DisconnectStep(registry: DeviceRegistry, s: State, c: nat)
    requires c < |s.connections| && s.connections[c].pos <= |s.connections[c].stream|
    ensures var conn := s.connections[c];
            var stream, pos, n := conn.stream, conn.pos, DeclaredAt(conn.stream, conn.pos);
            Next(registry, s, Disconnect(c))
            == if conn.control.Receiving?
                  && (|stream| - pos < 35 || (HeaderAt(stream, pos) && n <= 512 && |stream| - pos < 51 + n))
               then Some(s.(connections := s.connections[c := conn.(control := Ended)]))
               else None
  {
    hide ReadNext, DeclaredAt;
    ReadFromBytes(s.connections[c].stream, s.connections[c].pos);
  }

  predicate ConcernsConnection(step: Step, c: nat) {
    match step
    case Seal(_, _) => false
    case Connect => false
    case _ => step.c == c
  }

  /** A connection that has ended takes no further step and no further byte. */
  lemma EndedForGood(registry: DeviceRegistry, s: State, step: Step, c: nat)
    requires c < |s.connections| && s.connections[c].control.Ended? && ConcernsConnection(step, c)
    ensures Next(registry, s, step) == None
  {
    hide ReadNext, Authenticate, VerdictOn, ReadingOf;
  }
}
