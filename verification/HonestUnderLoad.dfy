/** A crashing sender at the gateway under load: what the guard makes of its frames when any number of
    connections compete for the lock. */
module HonestUnderLoad {
  import opened Words
  import opened Frames
  import opened Replay
  import opened Registry
  import opened Gateway
  import opened SenderAtGateway
  import C = Concurrency
  import M = SenderMachine
  import ReplayRuns
  import SenderRuns
  import SensorPayloads
  import Framing
  import T = ConcurrencyTheorems

  type SensorPayload = SensorPayloads.SensorPayload

  /** The frame with which a step takes the lock. */
  function AtLock(s: C.State, step: C.Step): seq<Opened> {
    if step.Check? && step.c < |s.connections| && s.connections[step.c].control.Verified?
    then [Opened(s.connections[step.c].control.frame, s.connections[step.c].control.plaintext, step.now)]
    else []
  }

  /** The frames that met the lock, in the order in which they did, over all connections. */
  function LockedOf(registry: DeviceRegistry, steps: seq<C.Step>): seq<Opened> {
    if steps == [] then [] else
      LockedOf(registry, steps[..|steps| - 1])
      + match C.Exec(registry, steps[..|steps| - 1])
        case None => []
        case Some(s) => AtLock(s, steps[|steps| - 1])
  }

  /** Those of them that the guard accepts. */
  function AcceptedOf(seen: seq<Opened>): seq<Opened> {
    if seen == [] then [] else
      var n := |seen| - 1;
      AcceptedOf(seen[..n]) + if ReplayRuns.AcceptedAt(EventsOf(seen), n) then [seen[n]] else []
  }

  /** The acceptances on record are these. */
  ghost predicate OnRecord(accepted: seq<C.Admission>, seen: seq<Opened>) {
    && |accepted| == |seen|
    && forall i :: 0 <= i < |seen| ==> Opened(accepted[i].frame, accepted[i].plaintext, accepted[i].now) == seen[i]
  }

  lemma AcceptedAppend(seen: seq<Opened>, o: Opened)
    ensures var e := ReplayRuns.Check(o.now, DeliveryOf(o.frame));
            var devices := ReplayRuns.Run(map[], EventsOf(seen));
            && AcceptedOf(seen + [o]) == AcceptedOf(seen) + (if ReplayRuns.Accepts(devices, e) then [o] else [])
            && ReplayRuns.Run(map[], EventsOf(seen + [o])) == ReplayRuns.Step(devices, e)
  {
    hide ReplayRuns.Accepts, ReplayRuns.Step;
    EventsPrefix(seen, o);
    assert (seen + [o])[..|seen|] == seen;
  }

  /** What a step does to guard and acceptances: only the locked check touches them. */
  lemma LockStep(registry: DeviceRegistry, s: C.State, step: C.Step)
    requires C.Next(registry, s, step).Some?
    ensures AtLock(s, step) == [] ==>
              var s' := C.Next(registry, s, step).value; s'.devices == s.devices && s'.accepted == s.accepted
    ensures AtLock(s, step) != [] ==>
              step.Check? &&
              var s', o := C.Next(registry, s, step).value, AtLock(s, step)[0];
              var e := ReplayRuns.Check(o.now, DeliveryOf(o.frame));
              && s'.devices == ReplayRuns.Step(s.devices, e)
              && s'.accepted == s.accepted
                 + if ReplayRuns.Accepts(s.devices, e) then [C.Admission(step.c, o.frame, o.plaintext, o.now)] else []
  {
    hide VerdictOn, Authenticate, ReadingOf;
    if step.Check? {
    } else if step.Publish? {
    } else {
      C.QuietStep(registry, s, step);
    }
  }

  lemma OneAtLock(s: C.State, step: C.Step)
    requires AtLock(s, step) != []
    ensures AtLock(s, step) == [AtLock(s, step)[0]]
  {
  }

  lemma RecordAppend(accepted: seq<C.Admission>, seen: seq<Opened>, a: C.Admission, o: Opened)
    requires OnRecord(accepted, seen) && Opened(a.frame, a.plaintext, a.now) == o
    ensures OnRecord(accepted + [a], seen + [o])
  {
  }

  lemma LockRunStep(registry: DeviceRegistry, s: C.State, step: C.Step, seen: seq<Opened>)
    requires C.Next(registry, s, step).Some?
    requires s.devices == ReplayRuns.Run(map[], EventsOf(seen)) && OnRecord(s.accepted, AcceptedOf(seen))
    ensures var s', seen' := C.Next(registry, s, step).value, seen + AtLock(s, step);
            s'.devices == ReplayRuns.Run(map[], EventsOf(seen')) && OnRecord(s'.accepted, AcceptedOf(seen'))
  {
    hide C.Next, ReplayRuns.Accepts, ReplayRuns.Step, ReplayRuns.Run, AtLock, AcceptedOf, OnRecord;
    LockStep(registry, s, step);
    if AtLock(s, step) == [] {
      assert seen + [] == seen;
    } else {
      OneAtLock(s, step);
      var o := AtLock(s, step)[0];
      AcceptedAppend(seen, o);
      if ReplayRuns.Accepts(s.devices, ReplayRuns.Check(o.now, DeliveryOf(o.frame))) {
        RecordAppend(s.accepted, AcceptedOf(seen), C.Admission(step.c, o.frame, o.plaintext, o.now), o);
      } else {
        assert s.accepted + [] == s.accepted && AcceptedOf(seen) + [] == AcceptedOf(seen);
      }
    }
  }

  /** Over every interleaving the shared guard is the guard run on the frames that met the lock, and the
      acceptances are that run's. */
  lemma {:induction false} GuardIsLockRun(registry: DeviceRegistry, steps: seq<C.Step>)
    requires C.Exec(registry, steps).Some?
    ensures var s, seen := C.Exec(registry, steps).value, LockedOf(registry, steps);
            s.devices == ReplayRuns.Run(map[], EventsOf(seen)) && OnRecord(s.accepted, AcceptedOf(seen))
  {
    hide C.Next, AtLock;
    if steps != [] {
      var n := |steps| - 1;
      GuardIsLockRun(registry, steps[..n]);
      hide ReplayRuns.Run, AcceptedOf, OnRecord;
      LockRunStep(registry, C.Exec(registry, steps[..n]).value, steps[n], LockedOf(registry, steps[..n]));
    }
  }

  lemma BackedAtLock(registry: DeviceRegistry, s: C.State, step: C.Step)
    requires C.AllBacked(registry, s)
    ensures FromVault(AtLock(s, step), s.vault)
  {
    hide SealedOf;
  }

  lemma VaultGrows(registry: DeviceRegistry, s: C.State, step: C.Step, seen: seq<Opened>)
    requires C.Next(registry, s, step).Some? && FromVault(seen, s.vault)
    ensures FromVault(seen, C.Next(registry, s, step).value.vault)
  {
    hide SealedOf, C.Next;
    C.VerifiedStep(registry, s, step);
  }

  lemma InvariantBacks(registry: DeviceRegistry, s: C.State)
    requires C.Invariant(registry, s)
    ensures C.AllBacked(registry, s)
  {
  }

  lemma {:induction false} LockedFromVault(registry: DeviceRegistry, steps: seq<C.Step>)
    requires C.Exec(registry, steps).Some?
    ensures FromVault(LockedOf(registry, steps), C.Exec(registry, steps).value.vault)
  {
    hide C.Next, AtLock, SealedOf, C.Invariant;
    if steps != [] {
      var n := |steps| - 1;
      var s, before := C.Exec(registry, steps[..n]).value, LockedOf(registry, steps[..n]);
      LockedFromVault(registry, steps[..n]);
      C.InvariantHolds(registry, steps[..n]);
      InvariantBacks(registry, s);
      BackedAtLock(registry, s, steps[n]);
      assert FromVault(before + AtLock(s, steps[n]), s.vault);
      VaultGrows(registry, s, steps[n], before + AtLock(s, steps[n]));
    }
  }

  lemma {:induction false} AcceptedAreLeaders(seen: seq<Opened>, id: u32)
    requires LeadersAccepted(seen, id)
    ensures OnlyDevice(AcceptedOf(seen), id) == LeadersOf(seen, id)
  {
    hide ReplayRuns.AcceptedAt, TakesLead;
    if seen != [] {
      var n := |seen| - 1;
      LeadersAcceptedPrefix(seen, id, n);
      AcceptedAreLeaders(seen[..n], id);
      OnlyDeviceAppend(AcceptedOf(seen[..n]), seen[n], id);
      assert AcceptedOf(seen[..n]) + [] == AcceptedOf(seen[..n]);
      assert LeadersOf(seen[..n], id) + [] == LeadersOf(seen[..n], id);
    }
  }

  /** Whatever else competes for the lock, over any number of connections and in any interleaving: as long as
      nobody else seals in the device's name, the guard accepts one of the sender's frames exactly when it
      takes the lead at the lock, and the device's acceptances are those frames, in this order. */
  lemma LeadersPassTheLock(registry: DeviceRegistry, steps: seq<C.Step>, id: u32, frames: seq<Frame>)
    requires C.Exec(registry, steps).Some?
    requires SenderRuns.Numbered(Deliveries(frames), id) && AllSupported(frames)
    requires SealsFor(C.Exec(registry, steps).value.vault, id, frames)
    ensures var s, seen := C.Exec(registry, steps).value, LockedOf(registry, steps);
            && LeadersAccepted(seen, id)
            && OnRecord(s.accepted, AcceptedOf(seen)) && OnlyDevice(AcceptedOf(seen), id) == LeadersOf(seen, id)
  {
    hide C.Exec, SenderRuns.Numbered, SealsFor, AllSupported, LockedOf, LeadersAccepted, FromVault;
    GuardIsLockRun(registry, steps);
    LockedFromVault(registry, steps);
    LeadersAmongOthers(LockedOf(registry, steps), C.Exec(registry, steps).value.vault, id, frames);
    AcceptedAreLeaders(LockedOf(registry, steps), id);
  }

  /** While a crashing sender's frames reach the lock in its order, at most repeated, those are the frames that
      meet the lock for the first time. */
  lemma HonestFramesPassTheLock(
    registry: DeviceRegistry, steps: seq<C.Step>,
    saved: Option<u32>, operations: seq<M.SenderStep>, id: u32, frames: seq<Frame>)
    requires C.Exec(registry, steps).Some?
    requires M.Exec(saved, operations).Some? && SenderRuns.NeverWraps(saved, operations)
    requires FramesOf(frames, id, M.Exec(saved, operations).value.wire) && AllSupported(frames)
    requires SealsFor(C.Exec(registry, steps).value.vault, id, frames)
    requires var seen := LockedOf(registry, steps); SenderRuns.LossyInOrder(EventsOf(seen), id, OrderOf(seen, frames))
    ensures var seen := LockedOf(registry, steps);
            && FirstAccepted(seen, id)
            && OnRecord(C.Exec(registry, steps).value.accepted, AcceptedOf(seen))
            && OnlyDevice(AcceptedOf(seen), id) == FirstOf(seen, id)
  {
    hide C.Exec, M.Exec, SenderRuns.NeverWraps, SenderRuns.LossyInOrder, SealsFor, AllSupported, FirstArrival;
    hide ReplayRuns.AcceptedAt, LockedOf, SenderRuns.Numbered, FirstLead, FirstAccepted, LeadersAccepted;
    var seen := LockedOf(registry, steps);
    LockedFromVault(registry, steps);
    CrashingSenderFrames(saved, operations, id, frames);
    LeadersPassTheLock(registry, steps, id, frames);
    HonestAmongOthers(seen, C.Exec(registry, steps).value.vault, saved, operations, id, frames);
    LeadersAreFirst(seen, id);
  }

  // ---------- what becomes of the frames that took the lock ----------

  function Replays(events: seq<SecurityEvent>): nat {
    if events == [] then 0 else
      Replays(events[..|events| - 1]) + if events[|events| - 1].ReplayDetected? then 1 else 0
  }

  lemma ReplaysAppend(events: seq<SecurityEvent>, e: SecurityEvent)
    ensures Replays(events + [e]) == Replays(events) + if e.ReplayDetected? then 1 else 0
  {
    assert (events + [e])[..|events|] == events;
  }

  lemma AuthenticationReportsNoReplay(registry: DeviceRegistry, vault: Vault, raw: seq<byte>)
    ensures var a := Authenticate(registry, vault, raw); a.Refused? ==> !a.event.ReplayDetected?
  {
    hide Parse, SealedOf;
  }

  /** A step accepts or reports the frame with which it takes the lock, and does neither without one. */
  lemma LockAccounts(registry: DeviceRegistry, s: C.State, step: C.Step)
    requires C.Next(registry, s, step).Some?
    ensures var s' := C.Next(registry, s, step).value;
            |s'.accepted| + Replays(s'.events) == |s.accepted| + Replays(s.events) + |AtLock(s, step)|
  {
    hide VerdictOn, Authenticate, ReadingOf, Checked, Framing.ReadNext, Replays;
    var s' := C.Next(registry, s, step).value;
    if step.Verify? {
      AuthenticationReportsNoReplay(registry, s.vault, s.connections[step.c].control.raw);
    }
    if |s'.events| == |s.events| + 1 {
      assert s'.events == s.events + [s'.events[|s.events|]];
      ReplaysAppend(s.events, s'.events[|s.events|]);
    }
  }

  /** Over every interleaving each frame that took the lock is accepted or reported as a replay, once. */
  lemma {:induction false} LockedAccounted(registry: DeviceRegistry, steps: seq<C.Step>)
    requires C.Exec(registry, steps).Some?
    ensures var s := C.Exec(registry, steps).value;
            |LockedOf(registry, steps)| == |s.accepted| + Replays(s.events)
  {
    hide C.Next, AtLock;
    if steps != [] {
      var n := |steps| - 1;
      LockedAccounted(registry, steps[..n]);
      LockAccounts(registry, C.Exec(registry, steps[..n]).value, steps[n]);
    }
  }

  /** Only a frame whose plaintext is no payload is dropped. */
  ghost predicate DroppedUnreadable(s: C.State) {
    forall t :: t in s.dropped ==> t < |s.accepted| && ReadingOf(s.accepted[t].frame, s.accepted[t].plaintext) == None
  }

  lemma DroppedStep(registry: DeviceRegistry, s: C.State, step: C.Step)
    requires DroppedUnreadable(s) && C.Next(registry, s, step).Some?
    ensures DroppedUnreadable(C.Next(registry, s, step).value)
  {
    hide VerdictOn, Authenticate, ReadingOf, Checked, Framing.ReadNext;
    if !step.Publish? && !C.Admits(s, step) {
      C.QuietStep(registry, s, step);
    }
  }

  lemma {:induction false} DroppedAreUnreadable(registry: DeviceRegistry, steps: seq<C.Step>)
    requires C.Exec(registry, steps).Some?
    ensures DroppedUnreadable(C.Exec(registry, steps).value)
  {
    hide C.Next;
    if steps != [] {
      var n := |steps| - 1;
      DroppedAreUnreadable(registry, steps[..n]);
      DroppedStep(registry, C.Exec(registry, steps[..n]).value, steps[n]);
    }
  }

  /** The frame of ticket `t`, with the reading its sender meant. */
  ghost predicate MeantFor(s: C.State, t: nat, frames: seq<Frame>, payloads: seq<SensorPayload>)
    requires |payloads| == |frames| && t < |s.accepted|
  {
    var i := IndexOf(frames, s.accepted[t].frame);
    && i < |frames| && s.accepted[t].frame == frames[i]
    && ReadingOf(frames[i], s.accepted[t].plaintext) == Some(ReadingFor(frames[i], payloads[i]))
  }

  lemma AcceptedMeant(registry: DeviceRegistry, s: C.State, t: nat, id: u32, frames: seq<Frame>,
        payloads: seq<SensorPayload>)
    requires C.AllBacked(registry, s) && t < |s.accepted| && s.accepted[t].frame.deviceId == id
    requires AllSupported(frames) && SealsFor(s.vault, id, frames) && SealedOver(s.vault, frames, payloads)
    ensures MeantFor(s, t, frames, payloads)
  {
    hide SealedOf, SensorPayloads.SensorPayload.Print, ReadingOf, SealsFor, AllSupported, SealedOver;
    var o := Opened(s.accepted[t].frame, s.accepted[t].plaintext, s.accepted[t].now);
    assert FromVault([o], s.vault);
    MeantReadings([o], s.vault, id, frames, payloads);
    assert o in [o];
  }

  /** In every interleaving each accepted frame of the sender is published once, as the reading its sender
      meant, or is still in flight. */
  lemma AcceptedPublishedAsMeant(
    registry: DeviceRegistry, steps: seq<C.Step>, id: u32, frames: seq<Frame>, payloads: seq<SensorPayload>, t: nat)
    requires C.Exec(registry, steps).Some?
    requires AllSupported(frames)
    requires var s := C.Exec(registry, steps).value;
             SealsFor(s.vault, id, frames) && SealedOver(s.vault, frames, payloads)
    requires var s := C.Exec(registry, steps).value; t < |s.accepted| && s.accepted[t].frame.deviceId == id
    ensures var s := C.Exec(registry, steps).value;
            var i := IndexOf(frames, s.accepted[t].frame);
            && i < |frames| && s.accepted[t].frame == frames[i] && |s.readings| == |s.published|
            && C.Copies(s.published, t) + C.Flying(s.connections, Some(t)) == 1
            && forall k :: 0 <= k < |s.readings| && s.published[k] == t ==>
                 s.readings[k] == ReadingFor(frames[i], payloads[i])
  {
    hide C.Exec, ReadingOf, SealsFor, SealedOver, AllSupported, C.GuardInvariant, C.ConnectionOrder, C.AllBacked;
    var s := C.Exec(registry, steps).value;
    C.InvariantHolds(registry, steps);
    AcceptedMeant(registry, s, t, id, frames, payloads);
    DroppedAreUnreadable(registry, steps);
    assert C.Accounted(s, t);
    assert t !in s.dropped ==> t !in multiset(s.dropped);
  }

  // ---------- two handlers of one device ----------

  lemma StartsUnlocked(registry: DeviceRegistry, s: C.State) returns (steps: seq<C.Step>)
    requires C.Reachable(registry, s) && s.accepted == [] && s.events == []
    ensures C.Exec(registry, steps) == Some(s) && LockedOf(registry, steps) == []
  {
    steps :| C.Exec(registry, steps) == Some(s);
    LockedAccounted(registry, steps);
  }

  lemma LockNext(registry: DeviceRegistry, steps: seq<C.Step>, s: C.State, step: C.Step)
    requires C.Exec(registry, steps) == Some(s) && C.Next(registry, s, step).Some?
    ensures C.Exec(registry, steps + [step]) == C.Next(registry, s, step)
    ensures LockedOf(registry, steps + [step]) == LockedOf(registry, steps) + AtLock(s, step)
  {
    hide C.Next, AtLock;
    assert (steps + [step])[..|steps|] == steps;
  }

  lemma SecondThenFirst(f: Frame, g: Frame, now: u64)
    requires f.deviceId == g.deviceId && 1 <= f.sequenceNr < g.sequenceNr
    requires f.nonce != g.nonce && f.timestamp == now && g.timestamp == now
    ensures VerdictOn(map[], now, DeliveryOf(g)) == Fresh
    ensures VerdictOn(Checked(map[], now, DeliveryOf(g)), now, DeliveryOf(f)) == Rejected(ReplaySequence(f.sequenceNr))
  {
  }

  /** Both handlers have met the lock, the second one first. */
  function Overtaken(f: Frame, g: Frame, p: seq<byte>, q: seq<byte>, now: u64): C.State {
    var s := T.BothWaiting(f, g, p, q);
    s.(devices := Checked(map[], now, DeliveryOf(g)),
       connections := [T.Waiting(f, p).(control := C.Receiving), T.Waiting(g, q).(control := C.InFlight(0))],
       accepted := [C.Admission(1, g, q, now)],
       events := [ReplayDetected(f.deviceId, ReplaySequence(f.sequenceNr))])
  }

  lemma OvertakenSteps(registry: DeviceRegistry, f: Frame, g: Frame, p: seq<byte>, q: seq<byte>, now: u64)
    requires T.GenuinePair(registry, f, g, now)
    ensures var s := T.BothWaiting(f, g, p, q);
            var s1 := C.Next(registry, s, C.Check(1, now));
            && s1.Some? && AtLock(s, C.Check(1, now)) == [Opened(g, q, now)]
            && AtLock(s1.value, C.Check(0, now)) == [Opened(f, p, now)]
            && C.Next(registry, s1.value, C.Check(0, now)) == Some(Overtaken(f, g, p, q, now))
  {
    hide VerdictOn, Checked;
    SecondThenFirst(f, g, now);
    var s := T.BothWaiting(f, g, p, q);
    var s1 := C.Next(registry, s, C.Check(1, now)).value;
    assert s1.connections == [T.Waiting(f, p), T.Waiting(g, q).(control := C.InFlight(0))];
    assert s1.accepted == [C.Admission(1, g, q, now)] && s1.devices == Checked(map[], now, DeliveryOf(g));
    var s2 := C.Next(registry, s1, C.Check(0, now)).value;
    assert s2.connections == Overtaken(f, g, p, q, now).connections;
    assert s2.events == Overtaken(f, g, p, q, now).events;
  }

  /** A first arrival can be refused: any two genuine frames of one device, brought by two handlers, can meet
      the lock in reverse, and then the earlier is reported as a replay and lost. */
  lemma OvertakenFrameRefused(registry: DeviceRegistry, f: Frame, g: Frame, p: seq<byte>, q: seq<byte>, now: u64)
    requires T.GenuinePair(registry, f, g, now) && |p| == 8 && |q| == 8
    ensures exists steps ::
              && C.Exec(registry, steps) == Some(Overtaken(f, g, p, q, now))
              && LockedOf(registry, steps) == [Opened(g, q, now), Opened(f, p, now)]
    ensures var seen := [Opened(g, q, now), Opened(f, p, now)];
            Timely(seen[1]) && FirstArrival(seen, 1) && !TakesLead(seen[..1], seen[1])
  {
    hide C.Next, AtLock;
    T.ReachBothWaiting(registry, f, g, p, q, now);
    OvertakenSteps(registry, f, g, p, q, now);
    var s := T.BothWaiting(f, g, p, q);
    var steps := StartsUnlocked(registry, s);
    LockNext(registry, steps, s, C.Check(1, now));
    var s1 := C.Next(registry, s, C.Check(1, now)).value;
    LockNext(registry, steps + [C.Check(1, now)], s1, C.Check(0, now));
    var run := steps + [C.Check(1, now)] + [C.Check(0, now)];
    assert C.Exec(registry, run) == Some(Overtaken(f, g, p, q, now));
    assert LockedOf(registry, run) == [Opened(g, q, now), Opened(f, p, now)];
    var seen := [Opened(g, q, now), Opened(f, p, now)];
    assert seen[0] in seen[..1];
  }
}
