/** Whole runs of the replay guard: any number of devices, frames in any order and any number of times,
    any clock readings, device removals and gateway restarts. */
module ReplayRuns {
  import opened Words
  import opened Frames
  import opened Replay

  datatype Event = Check(now: u64, delivery: Delivery) | Remove(deviceId: u32) | Restart

  function Step(devices: Devices, e: Event): Devices {
    match e
    case Check(now, d) => Checked(devices, now, d)
    case Remove(id) => devices - {id}
    case Restart => map[]
  }

  function Run(devices: Devices, events: seq<Event>): Devices {
    if events == [] then devices else Step(Run(devices, events[..|events| - 1]), events[|events| - 1])
  }

  predicate Accepts(devices: Devices, e: Event) {
    e.Check? && VerdictOn(devices, e.now, e.delivery).Fresh?
  }

  /** Whether the `i`th event of a run from an empty guard is an accepted frame. */
  predicate AcceptedAt(events: seq<Event>, i: nat)
    requires i < |events|
  {
    Accepts(Run(map[], events[..i]), events[i])
  }

  /** What the guard accepted from a device since it last forgot it. */
  function HistoryOf(events: seq<Event>, id: u32): History {
    if events == [] then [] else
      var n := |events| - 1;
      var h := HistoryOf(events[..n], id);
      match events[n]
      case Restart => []
      case Remove(other) => if other == id then [] else h
      case Check(now, d) => if d.deviceId == id && AcceptedAt(events, n) then h + [Accept(now, d)] else h
  }

  ghost predicate WithinWindow(h: History) {
    forall i, j :: 0 <= i < j < |h| && j - i <= 64 ==> h[i].nonce != h[j].nonce
  }

  ghost predicate Timely(h: History) {
    forall i :: 0 <= i < |h| ==> -30 <= h[i].now - h[i].timestamp <= 30
  }

  lemma ExtendHistory(h: History, now: u64, d: Delivery)
    requires ZerosThenIncreasing(h) && WithinWindow(h) && Timely(h) && IsFresh(h, now, d)
    ensures var h' := h + [Accept(now, d)]; ZerosThenIncreasing(h') && WithinWindow(h') && Timely(h')
  {
  }

  /** In every run the bounded state of a device is that of its history, and the history is zeros followed
      by strictly increasing numbers, without a nonce repeated within 64 acceptances, and timely. */
  lemma {:induction false} HistoryInvariant(events: seq<Event>, id: u32)
    ensures var devices, h := Run(map[], events), HistoryOf(events, id);
            && (id in devices <==> h != [])
            && Lookup(devices, id) == StateOf(h)
            && ZerosThenIncreasing(h) && WithinWindow(h) && Timely(h)
  {
    if events != [] {
      var n := |events| - 1;
      var before, h := Run(map[], events[..n]), HistoryOf(events[..n], id);
      HistoryInvariant(events[..n], id);
      if events[n].Check? && events[n].delivery.deviceId == id {
        var now, d := events[n].now, events[n].delivery;
        ChecksDecideFreshness(before, h, now, d);
        RememberExtends(h, now, d);
        if IsFresh(h, now, d) {
          ExtendHistory(h, now, d);
        }
      }
    }
  }

  /** In every reachable state a frame is accepted exactly when it is fresh with respect to the whole
      history of its device. */
  lemma AcceptanceMeansFresh(events: seq<Event>, now: u64, d: Delivery)
    ensures Accepts(Run(map[], events), Check(now, d)) <==> IsFresh(HistoryOf(events, d.deviceId), now, d)
  {
    HistoryInvariant(events, d.deviceId);
    ChecksDecideFreshness(Run(map[], events), HistoryOf(events, d.deviceId), now, d);
  }

  /** Every verdict explained, in every run, by the device's history: first the clock, then the numbers
      accepted before, then the last 64 nonces. */
  lemma VerdictExplained(events: seq<Event>, now: u64, d: Delivery)
    ensures var v, h := VerdictOn(Run(map[], events), now, d), HistoryOf(events, d.deviceId);
            var timely := -30 <= now - d.timestamp <= 30;
            var above := forall i :: 0 <= i < |h| ==> h[i].sequenceNr == 0 || h[i].sequenceNr < d.sequenceNr;
            var unused := forall i :: 0 <= i < |h| && |h| - 64 <= i ==> h[i].nonce != d.nonce;
            && (now - d.timestamp > 30 ==> v == Rejected(FrameStale(now - d.timestamp)))
            && (d.timestamp - now > 30 ==> v == Rejected(FrameFuture(d.timestamp - now)))
            && (v == Rejected(ReplaySequence(d.sequenceNr)) <==> timely && !above)
            && (v == Rejected(ReplayNonce) <==> timely && above && !unused)
            && (v == Fresh <==> timely && above && unused)
  {
    hide HistoryOf, Run, Nonces, Recent;
    var h := HistoryOf(events, d.deviceId);
    HistoryInvariant(events, d.deviceId);
    SequenceDecided(h, d.sequenceNr);
    NonceDecided(h, d.nonce);
  }

  function PositiveCount(h: History): nat {
    if h == [] then 0 else PositiveCount(h[..|h| - 1]) + (if Latest(h) > 0 then 1 else 0)
  }

  /** The last number bounds how many positive numbers were ever accepted. */
  lemma {:induction false} PositivesBounded(h: History)
    requires ZerosThenIncreasing(h)
    ensures PositiveCount(h) <= Latest(h)
  {
    if h != [] {
      var n := |h| - 1;
      assert ZerosThenIncreasing(h[..n]);
      PositivesBounded(h[..n]);
      if n > 0 {
        assert h[n - 1].sequenceNr == 0 || h[n - 1].sequenceNr < h[n].sequenceNr;
      }
    }
  }

  /** A frame can be accepted again only if its number is the sentinel zero, and then only after at least
      64 other acceptances from its device. */
  lemma ReplayNeedsZeroAndEviction(events: seq<Event>, id: u32, i: nat, j: nat)
    requires i < j < |HistoryOf(events, id)|
    requires HistoryOf(events, id)[i].sequenceNr == HistoryOf(events, id)[j].sequenceNr
    requires HistoryOf(events, id)[i].nonce == HistoryOf(events, id)[j].nonce
    ensures HistoryOf(events, id)[i].sequenceNr == 0
    ensures j - i - 1 >= 64
  {
    HistoryInvariant(events, id);
  }

  // ---------- the sentinel zero ----------

  ghost predicate StrictlyIncreasing(h: History) {
    forall i, j :: 0 <= i < j < |h| ==> h[i].sequenceNr < h[j].sequenceNr
  }

  /** The accepted numbers strictly increase exactly when only the first of them is zero, if any. */
  lemma StrictUnlessZeros(events: seq<Event>, id: u32)
    ensures var h := HistoryOf(events, id);
            StrictlyIncreasing(h) <==> forall k :: 1 <= k < |h| ==> h[k].sequenceNr >= 1
  {
    HistoryInvariant(events, id);
    var h := HistoryOf(events, id);
    if StrictlyIncreasing(h) {
      forall k | 1 <= k < |h|
        ensures h[k].sequenceNr >= 1
      {
        assert h[0].sequenceNr < h[k].sequenceNr;
      }
    }
  }

  lemma HistoryAppend(events: seq<Event>, now: u64, d: Delivery)
    requires Accepts(Run(map[], events), Check(now, d))
    ensures HistoryOf(events + [Check(now, d)], d.deviceId) == HistoryOf(events, d.deviceId) + [Accept(now, d)]
  {
    hide VerdictOn;
    assert (events + [Check(now, d)])[..|events|] == events;
  }

  lemma StrictAppend(h: History, now: u64, d: Delivery)
    requires StrictlyIncreasing(h) && IsFresh(h, now, d)
    ensures StrictlyIncreasing(h + [Accept(now, d)]) <==> d.sequenceNr >= 1 || h == []
  {
    var h' := h + [Accept(now, d)];
    if d.sequenceNr == 0 && h != [] {
      assert h'[0].sequenceNr >= h'[|h|].sequenceNr;
    }
  }

  /** What can be seen before a call: an accepted frame keeps the numbers of its device strictly increasing
      exactly when it is not numbered zero, or the guard does not know the device yet. */
  lemma AcceptanceKeepsStrict(events: seq<Event>, now: u64, d: Delivery)
    requires Accepts(Run(map[], events), Check(now, d)) && StrictlyIncreasing(HistoryOf(events, d.deviceId))
    ensures StrictlyIncreasing(HistoryOf(events + [Check(now, d)], d.deviceId))
       <==> d.sequenceNr >= 1 || d.deviceId !in Run(map[], events)
  {
    hide VerdictOn;
    var h := HistoryOf(events, d.deviceId);
    HistoryAppend(events, now, d);
    HistoryInvariant(events, d.deviceId);
    AcceptanceMeansFresh(events, now, d);
    StrictAppend(h, now, d);
  }

  /** The guard has not been made to forget the device since event `j`. */
  ghost predicate Remembered(events: seq<Event>, id: u32, j: nat) {
    forall k :: j < k < |events| ==> events[k] != Restart && events[k] != Remove(id)
  }

  lemma {:induction false} RememberedInHistory(events: seq<Event>, j: nat) returns (i: nat)
    requires j < |events| && AcceptedAt(events, j) && Remembered(events, events[j].delivery.deviceId, j)
    ensures var h := HistoryOf(events, events[j].delivery.deviceId);
            i < |h| && h[i] == Accept(events[j].now, events[j].delivery)
    decreases |events|
  {
    hide VerdictOn, Run;
    var n, id := |events| - 1, events[j].delivery.deviceId;
    if j == n {
      i := |HistoryOf(events[..n], id)|;
    } else {
      assert events[..n][..j] == events[..j];
      assert events[n] != Restart && events[n] != Remove(id);
      i := RememberedInHistory(events[..n], j);
    }
  }

  lemma VerdictByHistory(events: seq<Event>, now: u64, d: Delivery)
    ensures var h := HistoryOf(events, d.deviceId);
            Accepts(Run(map[], events), Check(now, d))
            <==> && -30 <= now - d.timestamp <= 30
                 && (Latest(h) == 0 || Latest(h) < d.sequenceNr)
                 && d.nonce !in Nonces(Recent(h))
  {
    hide HistoryOf, Run;
    HistoryInvariant(events, d.deviceId);
  }

  lemma LatestIsLargest(h: History, i: nat)
    requires ZerosThenIncreasing(h) && i < |h|
    ensures h[i].sequenceNr <= Latest(h)
  {
    assert i < |h| - 1 ==> h[i].sequenceNr == 0 || h[i].sequenceNr < h[|h| - 1].sequenceNr;
  }

  /** When an accepted frame is accepted again, in every run, whatever was delivered, forgotten or rejected in
      between: it is timely, its nonce is not among the last 64 accepted ones the guard remembers, and either
      the last accepted number is the sentinel zero, or the guard has forgotten the frame and has accepted
      only smaller numbers since. */
  lemma AcceptedAgain(events: seq<Event>, j: nat, now: u64)
    requires j < |events| && AcceptedAt(events, j)
    ensures var d := events[j].delivery;
            var h := HistoryOf(events, d.deviceId);
            Accepts(Run(map[], events), Check(now, d))
            <==> && -30 <= now - d.timestamp <= 30
                 && (Latest(h) == 0 || (Latest(h) < d.sequenceNr && !Remembered(events, d.deviceId, j)))
                 && d.nonce !in Nonces(Recent(h))
  {
    hide VerdictOn, Run, Nonces, Recent;
    var d := events[j].delivery;
    var h := HistoryOf(events, d.deviceId);
    VerdictByHistory(events, now, d);
    if Remembered(events, d.deviceId, j) {
      var i := RememberedInHistory(events, j);
      HistoryInvariant(events, d.deviceId);
      LatestIsLargest(h, i);
    }
  }

  function DeliveryAgain(id: u32, a: Acceptance): Delivery {
    Delivery(id, a.sequenceNr, a.timestamp, a.nonce)
  }

  lemma ReplayIsFresh(h: History, id: u32, i: nat, now: u64)
    requires i < |h| && ZerosThenIncreasing(h) && forall k :: i < k < |h| ==> h[k].nonce != h[i].nonce
    ensures IsFresh(h, now, DeliveryAgain(id, h[i]))
       <==> && -30 <= now - h[i].timestamp <= 30
            && Latest(h) == 0 && |h| - i > 64
  {
    var n := |h| - 1;
    assert forall k :: 0 <= k < n ==> h[k].sequenceNr == 0 || h[k].sequenceNr < h[n].sequenceNr;
  }

  /** For a frame the guard still remembers, said by its place in the history: it is
      accepted again exactly when it is timely, the last accepted number is the sentinel zero, and more than
      64 acceptances from its device, its own included, have been made since its nonce was last accepted. */
  lemma ReplayedAgain(events: seq<Event>, id: u32, i: nat, now: u64)
    requires i < |HistoryOf(events, id)|
    requires var h := HistoryOf(events, id); forall k :: i < k < |h| ==> h[k].nonce != h[i].nonce
    ensures var h := HistoryOf(events, id);
            Accepts(Run(map[], events), Check(now, DeliveryAgain(id, h[i])))
            <==> && -30 <= now - h[i].timestamp <= 30
                 && Latest(h) == 0 && |h| - i > 64
  {
    hide VerdictOn, IsFresh;
    var h := HistoryOf(events, id);
    HistoryInvariant(events, id);
    AcceptanceMeansFresh(events, now, DeliveryAgain(id, h[i]));
    ReplayIsFresh(h, id, i, now);
  }

  /** Frames of one device, all numbered zero and up to date, no two with one nonce. */
  ghost predicate ZeroFrames(frames: seq<Delivery>, id: u32, now: u64) {
    && (forall k :: 0 <= k < |frames| ==>
          frames[k].deviceId == id && frames[k].sequenceNr == 0 && frames[k].timestamp == now)
    && (forall i, j :: 0 <= i < j < |frames| ==> frames[i].nonce != frames[j].nonce)
  }

  function Checks(frames: seq<Delivery>, now: u64): (events: seq<Event>)
    ensures |events| == |frames|
  {
    seq(|frames|, i requires 0 <= i < |frames| => Check(now, frames[i]))
  }

  function AllAccepted(frames: seq<Delivery>, now: u64): (h: History)
    ensures |h| == |frames|
  {
    seq(|frames|, i requires 0 <= i < |frames| => Accept(now, frames[i]))
  }

  lemma {:induction false} ZeroFramesAccepted(frames: seq<Delivery>, id: u32, now: u64)
    requires ZeroFrames(frames, id, now)
    ensures HistoryOf(Checks(frames, now), id) == AllAccepted(frames, now)
    ensures frames != [] ==> AcceptedAt(Checks(frames, now), |frames| - 1)
  {
    hide VerdictOn, Step;
    if frames != [] {
      var n := |frames| - 1;
      ZeroFramesAccepted(frames[..n], id, now);
      assert Checks(frames, now)[..n] == Checks(frames[..n], now);
      AcceptanceMeansFresh(Checks(frames[..n], now), now, frames[n]);
      assert AllAccepted(frames, now) == AllAccepted(frames[..n], now) + [Accept(now, frames[n])];
    }
  }

  /** After any number of zero-numbered frames an exact replay of the first is accepted again exactly when
      more than 64 of them were accepted, so that its nonce has left the cache. */
  lemma ZeroReplayed(frames: seq<Delivery>, id: u32, now: u64)
    requires ZeroFrames(frames, id, now) && frames != []
    ensures Accepts(Run(map[], Checks(frames, now)), Check(now, frames[0])) <==> |frames| > 64
  {
    hide VerdictOn, IsFresh;
    ZeroFramesAccepted(frames, id, now);
    var h := AllAccepted(frames, now);
    assert forall k :: 0 <= k < |h| ==> h[k] == Accept(now, frames[k]);
    ReplayedAgain(Checks(frames, now), id, 0, now);
    assert DeliveryAgain(id, h[0]) == frames[0];
  }

  /** Frame `k` of a device, numbered zero, with the nonce that spells `k`. */
  function ZeroFrame(id: u32, now: u64, k: nat): Delivery {
    Delivery(id, 0, now, ToBe(NONCE_SIZE, k))
  }

  function ZeroBurst(id: u32, now: u64, n: nat): (frames: seq<Delivery>)
    ensures |frames| == n && forall k :: 0 <= k < n ==> frames[k] == ZeroFrame(id, now, k)
  {
    seq(n, k requires 0 <= k < n => ZeroFrame(id, now, k))
  }

  lemma SpelledNoncesDiffer(id: u32, now: u64, i: nat, j: nat)
    requires i < j < 0x100
    ensures ZeroFrame(id, now, i).nonce != ZeroFrame(id, now, j).nonce
  {
    assert Pow256(NONCE_SIZE) >= 0x100;
    if ToBe(NONCE_SIZE, i) == ToBe(NONCE_SIZE, j) {
      BeInjective(NONCE_SIZE, i, j);
    }
  }

  lemma BurstIsZeroFrames(id: u32, now: u64, n: nat)
    requires n <= 0x100
    ensures ZeroFrames(ZeroBurst(id, now, n), id, now)
  {
    var frames := ZeroBurst(id, now, n);
    forall i, j | 0 <= i < j < n
      ensures frames[i].nonce != frames[j].nonce
    {
      SpelledNoncesDiffer(id, now, i, j);
    }
  }

  /** One frame accepted twice by a guard that forgot nothing: 65 frames numbered zero, then the first
      again. */
  lemma SameFrameAcceptedTwice(id: u32, now: u64)
    ensures exists events: seq<Event>, j: nat ::
              && 0 < j < |events| && (forall k :: 0 <= k < |events| ==> events[k].Check?)
              && events[0] == events[j] && AcceptedAt(events, 0) && AcceptedAt(events, j)
  {
    hide ZeroFrame, ZeroFrames, Accepts, HistoryOf, Run;
    var n := 65;
    var frames := ZeroBurst(id, now, n);
    BurstIsZeroFrames(id, now, n);
    BurstIsZeroFrames(id, now, 1);
    assert frames[..1] == ZeroBurst(id, now, 1);
    ZeroReplayed(frames, id, now);
    ZeroFramesAccepted(frames[..1], id, now);
    var events := Checks(frames, now) + [Check(now, frames[0])];
    assert events[..n] == Checks(frames, now);
    assert events[..0] == Checks(frames[..1], now)[..0];
    assert AcceptedAt(events, 0) && AcceptedAt(events, n);
  }

  // ---------- forgetting does not widen the clock window ----------

  /** Whatever the guard has forgotten in between, two acceptances of one frame are at most 60 seconds
      apart on the gateway's clock. */
  lemma ClockWindow(events: seq<Event>, i: nat, j: nat)
    requires i < |events| && j < |events| && AcceptedAt(events, i) && AcceptedAt(events, j)
    requires events[i].delivery.timestamp == events[j].delivery.timestamp
    ensures -60 <= events[i].now - events[j].now <= 60
  {
  }

  // ---------- device independence ----------

  predicate Concerns(e: Event, id: u32) {
    match e
    case Check(_, d) => d.deviceId == id
    case Remove(other) => other == id
    case Restart => true
  }

  function OfDevice(events: seq<Event>, id: u32): seq<Event> {
    if events == [] then [] else
      OfDevice(events[..|events| - 1], id) + if Concerns(events[|events| - 1], id) then [events[|events| - 1]] else []
  }

  /** The verdicts on one device's frames, in order. */
  function VerdictsFor(events: seq<Event>, id: u32): seq<Verdict> {
    if events == [] then [] else
      var n := |events| - 1;
      var e := events[n];
      VerdictsFor(events[..n], id)
      + if e.Check? && e.delivery.deviceId == id then [VerdictOn(Run(map[], events[..n]), e.now, e.delivery)] else []
  }

  /** A step treats a device by that device's own state, and touches no other device. */
  lemma StepOnDevice(a: Devices, b: Devices, e: Event, id: u32)
    requires Lookup(a, id) == Lookup(b, id) && (id in a <==> id in b)
    ensures e.Check? && e.delivery.deviceId == id ==> VerdictOn(a, e.now, e.delivery) == VerdictOn(b, e.now, e.delivery)
    ensures Concerns(e, id) ==>
              Lookup(Step(a, e), id) == Lookup(Step(b, e), id) && (id in Step(a, e) <==> id in Step(b, e))
    ensures !Concerns(e, id) ==> Lookup(Step(a, e), id) == Lookup(a, id) && (id in Step(a, e) <==> id in a)
  {
  }

  /** The verdicts on a device's frames and its final state are those of a guard that saw that device's
      events alone. */
  lemma {:induction false} DeviceIndependence(events: seq<Event>, id: u32)
    ensures Lookup(Run(map[], events), id) == Lookup(Run(map[], OfDevice(events, id)), id)
    ensures id in Run(map[], events) <==> id in Run(map[], OfDevice(events, id))
    ensures VerdictsFor(events, id) == VerdictsFor(OfDevice(events, id), id)
  {
    hide VerdictOn, Lookup, Step;
    if events != [] {
      var n := |events| - 1;
      var own := OfDevice(events[..n], id);
      DeviceIndependence(events[..n], id);
      StepOnDevice(Run(map[], events[..n]), Run(map[], own), events[n], id);
      if Concerns(events[n], id) {
        assert OfDevice(events, id)[..|own|] == own;
      } else {
        assert OfDevice(events, id) == own;
      }
    }
  }

  // ---------- rejected frames are erasable ----------

  /** The events that remain when those marked false are deleted. */
  function Kept(events: seq<Event>, keep: seq<bool>): seq<Event>
    requires |keep| == |events|
  {
    if events == [] then [] else
      var n := |events| - 1;
      Kept(events[..n], keep[..n]) + if keep[n] then [events[n]] else []
  }

  function Verdicts(events: seq<Event>): (s: seq<bool>)
    ensures |s| == |events|
  {
    if events == [] then [] else
      var n := |events| - 1;
      Verdicts(events[..n]) + [AcceptedAt(events, n)]
  }

  function KeptVerdicts(verdicts: seq<bool>, keep: seq<bool>): seq<bool>
    requires |keep| == |verdicts|
  {
    if verdicts == [] then [] else
      var n := |verdicts| - 1;
      KeptVerdicts(verdicts[..n], keep[..n]) + if keep[n] then [verdicts[n]] else []
  }

  lemma RejectionLeavesNoTrace(devices: Devices, e: Event)
    requires e.Check? && !Accepts(devices, e)
    ensures Step(devices, e) == devices
  {
  }

  /** Only rejected frames are deleted. */
  ghost predicate OnlyRejectedDeleted(events: seq<Event>, keep: seq<bool>)
    requires |keep| == |events|
  {
    forall i :: 0 <= i < |events| && !keep[i] ==> events[i].Check? && !AcceptedAt(events, i)
  }

  lemma DeletedPrefix(events: seq<Event>, keep: seq<bool>, n: nat)
    requires |keep| == |events| && n <= |events| && OnlyRejectedDeleted(events, keep)
    ensures OnlyRejectedDeleted(events[..n], keep[..n])
  {
    hide Accepts;
    forall i | 0 <= i < n && !keep[..n][i]
      ensures events[..n][i].Check? && !AcceptedAt(events[..n], i)
    {
      assert events[..n][..i] == events[..i];
      assert !keep[i];
    }
  }

  lemma VerdictsAppend(events: seq<Event>, e: Event)
    ensures Verdicts(events + [e]) == Verdicts(events) + [Accepts(Run(map[], events), e)]
    ensures Run(map[], events + [e]) == Step(Run(map[], events), e)
  {
    hide Accepts, Step;
    assert (events + [e])[..|events|] == events;
  }

  lemma KeptAppend(events: seq<Event>, e: Event, keep: seq<bool>)
    requires |keep| == |events| + 1
    ensures Kept(events + [e], keep) == Kept(events, keep[..|events|]) + if keep[|events|] then [e] else []
  {
    assert (events + [e])[..|events|] == events;
  }

  lemma KeptVerdictsAppend(verdicts: seq<bool>, v: bool, keep: seq<bool>)
    requires |keep| == |verdicts| + 1
    ensures KeptVerdicts(verdicts + [v], keep)
         == KeptVerdicts(verdicts, keep[..|verdicts|]) + if keep[|verdicts|] then [v] else []
  {
    assert (verdicts + [v])[..|verdicts|] == verdicts;
  }

  lemma DeletionStep(events: seq<Event>, e: Event, keep: seq<bool>)
    requires |keep| == |events| + 1
    requires !keep[|events|] ==> e.Check? && !Accepts(Run(map[], events), e)
    requires var kept := Kept(events, keep[..|events|]);
             && Run(map[], kept) == Run(map[], events)
             && Verdicts(kept) == KeptVerdicts(Verdicts(events), keep[..|events|])
    ensures var kept := Kept(events + [e], keep);
            && Run(map[], kept) == Run(map[], events + [e])
            && Verdicts(kept) == KeptVerdicts(Verdicts(events + [e]), keep)
  {
    hide Accepts, Step, Kept, KeptVerdicts, Run, Verdicts;
    var kept := Kept(events, keep[..|events|]);
    KeptAppend(events, e, keep);
    VerdictsAppend(events, e);
    KeptVerdictsAppend(Verdicts(events), Accepts(Run(map[], events), e), keep);
    if keep[|events|] {
      VerdictsAppend(kept, e);
    } else {
      RejectionLeavesNoTrace(Run(map[], events), e);
      assert kept + [] == kept;
    }
  }

  /** Deleting any rejected frames from a run changes no other verdict and not the final state. */
  lemma {:induction false} RejectedFramesErasable(events: seq<Event>, keep: seq<bool>)
    requires |keep| == |events|
    requires forall i :: 0 <= i < |events| && !keep[i] ==> events[i].Check? && !AcceptedAt(events, i)
    ensures Run(map[], Kept(events, keep)) == Run(map[], events)
    ensures Verdicts(Kept(events, keep)) == KeptVerdicts(Verdicts(events), keep)
  {
    assert OnlyRejectedDeleted(events, keep);
    if events != [] {
      var n := |events| - 1;
      DeletedPrefix(events, keep, n);
      RejectedFramesErasable(events[..n], keep[..n]);
      assert events[..n] + [events[n]] == events;
      DeletionStep(events[..n], events[n], keep);
    }
  }

  // ---------- the accepted numbers are the running maxima ----------

  /** A frame about which the clock and the nonce cache have nothing to say: timely, numbered, and sharing
      a nonce with a recently accepted frame only if it shares its number too. */
  ghost predicate Ordinary(events: seq<Event>, i: nat)
    requires i < |events| && events[i].Check?
  {
    var d := events[i].delivery;
    var h := HistoryOf(events[..i], d.deviceId);
    && -30 <= events[i].now - d.timestamp <= 30
    && d.sequenceNr >= 1
    && forall k :: 0 <= k < |h| && |h| - 64 <= k && h[k].nonce == d.nonce ==>
         h[k].sequenceNr == d.sequenceNr
  }

  ghost predicate AllOrdinary(events: seq<Event>, id: u32) {
    forall i :: 0 <= i < |events| ==> events[i].Check? && (events[i].delivery.deviceId == id ==> Ordinary(events, i))
  }

  ghost predicate AboveAllBefore(events: seq<Event>, i: nat)
    requires i < |events| && (forall k :: 0 <= k <= i ==> events[k].Check?)
  {
    forall k :: 0 <= k < i && events[k].delivery.deviceId == events[i].delivery.deviceId ==>
      events[k].delivery.sequenceNr < events[i].delivery.sequenceNr
  }

  /** The last accepted number is the largest delivered so far. */
  ghost predicate LatestIsMaximum(events: seq<Event>, id: u32)
    requires forall k :: 0 <= k < |events| ==> events[k].Check?
  {
    var h := HistoryOf(events, id);
    && (forall k :: 0 <= k < |events| && events[k].delivery.deviceId == id ==>
          events[k].delivery.sequenceNr <= Latest(h))
    && (h == []
        || exists k ::
             0 <= k < |events| && events[k].delivery.deviceId == id && events[k].delivery.sequenceNr == Latest(h))
    && (forall k :: 0 <= k < |h| ==> h[k].sequenceNr >= 1)
  }

  lemma OrdinaryPrefix(events: seq<Event>, id: u32, n: nat)
    requires AllOrdinary(events, id) && n <= |events|
    ensures AllOrdinary(events[..n], id)
  {
    assert forall i :: 0 <= i < n ==> events[..n][..i] == events[..i];
  }

  lemma OrdinaryAcceptance(events: seq<Event>, id: u32, i: nat)
    requires AllOrdinary(events, id) && i < |events| && events[i].delivery.deviceId == id
    requires forall k :: 0 <= k < i ==> events[..i][k].Check?
    requires LatestIsMaximum(events[..i], id)
    ensures events[i].delivery.sequenceNr >= 1
    ensures AcceptedAt(events, i) <==> AboveAllBefore(events, i)
    ensures AcceptedAt(events, i) <==> Latest(HistoryOf(events[..i], id)) < events[i].delivery.sequenceNr
  {
    var h, d := HistoryOf(events[..i], id), events[i].delivery;
    AcceptanceMeansFresh(events[..i], events[i].now, d);
    HistoryInvariant(events[..i], id);
    assert Ordinary(events, i);
    if Latest(h) < d.sequenceNr {
      forall k | 0 <= k < |h|
        ensures h[k].sequenceNr < d.sequenceNr
      {
        assert k < |h| - 1 ==> h[k].sequenceNr < h[|h| - 1].sequenceNr;
      }
      forall k | 0 <= k < i && events[k].delivery.deviceId == id
        ensures events[k].delivery.sequenceNr < d.sequenceNr
      {
        assert events[..i][k].delivery.sequenceNr <= Latest(h);
      }
    } else {
      assert h != [];
      var k :| 0 <= k < i && events[..i][k].delivery.deviceId == id && events[..i][k].delivery.sequenceNr == Latest(h);
      assert events[k].delivery.sequenceNr >= d.sequenceNr;
      assert h[|h| - 1].sequenceNr >= d.sequenceNr;
    }
  }

  lemma {:induction false} LatestStaysMaximum(events: seq<Event>, id: u32)
    requires AllOrdinary(events, id)
    ensures LatestIsMaximum(events, id)
  {
    hide Ordinary, AcceptedAt, AboveAllBefore;
    if events != [] {
      var n := |events| - 1;
      OrdinaryPrefix(events, id, n);
      LatestStaysMaximum(events[..n], id);
      var h, h' := HistoryOf(events[..n], id), HistoryOf(events, id);
      if events[n].delivery.deviceId == id {
        OrdinaryAcceptance(events, id, n);
      }
      forall k | 0 <= k < n && events[k].delivery.deviceId == id
        ensures events[k].delivery.sequenceNr <= Latest(h)
      {
        assert events[..n][k].delivery.sequenceNr <= Latest(h);
      }
      if h' == h && h != [] {
        var k :| 0 <= k < n && events[..n][k].delivery.deviceId == id
          && events[..n][k].delivery.sequenceNr == Latest(h);
        assert events[k].delivery.sequenceNr == Latest(h');
      }
    }
  }

  /** Among ordinary frames of a device the accepted ones are precisely the strict running maxima of the
      delivered numbers, however frames are duplicated, delayed or reordered. */
  lemma RunningMaxima(events: seq<Event>, id: u32)
    requires AllOrdinary(events, id)
    ensures forall i :: 0 <= i < |events| && events[i].delivery.deviceId == id ==>
              (AcceptedAt(events, i) <==> AboveAllBefore(events, i))
  {
    forall i | 0 <= i < |events| && events[i].delivery.deviceId == id
      ensures AcceptedAt(events, i) <==> AboveAllBefore(events, i)
    {
      OrdinaryPrefix(events, id, i);
      LatestStaysMaximum(events[..i], id);
      OrdinaryAcceptance(events, id, i);
    }
  }

  // ---------- the end of the number space ----------

  /** Once the largest number has been accepted, the device is locked out until it is forgotten. */
  lemma LargestNumberLocksOut(events: seq<Event>, now: u64, d: Delivery)
    requires Latest(HistoryOf(events, d.deviceId)) == U32_MAX
    ensures !Accepts(Run(map[], events), Check(now, d))
  {
  }
}
