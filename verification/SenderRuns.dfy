/** The sender's counter under crashes, and what the gateway makes of the frames it sends. */
module SenderRuns {
  import opened Words
  import opened Frames
  import opened Replay
  import opened ReplayRuns
  import opened SenderMachine
  import Esp32

  // ---------- crashes between any two operations ----------

  /** The run never counts up from the largest number. */
  ghost predicate NeverWraps(saved: Option<u32>, steps: seq<SenderStep>) {
    forall i :: 0 <= i < |steps| && steps[i].Count? && Exec(saved, steps[..i]).Some? ==>
      Exec(saved, steps[..i]).value.counter < U32_MAX
  }

  ghost predicate Increasing(s: seq<u32>) {
    forall i, j :: 0 <= i < j < |s| ==> s[i] < s[j]
  }

  ghost predicate SenderInvariant(saved: Option<u32>, s: SenderState) {
    && Increasing(s.wire)
    && (forall i :: 0 <= i < |s.wire| ==> SavedOrZero(saved) < s.wire[i] <= SavedOrZero(s.saved))
    && SavedOrZero(saved) <= SavedOrZero(s.saved)
    && match s.phase
       case Idle => s.counter == SavedOrZero(s.saved)
       case Counted => s.counter == SavedOrZero(s.saved) + 1
       case Stored =>
         && s.saved == Some(s.counter) && SavedOrZero(saved) < s.counter
         && forall i :: 0 <= i < |s.wire| ==> s.wire[i] < s.counter
  }

  lemma SenderInvariantStep(saved: Option<u32>, s: SenderState, step: SenderStep)
    requires SenderInvariant(saved, s) && Next(s, step).Some? && (step.Count? ==> s.counter < U32_MAX)
    ensures SenderInvariant(saved, Next(s, step).value)
  {
  }

  lemma {:induction false} SenderInvariantHolds(saved: Option<u32>, steps: seq<SenderStep>)
    requires Exec(saved, steps).Some? && NeverWraps(saved, steps)
    ensures SenderInvariant(saved, Exec(saved, steps).value)
  {
    if steps != [] {
      var n := |steps| - 1;
      assert forall i :: 0 <= i < n ==> steps[..n][..i] == steps[..i] && steps[..n][i] == steps[i];
      SenderInvariantHolds(saved, steps[..n]);
      SenderInvariantStep(saved, Exec(saved, steps[..n]).value, steps[n]);
    }
  }

  /** With crashes and reboots between any two operations, the numbers one sender puts on the wire strictly
      increase from above the saved counter, as long as the counter does not wrap. */
  lemma WireStrictlyIncreases(saved: Option<u32>, steps: seq<SenderStep>)
    requires Exec(saved, steps).Some? && NeverWraps(saved, steps)
    ensures Increasing(Exec(saved, steps).value.wire)
    ensures forall nr :: nr in Exec(saved, steps).value.wire ==> SavedOrZero(saved) < nr
  {
    SenderInvariantHolds(saved, steps);
  }

  /** Every sketch that `Esp32.Sender` describes is such a run: whatever it sent, with whatever crashes and
      reboots in between, the numbers in its frames strictly increase, and at every moment between two of
      its operations flash was not behind the wire. */
  lemma SketchNeverRepeats(sender: Esp32.Sender, n: nat)
    requires sender.Consistent() && NeverWraps(sender.initially, sender.trace) && n <= |sender.trace|
    ensures forall i, j :: 0 <= i < j < |sender.wire| ==>
              Esp32.NumberIn(sender.wire[i]) < Esp32.NumberIn(sender.wire[j])
    ensures Exec(sender.initially, sender.trace[..n]).Some?
    ensures var s := Exec(sender.initially, sender.trace[..n]).value;
            forall nr :: nr in s.wire ==> nr <= SavedOrZero(s.saved)
  {
    var wire := Exec(sender.initially, sender.trace).value.wire;
    WireStrictlyIncreases(sender.initially, sender.trace);
    assert forall i :: 0 <= i < |sender.wire| ==> wire[i] == Esp32.NumberIn(sender.wire[i]);
    ExecPrefix(sender.initially, sender.trace, n);
    var t := sender.trace;
    assert forall i :: 0 <= i < n ==> t[..n][..i] == t[..i] && t[..n][i] == t[i];
    SenderInvariantHolds(sender.initially, t[..n]);
  }

  /** Whatever happened before, the next transmission keeps the numbers on the wire strictly increasing
      exactly when the counter does not stand at the largest number, or nothing was sent yet: counting up
      from there sends zero. */
  lemma {:induction false} NextNumberIncreases(saved: Option<u32>, steps: seq<SenderStep>)
    requires Exec(saved, steps).Some? && NeverWraps(saved, steps) && Exec(saved, steps).value.phase.Idle?
    ensures var s := Exec(saved, steps).value;
            Increasing(s.wire + [Incremented(s.counter)]) <==> s.counter < U32_MAX || s.wire == []
  {
    SenderInvariantHolds(saved, steps);
    var s := Exec(saved, steps).value;
    var nr := Incremented(s.counter);
    if s.wire != [] && s.counter == U32_MAX {
      assert (s.wire + [nr])[|s.wire| - 1] >= (s.wire + [nr])[|s.wire|];
    }
  }

  // ---------- honest traffic at the gateway ----------

  ghost predicate FromDevice(events: seq<Event>, i: nat, id: u32)
    requires i < |events|
  {
    events[i].Check? && events[i].delivery.deviceId == id
  }

  /** A timely frame above, and with another nonce than, everything its device delivered before. */
  ghost predicate IsNew(events: seq<Event>, i: nat)
    requires i < |events| && events[i].Check?
  {
    var d := events[i].delivery;
    && -30 <= events[i].now - d.timestamp <= 30
    && d.sequenceNr >= 1
    && forall j :: 0 <= j < i && FromDevice(events, j, d.deviceId) ==>
         events[j].delivery.sequenceNr < d.sequenceNr && events[j].delivery.nonce != d.nonce
  }

  /** A frame delivered before, at whatever clock reading. */
  ghost predicate IsReplay(events: seq<Event>, i: nat)
    requires i < |events| && events[i].Check?
  {
    exists j :: 0 <= j < i && events[j].Check? && events[j].delivery == events[i].delivery
  }

  ghost predicate Honest(events: seq<Event>, id: u32) {
    forall i :: 0 <= i < |events| ==>
      events[i].Check? && (events[i].delivery.deviceId == id ==> IsNew(events, i) || IsReplay(events, i))
  }

  ghost predicate Delivered(events: seq<Event>, id: u32, nr: u32, nonce: Nonce) {
    exists j ::
      && 0 <= j < |events| && FromDevice(events, j, id)
      && events[j].delivery.sequenceNr == nr && events[j].delivery.nonce == nonce
  }

  ghost predicate OnlyDelivered(events: seq<Event>, id: u32) {
    var h := HistoryOf(events, id);
    forall k :: 0 <= k < |h| ==> Delivered(events, id, h[k].sequenceNr, h[k].nonce)
  }

  ghost predicate LatestCovers(events: seq<Event>, id: u32) {
    forall j :: 0 <= j < |events| && FromDevice(events, j, id) ==>
      1 <= events[j].delivery.sequenceNr <= Latest(HistoryOf(events, id))
  }

  /** The history holds delivered frames only, and its last number is no smaller than any delivered. */
  ghost predicate HistoryTracks(events: seq<Event>, id: u32) {
    OnlyDelivered(events, id) && LatestCovers(events, id)
  }

  lemma NothingTracked(id: u32)
    ensures HistoryTracks([], id)
  {
  }

  lemma OnlyDeliveredAppend(events: seq<Event>, id: u32)
    requires events != [] && OnlyDelivered(events[..|events| - 1], id)
    ensures OnlyDelivered(events, id)
  {
  }

  /** Whatever happens, the guard remembers delivered frames only. */
  lemma {:induction false} RemembersDelivered(events: seq<Event>, id: u32)
    ensures OnlyDelivered(events, id)
  {
    hide OnlyDelivered, HistoryOf;
    if events == [] {
      NothingTracked(id);
    } else {
      RemembersDelivered(events[..|events| - 1], id);
      OnlyDeliveredAppend(events, id);
    }
  }

  lemma NewIsFreshFor(events: seq<Event>, i: nat, id: u32)
    requires i < |events| && FromDevice(events, i, id) && IsNew(events, i) && OnlyDelivered(events[..i], id)
    ensures AcceptedAt(events, i)
  {
    var h, d := HistoryOf(events[..i], id), events[i].delivery;
    forall k | 0 <= k < |h|
      ensures h[k].sequenceNr < d.sequenceNr && h[k].nonce != d.nonce
    {
      assert Delivered(events[..i], id, h[k].sequenceNr, h[k].nonce);
      var j :| 0 <= j < i && FromDevice(events[..i], j, id)
        && events[..i][j].delivery.sequenceNr == h[k].sequenceNr && events[..i][j].delivery.nonce == h[k].nonce;
      assert FromDevice(events, j, id);
    }
    AcceptanceMeansFresh(events[..i], events[i].now, d);
  }

  /** In every run, with devices removed and the gateway restarted at any point, a timely frame above, and
      with another nonce than, everything its device delivered before is accepted. */
  lemma NewIsFresh(events: seq<Event>, i: nat, id: u32)
    requires i < |events| && FromDevice(events, i, id) && IsNew(events, i)
    ensures AcceptedAt(events, i)
  {
    RemembersDelivered(events[..i], id);
    NewIsFreshFor(events, i, id);
  }

  lemma ReplayIsRejected(events: seq<Event>, i: nat, id: u32)
    requires i < |events| && FromDevice(events, i, id) && IsReplay(events, i) && HistoryTracks(events[..i], id)
    ensures !AcceptedAt(events, i)
    ensures 1 <= events[i].delivery.sequenceNr <= Latest(HistoryOf(events[..i], id))
  {
    var h, d := HistoryOf(events[..i], id), events[i].delivery;
    var j :| 0 <= j < i && events[j].Check? && events[j].delivery == d;
    assert FromDevice(events[..i], j, id);
    assert h[|h| - 1].sequenceNr >= d.sequenceNr;
    AcceptanceMeansFresh(events[..i], events[i].now, d);
  }

  lemma HonestPrefix(events: seq<Event>, id: u32, n: nat)
    requires Honest(events, id) && n <= |events|
    ensures Honest(events[..n], id)
  {
    var p := events[..n];
    forall i | 0 <= i < n
      ensures p[i].Check? && (p[i].delivery.deviceId == id ==> IsNew(p, i) || IsReplay(p, i))
    {
      assert events[i].Check?;
      if p[i].delivery.deviceId == id {
        if IsNew(events, i) {
          forall j | 0 <= j < i && FromDevice(p, j, id)
            ensures p[j].delivery.sequenceNr < p[i].delivery.sequenceNr && p[j].delivery.nonce != p[i].delivery.nonce
          {
            assert FromDevice(events, j, id);
          }
        } else {
          var j :| 0 <= j < i && events[j].Check? && events[j].delivery == events[i].delivery;
          assert p[j].Check? && p[j].delivery == p[i].delivery;
        }
      }
    }
  }

  lemma LatestCoversAppend(events: seq<Event>, id: u32)
    requires events != [] && Honest(events, id) && HistoryTracks(events[..|events| - 1], id)
    ensures LatestCovers(events, id)
  {
    var n := |events| - 1;
    assert events[n].Check?;
    if events[n].delivery.deviceId == id {
      assert FromDevice(events, n, id);
      if IsNew(events, n) {
        NewIsFresh(events, n, id);
      } else {
        ReplayIsRejected(events, n, id);
      }
    }
    forall j | 0 <= j < n && FromDevice(events, j, id)
      ensures 1 <= events[j].delivery.sequenceNr <= Latest(HistoryOf(events, id))
    {
      assert FromDevice(events[..n], j, id);
    }
  }

  lemma {:induction false} HonestTracks(events: seq<Event>, id: u32)
    requires Honest(events, id)
    ensures HistoryTracks(events, id)
  {
    hide Honest, OnlyDelivered, LatestCovers;
    if events == [] {
      NothingTracked(id);
    } else {
      HonestPrefix(events, id, |events| - 1);
      HonestTracks(events[..|events| - 1], id);
      OnlyDeliveredAppend(events, id);
      LatestCoversAppend(events, id);
    }
  }

  /** In honest traffic the guard accepts every frame on its first delivery and rejects every replay. */
  lemma HonestTrafficSorted(events: seq<Event>, id: u32, i: nat)
    requires Honest(events, id) && i < |events| && FromDevice(events, i, id)
    ensures AcceptedAt(events, i) <==> IsNew(events, i)
    ensures AcceptedAt(events, i) <==> !IsReplay(events, i)
  {
    HonestPrefix(events, id, i);
    HonestTracks(events[..i], id);
    if IsNew(events, i) {
      NewIsFresh(events, i, id);
    }
    if IsReplay(events, i) {
      ReplayIsRejected(events, i, id);
    }
  }

  // ---------- sender and gateway composed ----------

  /** Frames with the numbers that one sender put on the wire, and distinct nonces. */
  ghost predicate SentBy(sent: seq<Delivery>, id: u32, wire: seq<u32>) {
    && |sent| == |wire|
    && (forall i :: 0 <= i < |sent| ==> sent[i].deviceId == id && sent[i].sequenceNr == wire[i])
    && (forall i, j :: 0 <= i < j < |sent| ==> sent[i].nonce != sent[j].nonce)
  }

  /** The `k`th event delivers frame `order[k]` of the sender, unless it concerns another device. */
  ghost predicate Carries(events: seq<Event>, id: u32, sent: seq<Delivery>, order: seq<nat>) {
    && |order| == |events|
    && forall k :: 0 <= k < |events| && FromDevice(events, k, id) ==>
         order[k] < |sent| && events[k].delivery == sent[order[k]]
  }

  /** A frame not overtaken by any of its device's frames delivered before. */
  ghost predicate Advances(events: seq<Event>, id: u32, order: seq<nat>, k: nat)
    requires k < |events| && |order| == |events|
  {
    forall j :: 0 <= j < k && FromDevice(events, j, id) ==> order[j] < order[k]
  }

  ghost predicate Repeats(events: seq<Event>, id: u32, order: seq<nat>, k: nat)
    requires k < |events| && |order| == |events|
  {
    exists j :: 0 <= j < k && FromDevice(events, j, id) && order[j] == order[k]
  }

  /** A lossy channel that keeps the sender's order, into which frames already delivered are replayed at
      will; first deliveries are timely. */
  ghost predicate LossyInOrder(events: seq<Event>, id: u32, order: seq<nat>)
    requires |order| == |events|
  {
    forall k :: 0 <= k < |events| && FromDevice(events, k, id) ==>
      || Repeats(events, id, order, k)
      || (Advances(events, id, order, k)
          && -30 <= events[k].now - events[k].delivery.timestamp <= 30)
  }

  lemma AdvancingIsNew(events: seq<Event>, id: u32, sent: seq<Delivery>, order: seq<nat>, wire: seq<u32>, k: nat)
    requires SentBy(sent, id, wire) && Increasing(wire) && (forall nr :: nr in wire ==> 0 < nr)
    requires Carries(events, id, sent, order) && k < |events| && FromDevice(events, k, id)
    requires Advances(events, id, order, k)
    requires -30 <= events[k].now - events[k].delivery.timestamp <= 30
    ensures IsNew(events, k)
  {
    assert wire[order[k]] in wire;
    forall j | 0 <= j < k && FromDevice(events, j, id)
      ensures events[j].delivery.sequenceNr < events[k].delivery.sequenceNr
      ensures events[j].delivery.nonce != events[k].delivery.nonce
    {
      assert order[j] < order[k];
      assert events[j].delivery == sent[order[j]] && events[k].delivery == sent[order[k]];
    }
  }

  /** The gateway rejects no honest frame of a crashing sender: whatever was lost, whatever already
      delivered frames are replayed in between, and whatever the guard was made to forget by removals and
      restarts, each frame is accepted the first time it arrives. */
  lemma FirstArrivalAccepted(saved: Option<u32>, steps: seq<SenderStep>, id: u32, sent: seq<Delivery>,
        events: seq<Event>,
        order: seq<nat>, k: nat)
    requires Exec(saved, steps).Some? && NeverWraps(saved, steps)
    requires SentBy(sent, id, Exec(saved, steps).value.wire)
    requires Carries(events, id, sent, order) && LossyInOrder(events, id, order)
    requires k < |events| && FromDevice(events, k, id) && !Repeats(events, id, order, k)
    ensures IsNew(events, k) && AcceptedAt(events, k)
  {
    WireStrictlyIncreases(saved, steps);
    AdvancingIsNew(events, id, sent, order, Exec(saved, steps).value.wire, k);
    NewIsFresh(events, k, id);
  }

  /** And as long as nothing is forgotten no replay is ever accepted. */
  lemma NoHonestFrameRejected(saved: Option<u32>, steps: seq<SenderStep>, id: u32, sent: seq<Delivery>,
        events: seq<Event>,
        order: seq<nat>, k: nat)
    requires Exec(saved, steps).Some? && NeverWraps(saved, steps)
    requires SentBy(sent, id, Exec(saved, steps).value.wire)
    requires Carries(events, id, sent, order) && LossyInOrder(events, id, order)
    requires forall i :: 0 <= i < |events| ==> events[i].Check?
    requires k < |events| && FromDevice(events, k, id)
    ensures AcceptedAt(events, k) <==> !Repeats(events, id, order, k)
  {
    forall i | 0 <= i < |events| && events[i].delivery.deviceId == id
      ensures Repeats(events, id, order, i) ==> IsReplay(events, i)
      ensures !Repeats(events, id, order, i) ==> IsNew(events, i)
    {
      assert FromDevice(events, i, id);
      if Repeats(events, id, order, i) {
        var j :| 0 <= j < i && FromDevice(events, j, id) && order[j] == order[i];
        assert events[j].delivery == events[i].delivery;
      } else {
        FirstArrivalAccepted(saved, steps, id, sent, events, order, i);
      }
    }
    HonestTrafficSorted(events, id, k);
  }

  // ---------- any order of arrival ----------

  /** What one sender sends: numbers from one upwards, and no nonce twice. */
  ghost predicate Numbered(sent: seq<Delivery>, id: u32) {
    && (forall i :: 0 <= i < |sent| ==> sent[i].deviceId == id && sent[i].sequenceNr >= 1)
    && (forall i, j :: 0 <= i < j < |sent| ==>
          sent[i].sequenceNr < sent[j].sequenceNr && sent[i].nonce != sent[j].nonce)
  }

  lemma CrashingSenderNumbers(saved: Option<u32>, steps: seq<SenderStep>, id: u32, sent: seq<Delivery>)
    requires Exec(saved, steps).Some? && NeverWraps(saved, steps)
    requires SentBy(sent, id, Exec(saved, steps).value.wire)
    ensures Numbered(sent, id)
  {
    var wire := Exec(saved, steps).value.wire;
    WireStrictlyIncreases(saved, steps);
    assert forall i :: 0 <= i < |wire| ==> wire[i] in wire;
  }

  ghost predicate OnlyFrom(events: seq<Event>, id: u32, sent: seq<Delivery>) {
    forall k :: 0 <= k < |events| && FromDevice(events, k, id) ==> events[k].delivery in sent
  }

  predicate InTime(e: Event) {
    e.Check? && -30 <= e.now - e.delivery.timestamp <= 30
  }

  /** What a device delivered in time since the guard last forgot it. */
  function Known(events: seq<Event>, id: u32): seq<Delivery> {
    if events == [] then [] else
      var n := |events| - 1;
      var before := Known(events[..n], id);
      match events[n]
      case Restart => []
      case Remove(other) => if other == id then [] else before
      case Check(_, d) => if d.deviceId == id && InTime(events[n]) then before + [d] else before
  }

  ghost predicate Above(d: Delivery, others: seq<Delivery>) {
    forall o :: o in others ==> o.sequenceNr < d.sequenceNr
  }

  /** In time, and numbered above every frame its device delivered in time since the guard last forgot it. */
  ghost predicate Leads(events: seq<Event>, k: nat)
    requires k < |events| && events[k].Check?
  {
    InTime(events[k]) && Above(events[k].delivery, Known(events[..k], events[k].delivery.deviceId))
  }

  ghost predicate From(a: Acceptance, others: seq<Delivery>) {
    exists d :: d in others && d.sequenceNr == a.sequenceNr && d.nonce == a.nonce
  }

  /** The history holds known frames only, and its last number is no smaller than any of theirs. */
  ghost predicate Tracks(h: History, known: seq<Delivery>) {
    (forall a :: a in h ==> From(a, known)) && (forall d :: d in known ==> d.sequenceNr <= Latest(h))
  }

  lemma {:induction false} KnownAreSent(sent: seq<Delivery>, events: seq<Event>, id: u32)
    requires OnlyFrom(events, id, sent)
    ensures forall d :: d in Known(events, id) ==> d in sent
  {
    if events != [] {
      var n := |events| - 1;
      assert forall k :: 0 <= k < n && FromDevice(events[..n], k, id) ==> FromDevice(events, k, id);
      KnownAreSent(sent, events[..n], id);
      assert events[n].Check? && events[n].delivery.deviceId == id ==> FromDevice(events, n, id);
    }
  }

  /** Of two frames of one sender the later numbered has another nonce. */
  lemma NumberedApart(sent: seq<Delivery>, id: u32, d: Delivery, e: Delivery)
    requires Numbered(sent, id) && d in sent && e in sent && d.sequenceNr < e.sequenceNr
    ensures 1 <= d.sequenceNr && d.nonce != e.nonce
  {
    var i :| 0 <= i < |sent| && sent[i] == d;
    var j :| 0 <= j < |sent| && sent[j] == e;
  }

  lemma NumberedFromOne(sent: seq<Delivery>, id: u32, d: Delivery)
    requires Numbered(sent, id) && d in sent
    ensures d.sequenceNr >= 1
  {
  }

  /** Where a history tracks what is known, a frame of the sender is fresh exactly when it leads. */
  lemma FreshIfAbove(sent: seq<Delivery>, h: History, known: seq<Delivery>, id: u32, now: u64, d: Delivery)
    requires Numbered(sent, id) && d in sent && (forall o :: o in known ==> o in sent) && Tracks(h, known)
    ensures IsFresh(h, now, d) <==> InTime(Check(now, d)) && Above(d, known)
  {
    hide Numbered;
    NumberedFromOne(sent, id, d);
    if Above(d, known) {
      forall m | 0 <= m < |h|
        ensures h[m].sequenceNr < d.sequenceNr && h[m].nonce != d.nonce
      {
        assert h[m] in h;
        var o :| o in known && o.sequenceNr == h[m].sequenceNr && o.nonce == h[m].nonce;
        NumberedApart(sent, id, o, d);
      }
    }
    if IsFresh(h, now, d) && h != [] {
      assert h[|h| - 1].sequenceNr == 0 || h[|h| - 1].sequenceNr < d.sequenceNr;
    }
  }

  lemma TracksNext(sent: seq<Delivery>, h: History, known: seq<Delivery>, id: u32, now: u64, d: Delivery)
    requires Numbered(sent, id) && d in sent && (forall o :: o in known ==> o in sent) && Tracks(h, known)
    requires InTime(Check(now, d))
    ensures Tracks(if IsFresh(h, now, d) then h + [Accept(now, d)] else h, known + [d])
  {
    hide Numbered, IsFresh;
    FreshIfAbove(sent, h, known, id, now, d);
    forall a | a in h
      ensures From(a, known + [d])
    {
      var o :| o in known && o.sequenceNr == a.sequenceNr && o.nonce == a.nonce;
      assert o in known + [d];
    }
    assert d in known + [d];
    assert From(Accept(now, d), known + [d]);
  }

  lemma NothingKnown()
    ensures Tracks([], [])
  {
  }

  /** What the history becomes when the device delivers a frame. */
  lemma HistoryDelivered(events: seq<Event>, now: u64, d: Delivery)
    ensures var h := HistoryOf(events, d.deviceId);
            HistoryOf(events + [Check(now, d)], d.deviceId)
            == if IsFresh(h, now, d) then h + [Accept(now, d)] else h
  {
    hide VerdictOn, IsFresh;
    AcceptanceMeansFresh(events, now, d);
    assert (events + [Check(now, d)])[..|events|] == events;
  }

  lemma {:induction false} KnownTracked(sent: seq<Delivery>, events: seq<Event>, id: u32)
    requires Numbered(sent, id) && OnlyFrom(events, id, sent)
    ensures Tracks(HistoryOf(events, id), Known(events, id))
  {
    hide Numbered, Tracks, IsFresh, AcceptedAt;
    NothingKnown();
    if events != [] {
      var n := |events| - 1;
      assert forall k :: 0 <= k < n && FromDevice(events[..n], k, id) ==> FromDevice(events, k, id);
      KnownTracked(sent, events[..n], id);
      KnownAreSent(sent, events[..n], id);
      if events[n].Check? && events[n].delivery.deviceId == id {
        assert FromDevice(events, n, id) && events == events[..n] + [events[n]];
        var h, now, d := HistoryOf(events[..n], id), events[n].now, events[n].delivery;
        HistoryDelivered(events[..n], now, d);
        if InTime(events[n]) {
          TracksNext(sent, h, Known(events[..n], id), id, now, d);
        } else {
          FreshIfAbove(sent, h, Known(events[..n], id), id, now, d);
        }
      }
    }
  }

  /** Which of a sender's frames the guard accepts, in every run: in whatever order they arrive, however often,
      at whatever clock readings, and whatever the guard was made to forget, exactly those that lead. */
  lemma AcceptedIfLeads(sent: seq<Delivery>, events: seq<Event>, id: u32, k: nat)
    requires Numbered(sent, id) && OnlyFrom(events, id, sent)
    requires k < |events| && FromDevice(events, k, id)
    ensures AcceptedAt(events, k) <==> Leads(events, k)
  {
    hide Numbered, Tracks, Known, Accepts, Run, IsFresh;
    assert forall j :: 0 <= j < k && FromDevice(events[..k], j, id) ==> FromDevice(events, j, id);
    KnownTracked(sent, events[..k], id);
    KnownAreSent(sent, events[..k], id);
    FreshIfAbove(sent, HistoryOf(events[..k], id), Known(events[..k], id), id, events[k].now, events[k].delivery);
    AcceptanceMeansFresh(events[..k], events[k].now, events[k].delivery);
  }
}
