/** The replay guard: bounded per-device state, and what it says about the unbounded history. */
module Replay {
  import opened Words
  import opened Frames

  const MAX_FRAME_AGE_SECS := 30
  const NONCE_CACHE_SIZE := 64

  datatype ReplayError =
    | FrameStale(age: nat)
    | FrameFuture(ahead: nat)
    | ReplaySequence(sequenceNr: u32)
    | ReplayNonce

  datatype Verdict = Fresh | Rejected(error: ReplayError)

  /** What the guard is told about a frame. */
  datatype Delivery = Delivery(deviceId: u32, sequenceNr: u32, timestamp: u64, nonce: Nonce)

  datatype DeviceState = DeviceState(lastSequenceNr: u32, nonceCache: seq<Nonce>)

  type Devices = map<u32, DeviceState>

  const NEW_DEVICE := DeviceState(0, [])

  function CheckTimestamp(now: u64, timestamp: u64): Verdict {
    if now > timestamp && now - timestamp > MAX_FRAME_AGE_SECS then Rejected(FrameStale(now - timestamp))
    else if timestamp > now && timestamp - now > MAX_FRAME_AGE_SECS then Rejected(FrameFuture(timestamp - now))
    else Fresh
  }

  function CheckSequence(state: DeviceState, sequenceNr: u32): Verdict {
    if state.lastSequenceNr == 0 then Fresh
    else if sequenceNr <= state.lastSequenceNr then Rejected(ReplaySequence(sequenceNr))
    else Fresh
  }

  function CheckNonce(state: DeviceState, nonce: Nonce): Verdict {
    if nonce in state.nonceCache then Rejected(ReplayNonce) else Fresh
  }

  function Lookup(devices: Devices, deviceId: u32): DeviceState {
    if deviceId in devices then devices[deviceId] else NEW_DEVICE
  }

  /** The three checks in their order; the first that fails decides. */
  function VerdictOn(devices: Devices, now: u64, d: Delivery): Verdict {
    var timely := CheckTimestamp(now, d.timestamp);
    var state := Lookup(devices, d.deviceId);
    if timely.Rejected? then timely
    else if CheckSequence(state, d.sequenceNr).Rejected? then CheckSequence(state, d.sequenceNr)
    else CheckNonce(state, d.nonce)
  }

  function Remember(state: DeviceState, d: Delivery): DeviceState {
    var kept := if |state.nonceCache| >= NONCE_CACHE_SIZE then state.nonceCache[1..] else state.nonceCache;
    DeviceState(d.sequenceNr, kept + [d.nonce])
  }

  function Checked(devices: Devices, now: u64, d: Delivery): Devices {
    if VerdictOn(devices, now, d).Fresh?
    then devices[d.deviceId := Remember(Lookup(devices, d.deviceId), d)]
    else devices
  }

  // ---------- the history that the bounded state stands for ----------

  datatype Acceptance = Acceptance(sequenceNr: u32, timestamp: u64, nonce: Nonce, now: u64)

  type History = seq<Acceptance>

  function Accept(now: u64, d: Delivery): Acceptance {
    Acceptance(d.sequenceNr, d.timestamp, d.nonce, now)
  }

  function Recent(h: History): (r: History)
    ensures |r| == if |h| < 64 then |h| else 64
  {
    if |h| < 64 then h else h[|h| - 64..]
  }

  function Nonces(h: History): (s: seq<Nonce>)
    ensures |s| == |h| && forall i :: 0 <= i < |h| ==> s[i] == h[i].nonce
  {
    seq(|h|, i requires 0 <= i < |h| => h[i].nonce)
  }

  function Latest(h: History): u32 {
    if h == [] then 0 else h[|h| - 1].sequenceNr
  }

  /** The device state of a history: its last number, and the nonces of its last 64 acceptances in order. */
  function StateOf(h: History): DeviceState {
    DeviceState(Latest(h), Nonces(Recent(h)))
  }

  /** A run of zeros, then strictly increasing positive numbers. Zero is also the guard's sentinel for "no
      number seen", so it does not stop another zero. */
  ghost predicate ZerosThenIncreasing(h: History) {
    forall i, j :: 0 <= i < j < |h| ==> h[i].sequenceNr == 0 || h[i].sequenceNr < h[j].sequenceNr
  }

  /** Acceptance, said without the bounded state: timely, above every positive number accepted before, and
      carrying none of the last 64 accepted nonces. */
  ghost predicate IsFresh(h: History, now: u64, d: Delivery) {
    && -30 <= now - d.timestamp <= 30
    && (forall i :: 0 <= i < |h| ==> h[i].sequenceNr == 0 || h[i].sequenceNr < d.sequenceNr)
    && (forall i :: 0 <= i < |h| && |h| - 64 <= i ==> h[i].nonce != d.nonce)
  }

  lemma SequenceDecided(h: History, sequenceNr: u32)
    requires ZerosThenIncreasing(h)
    ensures CheckSequence(StateOf(h), sequenceNr).Fresh?
       <==> forall i :: 0 <= i < |h| ==> h[i].sequenceNr == 0 || h[i].sequenceNr < sequenceNr
  {
  }

  lemma NonceDecided(h: History, nonce: Nonce)
    ensures CheckNonce(StateOf(h), nonce).Fresh?
       <==> forall i :: 0 <= i < |h| && |h| - 64 <= i ==> h[i].nonce != nonce
  {
  }

  /** The bounded checks decide the unbounded question. */
  lemma ChecksDecideFreshness(devices: Devices, h: History, now: u64, d: Delivery)
    requires Lookup(devices, d.deviceId) == StateOf(h) && ZerosThenIncreasing(h)
    ensures VerdictOn(devices, now, d).Fresh? <==> IsFresh(h, now, d)
  {
  }

  /** The clock's verdict, for any device map: both directions allow thirty seconds, inclusive, and the error
      carries the distance. */
  lemma ClockVerdict(devices: Devices, now: u64, d: Delivery)
    ensures var v := VerdictOn(devices, now, d);
            && (v.Rejected? && v.error.FrameStale? <==> now - d.timestamp > 30)
            && (v.Rejected? && v.error.FrameStale? ==> v.error.age == now - d.timestamp)
            && (v.Rejected? && v.error.FrameFuture? <==> d.timestamp - now > 30)
            && (v.Rejected? && v.error.FrameFuture? ==> v.error.ahead == d.timestamp - now)
  {
  }

  lemma RecentAppend(h: History, a: Acceptance)
    ensures Nonces(Recent(h + [a]))
         == (if |h| >= 64 then Nonces(Recent(h))[1..] else Nonces(Recent(h))) + [a.nonce]
  {
    var kept := if |h| >= 64 then Nonces(Recent(h))[1..] else Nonces(Recent(h));
    forall i | 0 <= i < |kept|
      ensures Nonces(Recent(h + [a]))[i] == kept[i]
    {
    }
  }

  lemma RememberExtends(h: History, now: u64, d: Delivery)
    ensures Remember(StateOf(h), d) == StateOf(h + [Accept(now, d)])
  {
    hide Nonces, Recent;
    RecentAppend(h, Accept(now, d));
  }

  type Histories = map<u32, History>

  ghost function HistoryIn(histories: Histories, deviceId: u32): History {
    if deviceId in histories then histories[deviceId] else []
  }

  /** Each entry of the map is the state of a nonempty history of that device. */
  ghost predicate Stands(devices: Devices, histories: Histories) {
    && devices.Keys == histories.Keys
    && forall id :: id in devices ==>
         histories[id] != [] && devices[id] == StateOf(histories[id]) && ZerosThenIncreasing(histories[id])
  }

  ghost function Recorded(devices: Devices, histories: Histories, now: u64, d: Delivery): Histories {
    if VerdictOn(devices, now, d).Fresh?
    then histories[d.deviceId := HistoryIn(histories, d.deviceId) + [Accept(now, d)]]
    else histories
  }

  lemma LookupStands(devices: Devices, histories: Histories, id: u32)
    requires Stands(devices, histories)
    ensures Lookup(devices, id) == StateOf(HistoryIn(histories, id)) && ZerosThenIncreasing(HistoryIn(histories, id))
  {
  }

  lemma FreshExtends(h: History, now: u64, d: Delivery)
    requires ZerosThenIncreasing(h) && IsFresh(h, now, d)
    ensures ZerosThenIncreasing(h + [Accept(now, d)])
  {
  }

  /** One check keeps the bounded state and the unbounded histories in step. */
  lemma CheckedStands(devices: Devices, histories: Histories, now: u64, d: Delivery)
    requires Stands(devices, histories)
    ensures Stands(Checked(devices, now, d), Recorded(devices, histories, now, d))
    ensures VerdictOn(devices, now, d).Fresh? <==> IsFresh(HistoryIn(histories, d.deviceId), now, d)
  {
    hide VerdictOn, StateOf, Remember, IsFresh, ZerosThenIncreasing, Accept;
    var h := HistoryIn(histories, d.deviceId);
    LookupStands(devices, histories, d.deviceId);
    ChecksDecideFreshness(devices, h, now, d);
    RememberExtends(h, now, d);
    if IsFresh(h, now, d) {
      FreshExtends(h, now, d);
    }
  }

  // ---------- the class ----------

  class ReplayGuard {
    var devices: Devices
    ghost var histories: Histories

    ghost predicate Valid()
      reads this
    {
      Stands(devices, histories)
    }

    constructor ()
      ensures Valid() && devices == map[] && histories == map[]
    {
      devices := map[];
      histories := map[];
    }

    /** The checks and the update. The device's entry is created before two of the checks run, yet a
        rejection leaves the map as it was: a device without an entry passes both. */
    method CheckAndUpdate(deviceId: u32, sequenceNr: u32, timestamp: u64, nonce: Nonce,
          now: u64) returns (verdict: Verdict)
      modifies this`devices
      ensures var d := Delivery(deviceId, sequenceNr, timestamp, nonce);
              verdict == VerdictOn(old(devices), now, d) && devices == Checked(old(devices), now, d)
    {
      verdict := CheckTimestamp(now, timestamp);
      if verdict.Rejected? {
        return;
      }
      if deviceId !in devices {
        devices := devices[deviceId := NEW_DEVICE];
      }
      var state := devices[deviceId];
      verdict := CheckSequence(state, sequenceNr);
      if verdict.Rejected? {
        return;
      }
      verdict := CheckNonce(state, nonce);
      if verdict.Rejected? {
        return;
      }
      state := state.(lastSequenceNr := sequenceNr);
      if |state.nonceCache| >= NONCE_CACHE_SIZE {
        state := state.(nonceCache := state.nonceCache[1..]);
      }
      state := state.(nonceCache := state.nonceCache + [nonce]);
      devices := devices[deviceId := state];
    }

    /** Decides exactly freshness with respect to the whole history, records an accepted frame, and leaves
        no trace of a rejected one. */
    method Check(deviceId: u32, sequenceNr: u32, timestamp: u64, nonce: Nonce, now: u64) returns (verdict: Verdict)
      requires Valid()
      modifies this
      ensures Valid()
      ensures var d := Delivery(deviceId, sequenceNr, timestamp, nonce);
              && verdict == VerdictOn(old(devices), now, d)
              && (verdict.Fresh? <==> IsFresh(old(HistoryIn(histories, deviceId)), now, d))
              && devices == Checked(old(devices), now, d)
              && histories == Recorded(old(devices), old(histories), now, d)
    {
      ghost var d := Delivery(deviceId, sequenceNr, timestamp, nonce);
      CheckedStands(devices, histories, now, d);
      histories := Recorded(devices, histories, now, d);
      verdict := CheckAndUpdate(deviceId, sequenceNr, timestamp, nonce, now);
    }

    method RemoveDevice(deviceId: u32)
      requires Valid()
      modifies this
      ensures Valid()
      ensures devices == old(devices) - {deviceId} && histories == old(histories) - {deviceId}
      ensures HistoryIn(histories, deviceId) == []
    {
      devices := devices - {deviceId};
      histories := histories - {deviceId};
    }
  }
}
