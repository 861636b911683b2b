/** The simulator's frames at the gateway, among anything that other peers send. */
module SimulatorAtGateway {
  import opened Words
  import opened Frames
  import opened Gateway
  import opened Registry
  import opened SenderAtGateway
  import opened Simulator
  import SensorPayloads
  import SenderRuns

  /** The temperatures of the first `count` turns. */
  function Temperatures(count: u32): (s: seq<SensorPayloads.SensorPayload>)
    ensures |s| == count && forall k :: 0 <= k < count ==> s[k] == ReadingAt(k + 1)
  {
    seq(count, k requires 0 <= k < count => ReadingAt(k + 1))
  }

  lemma RunFrameSupported(nr: u32, clock: u32 -> u64, cipher: u32 -> (Cipher, Tag))
    ensures RunFrame(nr, clock, cipher).Supported() && RunFrame(nr, clock, cipher).deviceId == DEVICE_ID
    ensures RunFrame(nr, clock, cipher).sequenceNr == nr
  {
  }

  lemma RunNoncesDiffer(m: u32, n: u32, clock: u32 -> u64, cipher: u32 -> (Cipher, Tag))
    requires m != n
    ensures RunFrame(m, clock, cipher).nonce != RunFrame(n, clock, cipher).nonce
  {
    if RunFrame(m, clock, cipher).nonce == RunFrame(n, clock, cipher).nonce {
      NonceSpellsNumber(DEVICE_ID, m, clock(m), DEVICE_ID, n, clock(n));
    }
  }

  /** A run's frames are numbered from one upwards, and no nonce is used twice. */
  lemma RunIsNumbered(count: u32, clock: u32 -> u64, cipher: u32 -> (Cipher, Tag))
    ensures var frames := Written(count, false, clock, cipher);
            && |frames| == count && (forall k :: 0 <= k < count ==> frames[k] == RunFrame(k + 1, clock, cipher))
            && SenderRuns.Numbered(Deliveries(frames), DEVICE_ID) && AllSupported(frames)
  {
    hide RunFrame, Written;
    WrittenNumbers(count, false, clock, cipher);
    var frames := Written(count, false, clock, cipher);
    forall k | 0 <= k < count
      ensures frames[k].Supported() && frames[k].deviceId == DEVICE_ID && frames[k].sequenceNr == k + 1
    {
      RunFrameSupported(k + 1, clock, cipher);
    }
    forall i, j | 0 <= i < j < count
      ensures frames[i].nonce != frames[j].nonce
    {
      RunNoncesDiffer(i + 1, j + 1, clock, cipher);
    }
  }

  // ---------- a device among others ----------

  lemma {:induction false} OwnMembers(seen: seq<Opened>, id: u32)
    ensures forall o :: o in OnlyDevice(seen, id) <==> o in seen && o.frame.deviceId == id
  {
    if seen != [] {
      assert seen == seen[..|seen| - 1] + [seen[|seen| - 1]];
      OwnMembers(seen[..|seen| - 1], id);
    }
  }

  /** Taking the lead is a matter of the device's own frames. */
  lemma LeadAmongOwn(before: seq<Opened>, o: Opened)
    ensures TakesLead(before, o) <==> TakesLead(OnlyDevice(before, o.frame.deviceId), o)
  {
    OwnMembers(before, o.frame.deviceId);
  }

  lemma {:induction false} LeadersOfOwn(seen: seq<Opened>, id: u32)
    ensures LeadersOf(seen, id) == LeadersOf(OnlyDevice(seen, id), id)
  {
    hide TakesLead;
    if seen != [] {
      var n := |seen| - 1;
      var own := OnlyDevice(seen[..n], id);
      LeadersOfOwn(seen[..n], id);
      LeadAmongOwn(seen[..n], seen[n]);
      if seen[n].frame.deviceId == id {
        assert OnlyDevice(seen, id)[..|own|] == own;
      } else {
        assert OnlyDevice(seen, id) == own;
      }
    }
  }

  // ---------- the run among them ----------

  /** A run arrives: its writes, in order, and all but the replayed one in time. */
  ghost predicate RunArrives(own: seq<Opened>, count: u32, replayMode: bool, clock: u32 -> u64,
        cipher: u32 -> (Cipher, Tag)) {
    var written := Written(count, replayMode, clock, cipher);
    && |own| == |written|
    && forall k :: 0 <= k < |own| ==> own[k].frame == written[k] && ((replayMode && k == 5) || Timely(own[k]))
  }

  /** The turns that the first `n` writes have come to. */
  function TurnsIn(n: nat, replayMode: bool): nat {
    if replayMode && n >= 6 then n - 1 else n
  }

  function RunReading(nr: u32, clock: u32 -> u64): Reading {
    Reading(DEVICE_ID, SENSOR_TEMPERATURE, Temperature(nr), UNIT_CELSIUS, nr, clock(nr))
  }

  /** One reading per turn. */
  function RunReadings(count: u32, clock: u32 -> u64): (s: seq<Reading>)
    ensures |s| == count
  {
    seq(count, k requires 0 <= k < count => RunReading(k + 1, clock))
  }

  /** Each write but the replayed one takes the lead. */
  lemma WriteTakesLead(own: seq<Opened>, count: u32, replayMode: bool, clock: u32 -> u64,
        cipher: u32 -> (Cipher, Tag), n: nat)
    requires RunArrives(own, count, replayMode, clock, cipher) && n < |own|
    ensures TakesLead(own[..n], own[n]) <==> !(replayMode && n == 5)
    ensures 1 <= NumberAt(n, replayMode) <= count
    ensures own[n].frame == RunFrame(NumberAt(n, replayMode), clock, cipher)
  {
    hide RunFrame, Written;
    WrittenNumbers(count, replayMode, clock, cipher);
    forall k | 0 <= k <= n
      ensures own[k].frame.deviceId == DEVICE_ID && own[k].frame.sequenceNr == NumberAt(k, replayMode)
    {
      RunFrameSupported(NumberAt(k, replayMode), clock, cipher);
    }
    if replayMode && n == 5 {
      assert own[0] in own[..n];
    }
  }

  /** Each frame reads as its number's temperature. */
  ghost predicate ReadsAsNumbered(own: seq<Opened>, count: u32, clock: u32 -> u64) {
    forall o :: o in own ==>
      o.frame.sequenceNr <= count && ReadingFrom(o) == [RunReading(o.frame.sequenceNr, clock)]
  }

  lemma OneMoreReading(leaders: seq<Opened>, o: Opened, t: u32, clock: u32 -> u64)
    requires t < U32_MAX && ReadingsFrom(leaders) == RunReadings(t, clock)
    requires ReadingFrom(o) == [RunReading(t + 1, clock)]
    ensures ReadingsFrom(leaders + [o]) == RunReadings(t + 1, clock)
  {
    hide ReadingFrom, RunReading, ReadingsFrom;
    ReadingsFromAppend(leaders, o);
    assert RunReadings(t + 1, clock) == RunReadings(t, clock) + [RunReading(t + 1, clock)];
  }

  lemma LeadersAppend(before: seq<Opened>, o: Opened, id: u32)
    ensures LeadersOf(before + [o], id)
         == LeadersOf(before, id) + if o.frame.deviceId == id && TakesLead(before, o) then [o] else []
  {
    hide TakesLead;
    assert (before + [o])[..|before|] == before;
  }

  lemma NoLeaders(clock: u32 -> u64)
    ensures ReadingsFrom(LeadersOf([], DEVICE_ID)) == RunReadings(0, clock)
  {
  }

  lemma {:induction false} RunLeaders(own: seq<Opened>, count: u32, replayMode: bool, clock: u32 -> u64,
        cipher: u32 -> (Cipher, Tag), n: nat)
    requires RunArrives(own, count, replayMode, clock, cipher) && n <= |own| && ReadsAsNumbered(own, count, clock)
    ensures TurnsIn(n, replayMode) <= count
    ensures ReadingsFrom(LeadersOf(own[..n], DEVICE_ID)) == RunReadings(TurnsIn(n, replayMode), clock)
    decreases n
  {
    hide RunFrame, RunArrives, TakesLead, ReadingFrom, RunReading, LeadersOf, ReadingsFrom;
    if n == 0 {
      NoLeaders(clock);
      assert own[..0] == [];
    } else {
      var m := n - 1;
      var leaders := LeadersOf(own[..m], DEVICE_ID);
      RunLeaders(own, count, replayMode, clock, cipher, m);
      WriteTakesLead(own, count, replayMode, clock, cipher, m);
      RunFrameSupported(NumberAt(m, replayMode), clock, cipher);
      assert own[..n] == own[..m] + [own[m]] && own[m] in own;
      LeadersAppend(own[..m], own[m], DEVICE_ID);
      if replayMode && m == 5 {
        assert leaders + [] == leaders;
      } else {
        OneMoreReading(leaders, own[m], TurnsIn(m, replayMode), clock);
      }
    }
  }

  lemma RunFrameTime(nr: u32, clock: u32 -> u64, cipher: u32 -> (Cipher, Tag))
    ensures RunFrame(nr, clock, cipher).timestamp == clock(nr)
  {
  }

  lemma RunMeant(seen: seq<Opened>, count: u32, clock: u32 -> u64, cipher: u32 -> (Cipher, Tag))
    requires |Written(count, false, clock, cipher)| == count
    requires ReadAsMeant(seen, DEVICE_ID, Written(count, false, clock, cipher), Temperatures(count))
    ensures ReadsAsNumbered(OnlyDevice(seen, DEVICE_ID), count, clock)
  {
    hide RunFrame, ReadingFrom, Written, Temperature;
    RunIsNumbered(count, clock, cipher);
    OwnMembers(seen, DEVICE_ID);
    var frames := Written(count, false, clock, cipher);
    forall o | o in OnlyDevice(seen, DEVICE_ID)
      ensures o.frame.sequenceNr <= count && ReadingFrom(o) == [RunReading(o.frame.sequenceNr, clock)]
    {
      var i := IndexOf(frames, o.frame);
      RunFrameSupported(i + 1, clock, cipher);
      RunFrameTime(i + 1, clock, cipher);
    }
  }

  lemma RunLength(own: seq<Opened>, count: u32, replayMode: bool, clock: u32 -> u64, cipher: u32 -> (Cipher, Tag))
    requires RunArrives(own, count, replayMode, clock, cipher)
    ensures TurnsIn(|own|, replayMode) == count
  {
    hide RunFrame;
    WrittenNumbers(count, replayMode, clock, cipher);
  }

  /** A simulator's run at the gateway: whatever bytes else arrive in between, as long as nobody else seals in
      its name, a run that arrives in order and in time is published as one reading per turn, each with its
      own temperature, in order and replayed or not. */
  lemma RunPublished(registry: DeviceRegistry, vault: Vault, arrivals: seq<Arrival>, count: u32, replayMode: bool,
        clock: u32 -> u64, cipher: u32 -> (Cipher, Tag))
    requires SealsFor(vault, DEVICE_ID, Written(count, false, clock, cipher))
    requires SealedOver(vault, Written(count, false, clock, cipher), Temperatures(count))
    requires RunArrives(OnlyDevice(OpenedOf(registry, vault, arrivals), DEVICE_ID), count, replayMode, clock, cipher)
    ensures var g := ProcessAll(registry, vault, Shared(map[], [], []), arrivals);
            OfDevice(g.readings, DEVICE_ID) == RunReadings(count, clock)
  {
    hide OpenedOf, ProcessAll, SealsFor, SealedOver, RunArrives, Written, AllSupported, SenderRuns.Numbered;
    hide ReadsAsNumbered, ReadAsMeant, RunReadings, LeadersOf, ReadingsFrom, OnlyDevice, OfDevice;
    var seen := OpenedOf(registry, vault, arrivals);
    var own := OnlyDevice(seen, DEVICE_ID);
    RunIsNumbered(count, clock, cipher);
    ReadingsOfLeaders(registry, vault, arrivals, DEVICE_ID, Written(count, false, clock, cipher), Temperatures(count));
    LeadersOfOwn(seen, DEVICE_ID);
    RunMeant(seen, count, clock, cipher);
    RunLength(own, count, replayMode, clock, cipher);
    RunLeaders(own, count, replayMode, clock, cipher, |own|);
    assert own[..|own|] == own;
  }
}
