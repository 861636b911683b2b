/** The sender's counter as a machine: what memory, flash and the wire hold after each operation of a
    transmission, with a crash possible between any two. */
module SenderMachine {
  import opened Words

  function Incremented(x: u32): u32 {
    (x + 1) % 0x1_0000_0000
  }

  /** How far a transmission has come: the counter counted up, then also saved. */
  datatype Phase = Idle | Counted | Stored

  /** `counter` is in memory and lost in a crash, `saved` is in flash, `wire` is what was sent. */
  datatype SenderState = SenderState(counter: u32, saved: Option<u32>, phase: Phase, wire: seq<u32>)

  datatype SenderStep =
    | Count
    | Store
    | Transmit
    | Abandon   // encryption failed, or the connection took nothing
    | Crash     // at any moment; the sketch then starts over

  function SavedOrZero(saved: Option<u32>): u32 {
    if saved.Some? then saved.value else 0
  }

  function Booted(saved: Option<u32>, wire: seq<u32>): SenderState {
    SenderState(SavedOrZero(saved), saved, Idle, wire)
  }

  function Next(s: SenderState, step: SenderStep): Option<SenderState> {
    match step
    case Count => if s.phase.Idle? then Some(s.(counter := Incremented(s.counter), phase := Counted)) else None
    case Store => if s.phase.Counted? then Some(s.(saved := Some(s.counter), phase := Stored)) else None
    case Transmit => if s.phase.Stored? then Some(s.(wire := s.wire + [s.counter], phase := Idle)) else None
    case Abandon => if s.phase.Stored? then Some(s.(phase := Idle)) else None
    case Crash => Some(Booted(s.saved, s.wire))
  }

  function Exec(saved: Option<u32>, steps: seq<SenderStep>): Option<SenderState> {
    if steps == [] then Some(Booted(saved, [])) else
      match Exec(saved, steps[..|steps| - 1])
      case None => None
      case Some(s) => Next(s, steps[|steps| - 1])
  }

  lemma ExecAppend(saved: Option<u32>, steps: seq<SenderStep>, step: SenderStep)
    requires Exec(saved, steps).Some?
    ensures Exec(saved, steps + [step]) == Next(Exec(saved, steps).value, step)
  {
    assert (steps + [step])[..|steps|] == steps;
  }

  /** Every beginning of a run is a run: each moment between two operations is a state that a crash can hit. */
  lemma {:induction false} ExecPrefix(saved: Option<u32>, steps: seq<SenderStep>, n: nat)
    requires Exec(saved, steps).Some? && n <= |steps|
    ensures Exec(saved, steps[..n]).Some?
    decreases |steps|
  {
    if n == |steps| {
      assert steps[..n] == steps;
    } else {
      ExecPrefix(saved, steps[..|steps| - 1], n);
      assert steps[..|steps| - 1][..n] == steps[..n];
    }
  }

  /** Between two transmissions memory and flash agree, so that a crash then changes nothing. */
  lemma {:induction false} IdleIsSaved(saved: Option<u32>, steps: seq<SenderStep>)
    requires Exec(saved, steps).Some?
    ensures var s := Exec(saved, steps).value;
            && (s.phase.Idle? ==> s.counter == SavedOrZero(s.saved))
            && (s.phase.Stored? ==> s.saved == Some(s.counter))
  {
    if steps != [] {
      IdleIsSaved(saved, steps[..|steps| - 1]);
    }
  }
}
