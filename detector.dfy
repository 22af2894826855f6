/** The crash arm/debounce state machine of the sketch's loop, as a pure step function
    over (`crashArmed`, `lastCrashMillis`), and what it guarantees over a whole run of ticks. */
module Detector {
  import opened Orientation

  /** `millis()` is an `unsigned long`: 32 bits on the target. */
  const ClockModulus: nat := 0x1_0000_0000
  type Millis = n: nat | n < ClockModulus

  /** Minimum time after a crash before another one is registered. */
  const CrashDebounceMs: nat := 3000
  /** Minimum time after a crash before a `Normal` reading re-arms the detector. */
  const RearmDelayMs: nat := 500

  /** `now - since` in unsigned 32-bit arithmetic. */
  function Elapsed(now: Millis, since: Millis): (e: nat)
    ensures e < ClockModulus
    ensures since <= now ==> e == now - since
    ensures now < since ==> e == now + ClockModulus - since
  {
    (now - since) % ClockModulus
  }

  datatype ArmState = ArmState(armed: bool, lastCrash: Millis)

  /** At power-up the detector is armed and the last crash time is 0. */
  const PowerUp := ArmState(true, 0)

  /** One tick of the loop registers a crash exactly when the label is not `Normal`, the
      detector is armed, and more than the debounce window has passed since the last crash. */
  predicate Registers(s: ArmState, pos: Label, now: Millis) {
    pos != Normal && s.armed && Elapsed(now, s.lastCrash) > CrashDebounceMs
  }

  /** The state after one tick. */
  function Next(s: ArmState, pos: Label, now: Millis): ArmState {
    if pos != Normal then
      if s.armed && Elapsed(now, s.lastCrash) > CrashDebounceMs then ArmState(false, now) else s
    else
      if !s.armed && Elapsed(now, s.lastCrash) > RearmDelayMs then ArmState(true, s.lastCrash) else s
  }

  /** A registered crash disarms and stamps the crash time; any other tick keeps the crash time. */
  lemma NextOnCrash(s: ArmState, pos: Label, now: Millis)
    ensures Registers(s, pos, now) ==> Next(s, pos, now) == ArmState(false, now)
    ensures !Registers(s, pos, now) ==> Next(s, pos, now).lastCrash == s.lastCrash
  {
  }

  /** While disarmed no label registers a crash, and the only way out is a `Normal`
      label more than the re-arm delay after the last crash; otherwise nothing changes. */
  lemma DisarmedTick(s: ArmState, pos: Label, now: Millis)
    requires !s.armed
    ensures !Registers(s, pos, now)
    ensures Next(s, pos, now).armed <==> pos == Normal && Elapsed(now, s.lastCrash) > RearmDelayMs
    ensures !Next(s, pos, now).armed ==> Next(s, pos, now) == s
  {
  }

  /** One polling tick's input: the orientation label and the clock. */
  datatype Reading = Reading(pos: Label, now: Millis)

  /** The state after a run of ticks. */
  function Run(s: ArmState, run: seq<Reading>): ArmState
    decreases |run|
  {
    if run == [] then s
    else
      var r := run[|run| - 1];
      Next(Run(s, run[..|run| - 1]), r.pos, r.now)
  }

  /** The times at which the ticks of a run registered a crash, in order. */
  function Detections(s: ArmState, run: seq<Reading>): seq<Millis>
    decreases |run|
  {
    if run == [] then []
    else
      var r := run[|run| - 1];
      var before := run[..|run| - 1];
      Detections(s, before) + (if Registers(Run(s, before), r.pos, r.now) then [r.now] else [])
  }

  /** Consecutive times, each more than the debounce window (in unsigned arithmetic) after the previous. */
  predicate Spaced(times: seq<Millis>) {
    forall i :: 0 < i < |times| ==> Elapsed(times[i], times[i - 1]) > CrashDebounceMs
  }

  /** Over any run, the detections (preceded by the initial crash time) are spaced by more
      than the debounce window, and the state's crash time is the latest of them. */
  lemma {:induction false} DetectionsSpaced(s: ArmState, run: seq<Reading>)
    ensures var d := [s.lastCrash] + Detections(s, run);
      Spaced(d) && Run(s, run).lastCrash == d[|d| - 1]
    decreases |run|
  {
    if run != [] {
      var r := run[|run| - 1];
      var before := run[..|run| - 1];
      DetectionsSpaced(s, before);
      NextOnCrash(Run(s, before), r.pos, r.now);
      var d0 := [s.lastCrash] + Detections(s, before);
      if Registers(Run(s, before), r.pos, r.now) {
        assert [s.lastCrash] + Detections(s, run) == d0 + [r.now];
      } else {
        assert [s.lastCrash] + Detections(s, run) == d0;
      }
    }
  }

  /** The clock readings of a run never go backwards and start no earlier than `since`. */
  predicate MonotoneFrom(since: Millis, run: seq<Reading>) {
    (forall i :: 0 <= i < |run| ==> since <= run[i].now) &&
    (forall i, j :: 0 <= i < j < |run| ==> run[i].now <= run[j].now)
  }

  /** When the clock does not wrap during a run, any two consecutive detections are more than
      the debounce window apart in plain subtraction, and so strictly increasing. */
  lemma {:induction false} DebounceWindow(s: ArmState, run: seq<Reading>)
    requires MonotoneFrom(s.lastCrash, run)
    ensures var d := [s.lastCrash] + Detections(s, run);
      (forall i :: 0 < i < |d| ==> d[i - 1] + CrashDebounceMs < d[i]) &&
      d[|d| - 1] <= (if run == [] then s.lastCrash else run[|run| - 1].now)
    decreases |run|
  {
    if run != [] {
      var r := run[|run| - 1];
      var before := run[..|run| - 1];
      assert MonotoneFrom(s.lastCrash, before);
      DebounceWindow(s, before);
      DetectionsSpaced(s, before);
      var d0 := [s.lastCrash] + Detections(s, before);
      assert d0[|d0| - 1] <= r.now by {
        if before != [] {
          assert before[|before| - 1] == run[|run| - 2];
        }
      }
      if Registers(Run(s, before), r.pos, r.now) {
        assert [s.lastCrash] + Detections(s, run) == d0 + [r.now];
      } else {
        assert [s.lastCrash] + Detections(s, run) == d0;
      }
    }
  }

  /** The power-up crash time 0 blocks a crash at any clock reading up to the debounce window.
      `setup` alone waits longer than that before the first tick, so this guard only comes
      into play when `millis()` wraps around before any crash has been registered. */
  lemma NoCrashRightAfterPowerUp(pos: Label, now: Millis)
    requires now <= CrashDebounceMs
    ensures !Registers(PowerUp, pos, now)
  {
  }

  /** Shortest time `setup` spends before the first tick: its delays of 50, 800, 2000 and
      1000 ms when the network connects at once. */
  const SetupDelayMs: nat := 3850

  /** The first tick after `setup` registers a crash for any non-`Normal` label. */
  lemma FirstTickAfterSetup(pos: Label, now: Millis)
    requires pos != Normal && SetupDelayMs <= now
    ensures Registers(PowerUp, pos, now)
    ensures Detections(PowerUp, [Reading(pos, now)]) == [now]
    ensures Run(PowerUp, [Reading(pos, now)]) == ArmState(false, now)
  {
    var run := [Reading(pos, now)];
    assert run[..|run| - 1] == [];
  }

  /** Two readings one second apart register at most one crash; from an armed detector whose
      last crash is more than the debounce window back, two non-`Normal` readings register
      exactly the first. */
  lemma OneCrashPerSecond(s: ArmState, pos1: Label, pos2: Label, t: Millis)
    requires t + 1000 < ClockModulus
    ensures |Detections(s, [Reading(pos1, t), Reading(pos2, t + 1000)])| <= 1
    ensures s.armed && pos1 != Normal && Elapsed(t, s.lastCrash) > CrashDebounceMs ==>
      Detections(s, [Reading(pos1, t), Reading(pos2, t + 1000)]) == [t]
  {
    var run := [Reading(pos1, t), Reading(pos2, t + 1000)];
    var first := run[..1];
    assert first == [Reading(pos1, t)] && first[..0] == [];
    assert run[..|run| - 1] == first;
    assert Run(s, first) == Next(s, pos1, t);
    if Registers(s, pos1, t) {
      assert Detections(s, first) == [t];
      assert !Registers(Run(s, first), pos2, t + 1000);
    } else {
      assert Detections(s, first) == [];
    }
  }

  /** A crash, a `Normal` reading 600 ms later that re-arms, and another non-`Normal` reading
      one second after the crash: the detector is armed again, yet the second reading is
      blocked by the debounce window alone. */
  lemma DebounceAfterRearm(s: ArmState, pos1: Label, pos2: Label, t: Millis)
    requires t + 1000 < ClockModulus
    requires s.armed && pos1 != Normal && pos2 != Normal && Elapsed(t, s.lastCrash) > CrashDebounceMs
    ensures var run := [Reading(pos1, t), Reading(Normal, t + 600), Reading(pos2, t + 1000)];
      Detections(s, run) == [t] && Run(s, run) == ArmState(true, t)
  {
    var run := [Reading(pos1, t), Reading(Normal, t + 600), Reading(pos2, t + 1000)];
    var first, two := run[..1], run[..2];
    assert first == [Reading(pos1, t)] && first[..0] == [];
    assert two[..1] == first && run[..|run| - 1] == two;
    assert Run(s, first) == ArmState(false, t) && Detections(s, first) == [t];
    assert Run(s, two) == ArmState(true, t) && Detections(s, two) == [t];
    assert Elapsed(t + 1000, t) == 1000;
  }

  /** A single `Normal` reading more than the re-arm delay after a crash re-arms the
      detector; the label need not have stayed `Normal` for that long. */
  lemma SingleNormalRearms(t: Millis, pos: Label)
    requires t + RearmDelayMs + 1 < ClockModulus
    ensures var s := Next(Next(ArmState(false, t), pos, t + 1), Normal, t + RearmDelayMs + 1);
      s.armed && s.lastCrash == t
  {
  }
}
