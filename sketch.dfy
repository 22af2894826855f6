/** The sketch's global state and the parts of `loop`, `saveCrash` and `serveClient` that act
    on it: the last valid GPS fix, the circular crash log with its serial counter, and the
    crash arm/debounce state. */
module Sketch {
  import opened Orientation
  import opened GpsTime
  import opened Detector
  import opened EventLog

  class CrashLogger {
    // Last valid GPS fix.
    var lastLat: string
    var lastLon: string
    var lastTime: string
    var lastDate: string

    // Circular crash log.
    const logs: array<CrashLog>
    var logsCount: nat
    var logsNext: nat
    /** `saveCrash`'s function-static serial counter. */
    var serialNo: nat

    // Crash detection / re-arm control.
    var crashArmed: bool
    var lastCrashMillis: Millis

    /** Every record ever saved, in order. */
    ghost var history: seq<CrashLog>
    /** Every tick the detector has seen, in order. */
    ghost var readings: seq<Reading>

    /** The ring-buffer invariant: the counters follow the number of saves, the slots hold the
        newest saves, and the `k`-th save carries serial id `k + 1`. */
    ghost predicate LogValid()
      reads this, logs
    {
      logs.Length == MaxLogs &&
      RingHolds(logs[..], logsCount, logsNext, serialNo, history)
    }

    ghost function Arm(): ArmState
      reads this
    {
      ArmState(crashArmed, lastCrashMillis)
    }

    /** Full invariant: the log is consistent, the arm state is the one the ticks seen so far
        lead to from power-up, and there is one saved record per registered crash. */
    ghost predicate Valid()
      reads this, logs
    {
      LogValid() &&
      Arm() == Run(PowerUp, readings) &&
      |history| == |Detections(PowerUp, readings)|
    }

    /** The times of all crashes registered so far. */
    ghost function CrashTimes(): seq<Millis>
      reads this
    {
      Detections(PowerUp, readings)
    }

    /** The values the sketch's globals have at power-up. */
    constructor ()
      ensures Valid() && fresh(logs)
      ensures lastLat == "0.000000" && lastLon == "0.000000"
      ensures lastTime == "--:--:--" && lastDate == "--/--/----"
      ensures logsCount == 0 && logsNext == 0 && serialNo == 0
      ensures crashArmed && lastCrashMillis == 0
      ensures history == [] && readings == []
    {
      lastLat, lastLon := "0.000000", "0.000000";
      lastTime, lastDate := "--:--:--", "--/--/----";
      logs := new CrashLog[MaxLogs](_ => Blank);
      logsCount, logsNext, serialNo := 0, 0, 0;
      crashArmed, lastCrashMillis := true, 0;
      history, readings := [], [];
    }

    /** The keep-last-valid-fix update at the top of `loop`: each group of fields is
        overwritten only when the receiver flags it valid; the time is shifted to IST.
        Nothing else changes, in particular no stored crash record. */
    method UpdateFix(r: GpsReading)
      requires Valid()
      requires WellFormedTime(r)
      modifies this`lastLat, this`lastLon, this`lastTime, this`lastDate
      ensures Valid()
      ensures lastLat == (if r.locationValid then r.lat else old(lastLat))
      ensures lastLon == (if r.locationValid then r.lon else old(lastLon))
      ensures lastTime == (if r.timeValid then FormatTime(IstClock(r.hour, r.minute).0, IstClock(r.hour, r.minute).1, r.second) else old(lastTime))
      ensures lastDate == (if r.dateValid then FormatDate(r.day, r.month, r.year) else old(lastDate))
    {
      if r.locationValid {
        lastLat := r.lat;
        lastLon := r.lon;
      }
      if r.timeValid {
        var h, m := ConvertToIst(r.hour, r.minute);
        lastTime := FormatTime(h, m, r.second);
      }
      if r.dateValid {
        lastDate := FormatDate(r.day, r.month, r.year);
      }
    }

    /** `saveCrash`: write the next slot with a fresh serial id and copies of the current fix,
        advance the insertion index modulo the capacity and the count up to the capacity.
        Only slot `old(logsNext)` changes. */
    method SaveCrash(pos: Label)
      requires LogValid()
      modifies this`logsCount, this`logsNext, this`serialNo, this`history, logs
      ensures LogValid()
      ensures var rec := CrashLog(old(serialNo) + 1, Name(pos), lastLat, lastLon, lastDate, lastTime);
        history == old(history) + [rec] && logs[old(logsNext)] == rec
      ensures serialNo == old(serialNo) + 1
      ensures logsCount == Stored(old(logsCount) + 1)
      ensures logsNext == (old(logsNext) + 1) % MaxLogs
      ensures forall j :: 0 <= j < MaxLogs && j != old(logsNext) ==> logs[j] == old(logs[j])
    {
      var idx := logsNext;
      // An earlier id formula; the serial number below overwrites it.
      logs[idx] := logs[idx].(id := if logsCount < MaxLogs then logsCount + 1 else if logsNext == 0 then MaxLogs else logsNext);
      serialNo := serialNo + 1;
      logs[idx] := CrashLog(serialNo, Name(pos), lastLat, lastLon, lastDate, lastTime);

      logsNext := (logsNext + 1) % MaxLogs;
      if logsCount < MaxLogs {
        logsCount := logsCount + 1;
      }

      ghost var rec := logs[idx];
      assert logs[..] == old(logs[..])[idx := rec];
      SaveKeepsRing(old(logs[..]), old(logsCount), idx, old(serialNo), history, rec);
      history := history + [rec];
    }

    /** The crash block of `loop` for the label and clock of one tick: register a crash (save
        it, disarm, stamp the time) when the label is not `Normal`, the detector is armed and more
        than the debounce window has passed; re-arm on `Normal` after the re-arm delay. */
    method Tick(pos: Label, now: Millis) returns (registered: bool)
      requires Valid()
      modifies this, logs
      ensures Valid()
      ensures readings == old(readings) + [Reading(pos, now)]
      ensures registered == Registers(old(Arm()), pos, now)
      ensures Arm() == Next(old(Arm()), pos, now)
      ensures registered ==> history == old(history) + [CrashLog(old(serialNo) + 1, Name(pos), lastLat, lastLon, lastDate, lastTime)]
      ensures !registered ==> history == old(history) && logs[..] == old(logs[..])
      ensures CrashTimes() == old(CrashTimes()) + (if registered then [now] else [])
      ensures Spaced([0] + CrashTimes())
      ensures lastLat == old(lastLat) && lastLon == old(lastLon)
      ensures lastTime == old(lastTime) && lastDate == old(lastDate)
    {
      ghost var before := readings;
      registered := false;
      if pos != Normal {
        if crashArmed && Elapsed(now, lastCrashMillis) > CrashDebounceMs {
          SaveCrash(pos);
          lastCrashMillis := now;
          crashArmed := false;
          registered := true;
        }
      } else {
        if !crashArmed && Elapsed(now, lastCrashMillis) > RearmDelayMs {
          crashArmed := true;
        }
      }
      readings := readings + [Reading(pos, now)];
      assert readings[..|readings| - 1] == before;
      DetectionsSpaced(PowerUp, readings);
    }

    /** The traversal in `serveClient`: start at slot 0 while the buffer has not wrapped and at
        the insertion index once it is full, and walk `logsCount` slots modulo the capacity. It
        yields exactly the newest `min(saves, MaxLogs)` records, oldest first. */
    method LogEntries() returns (entries: seq<CrashLog>)
      requires LogValid()
      ensures entries == Recent(history)
      ensures entries == Chronological(logs[..], logsCount, logsNext)
    {
      ghost var rows := Chronological(logs[..], logsCount, logsNext);
      entries := [];
      var printed := 0;
      if logsCount > 0 {
        var start := if logsCount < MaxLogs then 0 else logsNext;
        var i := 0;
        while i < logsCount
          invariant 0 <= i <= logsCount
          invariant printed == i
          invariant entries == rows[..i]
        {
          var idx := (start + i) % MaxLogs;
          entries := entries + [logs[idx]];
          printed := printed + 1;
          if printed > MaxLogs {
            break;
          }
          i := i + 1;
        }
      }
      ChronologicalIsRecent(logs[..], history);
    }

    /** `serveClient`'s log view: the status line with the current fix, then one table row per
        stored record, oldest first. */
    method ServeLog() returns (html: string)
      requires LogValid()
      ensures html == StatusLine(lastLat, lastLon, lastTime, lastDate) + RowsHtml(Recent(history))
    {
      var entries := LogEntries();
      html := StatusLine(lastLat, lastLon, lastTime, lastDate) + RowsHtml(entries);
    }
  }
}
