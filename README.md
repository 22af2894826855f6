# Vehicle crash logger: arming, circular log and log view

This project models the logic inside `crash_logger.c`, an Arduino (ESP8266) sketch. The
sketch reads an MPU6050 accelerometer and a GPS receiver, turns the tilt into an orientation
label, and registers a crash when the label leaves `Normal` while the detector is armed. Each
crash goes into a 20-slot circular log together with the last valid GPS fix, and a small web
page shows that log oldest first. The model covers:

- **Orientation ladder** (`Orientation`): `getPositionFromAcc`'s first-match-wins tests over
  pitch, roll (degrees) and vertical acceleration (g), taken as already computed reals.
- **Last-fix update** (`GpsTime`, `Sketch.CrashLogger.UpdateFix`): latitude/longitude, time
  and date are each overwritten only when the receiver flags them valid. The UTC time of day
  is shifted to IST (+5:30) step by step, without a date rollover. Fields are rendered as
  zero-padded `HH:MM:SS` and `DD/MM/YYYY`. `Decimal` models Arduino's `String(n)` and the padding.
- **Crash arm/debounce state machine** (`Detector`, `Sketch.CrashLogger.Tick`): the state is
  `crashArmed` and `lastCrashMillis`. `millis()` is a 32-bit unsigned clock and the elapsed
  time is the unsigned, wrapping subtraction. `Detector.Next` is the pure step and `Tick` is
  the method on the sketch's globals. A ghost sequence of every tick (`readings`) ties the two.
- **Circular crash log** (`EventLog`, `Sketch.CrashLogger.SaveCrash`): the `logs` array with
  `logsNext`, `logsCount` and `saveCrash`'s static `serialNo`. A ghost `history` holds every
  record ever saved. The invariant (`EventLog.RingHolds`) says the slots hold the last
  `min(|history|, 20)` records and the `k`-th save carries id `k + 1`.
- **Log read-out** (`Sketch.CrashLogger.LogEntries`, `ServeLog`): `serveClient`'s traversal
  (start at 0 before the buffer wraps, at `logsNext` after; walk `logsCount` slots modulo 20).
  It yields exactly the newest saves, oldest first. Each is rendered as a table row with a
  Google Maps link.

The traversal is modelled as collecting the records (`LogEntries`). The HTML rows are
rendered from that sequence by the pure `EventLog.RowsHtml` (`ServeLog`). The sketch appends
each row's HTML inside the loop instead. The resulting text is the same.

Three details of the crash block decide how it behaves:

- **First crash after boot.** `lastCrashMillis` starts at 0 and the detector starts armed.
  `setup` waits at least 3850 ms before the first pass of `loop`, so a non-`Normal` first
  reading registers crash 1 (`Detector.FirstTickAfterSetup`). The 3000 ms guard against the
  initial 0 only comes into play if `millis()` wraps before any crash
  (`Detector.NoCrashRightAfterPowerUp`).
- **Re-arming.** One `Normal` reading more than 500 ms after the last crash re-arms
  (`Detector.SingleNormalRearms`); the label does not have to stay `Normal` for any time.
- **Registering.** An armed detector registers a crash only if more than 3000 ms have also
  passed since the last one (`Detector.DebounceAfterRearm`), not for every non-`Normal` label.

## Model

| member | source | states |
|---|---|---|
| `Orientation.Classify` | crash_logger.c:75-82 | each label holds exactly on its region of (pitch, roll, az): `Left` iff pitch > 40, `Right` iff pitch < -40, `Back`/`Front` iff pitch is within ±40 and roll > 40 / < -40, `Down` iff both are within ±40 and az < 0.3, `Normal` iff all five tests fail |
| `Orientation.Name` | crash_logger.c:75-82 | the label strings returned by the ladder; a name is `"Normal"` exactly for the `Normal` label, which makes line 315's string test the label test |
| `Orientation.PitchDominates` | crash_logger.c:75 | pitch > 40 gives `Left` whatever roll and az are (a named corollary of `Classify`'s first clause) |
| `Orientation.FlatIsNormal` | crash_logger.c:80-82 | a flat, upright device (pitch = roll = 0, az = 1 g) reads `Normal` |
| `Orientation.NameInjective` | crash_logger.c:315 | label names are distinct, so the string test `pos != "Normal"` is the label test |
| `Decimal.DecimalString` | crash_logger.c:282-284 | `String(n)` is a non-empty digit string with no leading zero, one character exactly when n < 10 |
| `Decimal.ParseDecimalString` | crash_logger.c:282-284 | reading back the text of n gives n |
| `Decimal.DecimalStringParse` | crash_logger.c:282-284 | every canonical digit string is the text of its value (the other direction of the round trip) |
| `Decimal.DecimalStringLength` | crash_logger.c:284 | a four-digit year is written in four characters |
| `Decimal.Pad2` | crash_logger.c:274-276 | the `n < 10 ? "0" + String(n) : String(n)` field: all digits, at least two, and `String(n)` itself from 10 on |
| `Decimal.Pad2Digits` | crash_logger.c:274-276 | below 100, the zero-padded field is two digits that read back as n |
| `Decimal.Pad2Parse` | crash_logger.c:274-276 | every two-digit string is the padding of its value: padding is a bijection between 0..99 and two-digit strings |
| `GpsTime.IstClock` | crash_logger.c:270-273 | the reference conversion (minute of day + 330, modulo 1440) yields hour < 24 and minute < 60 |
| `GpsTime.ConvertToIst` | crash_logger.c:266-273 | the step-by-step carry (+30 min, carry to hour, +5 h, one wrap at 24) equals `(h*60 + m + 330) mod 1440` and the reference `IstClock`, with hour < 24 and minute < 60 |
| `GpsTime.NoDateRollover` | crash_logger.c:273 | 20:45 UTC becomes 02:15 with no change of date |
| `GpsTime.FormatTime` | crash_logger.c:274-276 | `HH:MM:SS` from three padded fields; `FormatTimeFields` states its layout and read-back |
| `GpsTime.FormatTimeFields` | crash_logger.c:274-276 | for fields below 100 the time text has 8 characters with colons at 2 and 5, and each field reads back as written |
| `GpsTime.FormatDate` | crash_logger.c:282-284 | `DD/MM/` and the unpadded year; `FormatDateFields` states its layout and read-back |
| `GpsTime.FormatDateFields` | crash_logger.c:279-284 | the date text has slashes at 2 and 5; day, month and year read back as written; a four-digit year gives 10 characters |
| `Detector.Elapsed` | crash_logger.c:317 | `now - lastCrashMillis` in unsigned 32-bit arithmetic: the plain difference when no wrap occurred, otherwise the difference plus 2^32 |
| `Detector.Registers` | crash_logger.c:315-317 | a crash is registered iff the label is not `Normal`, the detector is armed and more than 3000 ms (unsigned) passed since the last crash |
| `Detector.Next` | crash_logger.c:315-338 | the arm state after one pass of the crash block; `NextOnCrash` and `DisarmedTick` state what it does |
| `Detector.NextOnCrash` | crash_logger.c:315-326 | a registered crash disarms and sets the last crash time to `now`; any other tick keeps the last crash time |
| `Detector.DisarmedTick` | crash_logger.c:333-338 | while disarmed nothing is registered; the detector re-arms iff the label is `Normal` and more than 500 ms passed since the crash; otherwise the state is unchanged |
| `Detector.DetectionsSpaced` | crash_logger.c:315-326 | over any run of ticks, each registered crash is more than 3000 ms (unsigned) after the previous one; the state's crash time is the latest one |
| `Detector.DebounceWindow` | crash_logger.c:317-325 | with a non-decreasing, non-wrapping clock, consecutive crash times are strictly increasing and more than 3000 ms apart |
| `Detector.NoCrashRightAfterPowerUp` | crash_logger.c:64-66 | from the power-up state no crash is registered at a clock reading ≤ 3000 ms, which the loop sees only after `millis()` wraps with no crash yet |
| `Detector.OneCrashPerSecond` | crash_logger.c:315-326 | two readings one second apart register at most one crash, from any state; from an armed detector whose last crash is more than 3000 ms back, a non-`Normal` first reading makes it exactly that one |
| `Detector.FirstTickAfterSetup` | crash_logger.c:64-66 | from the power-up state, at any clock reading ≥ 3850 ms (the least `setup` waits), a non-`Normal` label registers a crash, disarms and stamps the time |
| `Detector.DebounceAfterRearm` | crash_logger.c:315-338 | crash at t, `Normal` at t+600, non-`Normal` at t+1000 from an armed detector: it re-arms at t+600, yet only the crash at t is registered, because of the 3000 ms window |
| `Detector.SingleNormalRearms` | crash_logger.c:333-338 | one `Normal` reading 501 ms after a crash re-arms, even right after a non-`Normal` one |
| `EventLog.Stored` | crash_logger.c:102 | the fill count after n saves is n capped at `MAX_LOGS` |
| `EventLog.Recent` | crash_logger.c:132-143 | the records shown are `min(saves, 20)` in number |
| `EventLog.Chronological` | crash_logger.c:136-144 | the traversal yields `logsCount` records |
| `EventLog.ChronologicalIsRecent` | crash_logger.c:132-158 | under the ring invariant, the traversal yields exactly the newest `min(saves, 20)` saved records, oldest first |
| `EventLog.SlotOfSave` | crash_logger.c:141-144 | once full, the i-th oldest surviving save is i slots after `logsNext`, modulo 20 |
| `EventLog.WindowAfterSave` | crash_logger.c:95-101 | writing the new record into slot `saves % 20` keeps every surviving record in its slot |
| `EventLog.DistinctSlots` | crash_logger.c:101 | saves fewer than 20 apart use different slots |
| `EventLog.SaveKeepsRing` | crash_logger.c:85-102 | `saveCrash` keeps the ring invariant: count `min(old+1, 20)`, index `(old+1) % 20`, serial `old+1`, and the new record carries id `old serial + 1` |
| `EventLog.RecentIds` | crash_logger.c:91-93 | the shown records carry consecutive ids ending at the number of saves, so they are strictly ascending |
| `EventLog.WrappedByThree` | crash_logger.c:132-158 | after 23 saves the view shows ids 4..23 in order |
| `EventLog.MapLink` | crash_logger.c:152 | the link starts with the Maps query prefix and has the latitude, a comma and the longitude after it |
| `EventLog.SplitJoined` | crash_logger.c:152 | splitting `a + "," + b` at its first comma gives back (a, b) when `a` has no comma |
| `EventLog.MapLinkQuery` | crash_logger.c:152 | the query of a record's map link splits back into its latitude and longitude |
| `EventLog.CellText` | crash_logger.c:146 | a `<td>` cell holds its text between the tags |
| `EventLog.RowFields` | crash_logger.c:145-153 | a row opens with `<tr>` and the id cell, whose text is digits that read back as the record's id, and closes with the map link of the record's coordinates and `' target='_blank'>Open</a></td></tr>` |
| `EventLog.Row` | crash_logger.c:145-153 | the seven cells of a record in the page's column order: id, position, latitude, longitude, date, time, map link |
| `EventLog.RowsHtml` | crash_logger.c:135-157 | one row per record, in order |
| `EventLog.ConcatAppend` | crash_logger.c:145-153 | appending text piece by piece is associative over runs: joining `a + b` is joining `a` then `b` |
| `EventLog.RowsHtmlAppend` | crash_logger.c:135-157 | the rows of `a + b` are the rows of `a` followed by those of `b` |
| `EventLog.StatusLine` | crash_logger.c:129 | the `Last GPS:` line with the current latitude, longitude, time and date |
| `Sketch.CrashLogger.constructor` | crash_logger.c:44-66 | power-up values: fix placeholders, empty log, counters 0, armed, last crash time 0 |
| `Sketch.CrashLogger.UpdateFix` | crash_logger.c:260-285 | each fix field is overwritten only when its validity flag is set: location with the given strings, time with the IST `HH:MM:SS`, date with `DD/MM/YYYY`. Only the four fix fields may change, so stored records keep the fix they copied |
| `Sketch.CrashLogger.SaveCrash` | crash_logger.c:85-102 | slot `old logsNext` gets id `old serialNo + 1`, the label and copies of the current fix; every other slot is untouched; the counters advance as in `SaveKeepsRing`; the history grows by that record |
| `Sketch.CrashLogger.Tick` | crash_logger.c:313-338 | registers iff the label is not `Normal`, armed, and more than 3000 ms since the last crash; the arm state follows `Detector.Next`; a registered crash appends exactly one record with the current fix; the crash times so far are always spaced by more than 3000 ms |
| `Sketch.CrashLogger.LogEntries` | crash_logger.c:132-158 | the traversal returns exactly the newest `min(saves, 20)` records, oldest first, which is `Chronological` of the slots |
| `Sketch.CrashLogger.ServeLog` | crash_logger.c:129-153 | the page is the status line with the current fix followed by one row per newest record, oldest first |

## Left out

- Hardware I/O: MPU6050 reads over I2C and the raw-to-g scaling (crash_logger.c:288-299), LCD
  output, buzzer tone and delay, and `Serial` printing. These are only reads, actuation and display.
- Pitch and roll from `atan2`/`sqrt` (crash_logger.c:71-72). This is floating-point trigonometry.
  The ladder is modelled over real pitch, roll and az, and its thresholds 40 and 0.3 are exact
  reals, not their float/double approximations.
- GPS byte decoding by TinyGPS++ and `String(lat, 6)` float formatting (crash_logger.c:256-262).
  A `GpsReading` supplies the validity flags, the already formatted coordinate strings and the
  integer time and date fields.
- WiFi setup, reading the HTTP request and its wait loop, `client.print`/`stop`, and the
  Telegram message (crash_logger.c:115-119, 163-180, 183-251, 340-352). These are network transport.
- The HTML boilerplate around the table (crash_logger.c:122-128, 130, 160-161). It is fixed
  text; the status line and the rows are modelled.
- GpsTime.ConvertToIst: hours outside 0..23 and minutes outside 0..59 are not modelled. A time
  the receiver flags valid never has them.
- Sketch.CrashLogger.UpdateFix: requires `WellFormedTime` of the reading (hour below 24 and
  minute below 60 when the time is flagged valid), for the same reason.
- Sketch.CrashLogger.SaveCrash: `serialNo` and `id` are unbounded naturals. The sketch's 32-bit
  `int` would overflow only after 2^31 crashes.
- Sketch.CrashLogger.LogEntries: the `printed > MAX_LOGS` safeguard is modelled, but it never
  fires, because `logsCount` never exceeds 20.
- Sketch.CrashLogger.Tick: the label arrives as a parameter, so the order of the loop
  (GPS update, sensor read, classification, crash block) is left to the caller.
- Sketch.CrashLogger.Tick: accepts any clock reading. The time spent in `setup`'s delays
  (crash_logger.c:185, 199, 219-225, 238, 244, 250) and the `delay(2000)` after a crash and
  `delay(200)` per pass (329, 354) only shape which readings a caller passes.
