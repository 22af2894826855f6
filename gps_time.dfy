/** The GPS side of the sketch's loop: converting the UTC time of day to Indian Standard
    Time and rendering the `HH:MM:SS` and `DD/MM/YYYY` strings kept as the last fix. */
module GpsTime {
  import opened Decimal

  const MinutesPerDay: nat := 1440
  /** IST is UTC + 5 h 30 min. */
  const IstOffsetMinutes: nat := 330

  /** Reference definition of the conversion: shift the minute of the day by the offset,
      modulo one day. The date is deliberately not advanced when the hour wraps. */
  function IstClock(hour: nat, minute: nat): (hm: (nat, nat))
    ensures hm.0 < 24 && hm.1 < 60
  {
    var t := (hour * 60 + minute + IstOffsetMinutes) % MinutesPerDay;
    (t / 60, t % 60)
  }

  /** The sketch's step-by-step conversion: add 30 minutes with a carry into the hour,
      add 5 hours, wrap the hour at 24 once. For a valid GPS time it agrees with `IstClock`. */
  method ConvertToIst(hour: nat, minute: nat) returns (h: nat, m: nat)
    requires hour < 24 && minute < 60
    ensures h < 24 && m < 60
    ensures h * 60 + m == (hour * 60 + minute + IstOffsetMinutes) % MinutesPerDay
    ensures (h, m) == IstClock(hour, minute)
  {
    h, m := hour, minute;
    m := m + 30;
    if m >= 60 {
      m := m - 60;
      h := h + 1;
    }
    h := h + 5;
    if h >= 24 {
      h := h - 24;
    }
    ClockArithmetic(hour * 60 + minute + IstOffsetMinutes, h, m);
  }

  /** A total of minutes below two days that equals `h * 60 + m`, or one day more. */
  lemma ClockArithmetic(x: nat, h: nat, m: nat)
    requires h < 24 && m < 60
    requires x == h * 60 + m || x == h * 60 + m + MinutesPerDay
    ensures x % MinutesPerDay == h * 60 + m
    ensures (h, m) == ((x % MinutesPerDay) / 60, (x % MinutesPerDay) % 60)
  {
    var t := h * 60 + m;
    assert t < MinutesPerDay;
    assert x % MinutesPerDay == t;
    assert t / 60 == h && t % 60 == m;
  }

  /** An evening UTC time lands on the next morning's clock in IST while the date stays as it was. */
  lemma NoDateRollover()
    ensures IstClock(20, 45) == (2, 15)
  {
  }

  /** `HH:MM:SS`, each field zero-padded to two digits. */
  function FormatTime(h: nat, m: nat, s: nat): string {
    Pad2(h) + ":" + Pad2(m) + ":" + Pad2(s)
  }

  /** For fields below 100 the time text is 8 characters, colon-separated, and each
      field reads back as the number written. */
  lemma FormatTimeFields(h: nat, m: nat, s: nat)
    requires h < 100 && m < 100 && s < 100
    ensures var t := FormatTime(h, m, s);
      |t| == 8 && t[2] == ':' && t[5] == ':' &&
      AllDigits(t[0..2]) && AllDigits(t[3..5]) && AllDigits(t[6..8]) &&
      ParseDecimal(t[0..2]) == h && ParseDecimal(t[3..5]) == m && ParseDecimal(t[6..8]) == s
  {
    Pad2Digits(h);
    Pad2Digits(m);
    Pad2Digits(s);
    var t := FormatTime(h, m, s);
    assert t[0..2] == Pad2(h);
    assert t[3..5] == Pad2(m);
    assert t[6..8] == Pad2(s);
  }

  /** `DD/MM/` followed by the year unpadded. */
  function FormatDate(day: nat, month: nat, year: nat): string {
    Pad2(day) + "/" + Pad2(month) + "/" + DecimalString(year)
  }

  /** For day and month below 100 the date text splits at positions 2 and 5, and each
      field reads back as the number written; a four-digit year gives 10 characters. */
  lemma FormatDateFields(day: nat, month: nat, year: nat)
    requires day < 100 && month < 100
    ensures var t := FormatDate(day, month, year);
      |t| >= 7 && t[2] == '/' && t[5] == '/' &&
      AllDigits(t[0..2]) && AllDigits(t[3..5]) && AllDigits(t[6..]) &&
      ParseDecimal(t[0..2]) == day && ParseDecimal(t[3..5]) == month && ParseDecimal(t[6..]) == year &&
      (1000 <= year < 10000 ==> |t| == 10)
  {
    Pad2Digits(day);
    Pad2Digits(month);
    ParseDecimalString(year);
    var t := FormatDate(day, month, year);
    assert t[0..2] == Pad2(day);
    assert t[3..5] == Pad2(month);
    assert t[6..] == DecimalString(year);
    if 1000 <= year < 10000 {
      DecimalStringLength(year);
    }
  }

  /** One decoded GPS update as the sketch reads it from the receiver library: each group of
      fields comes with its validity flag. Latitude and longitude arrive already rendered
      with six decimals. */
  datatype GpsReading = GpsReading(
    locationValid: bool, lat: string, lon: string,
    timeValid: bool, hour: nat, minute: nat, second: nat,
    dateValid: bool, day: nat, month: nat, year: nat)

  /** What the receiver library guarantees of a time it flags valid. */
  predicate WellFormedTime(r: GpsReading) {
    r.timeValid ==> r.hour < 24 && r.minute < 60
  }
}
