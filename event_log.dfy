/** The crash log's records, the chronological reading of the circular buffer that holds
    them, and the HTML row and map link each record is rendered as. */
module EventLog {
  import opened Decimal

  /** Capacity of the circular buffer (`MAX_LOGS`). */
  const MaxLogs: nat := 20

  /** One stored crash (`struct CrashLog`): the serial id, the orientation label's name and
      copies of the last-fix strings at the moment of the crash. */
  datatype CrashLog = CrashLog(id: nat, position: string, latitude: string, longitude: string, date: string, time: string)

  /** A slot that has never been written: a zero-initialised global struct. */
  const Blank := CrashLog(0, "", "", "", "", "")

  /** How many entries the buffer holds after `n` saves. */
  function Stored(n: nat): (c: nat)
    ensures c <= n && c <= MaxLogs
    ensures c == n || c == MaxLogs
  {
    if n < MaxLogs then n else MaxLogs
  }

  /** The records a buffer should show after the saves in `history`: the newest
      `Stored(|history|)` of them, oldest first. */
  function Recent(history: seq<CrashLog>): (r: seq<CrashLog>)
    ensures |r| == Stored(|history|)
  {
    history[|history| - Stored(|history|)..]
  }

  /** Each slot of the buffer holds the record last written to it: the `k`-th save
      (counting from 0) went to slot `k % MaxLogs`, and only the newest `Stored` saves survive. */
  ghost predicate HoldsWindow(slots: seq<CrashLog>, history: seq<CrashLog>) {
    |slots| == MaxLogs &&
    forall k :: |history| - Stored(|history|) <= k < |history| ==> slots[k % MaxLogs] == history[k]
  }

  /** Saving one more record into slot `|history| % MaxLogs` keeps the window: the new record is
      the newest save, and the slot it overwrites held a save that no longer survives. */
  lemma WindowAfterSave(slots: seq<CrashLog>, history: seq<CrashLog>, rec: CrashLog)
    requires HoldsWindow(slots, history)
    ensures HoldsWindow(slots[|history| % MaxLogs := rec], history + [rec])
  {
    var n := |history|;
    var slots' := slots[n % MaxLogs := rec];
    var history' := history + [rec];
    forall k | |history'| - Stored(|history'|) <= k < |history'|
      ensures slots'[k % MaxLogs] == history'[k]
    {
      if k < n {
        DistinctSlots(k, n);
      }
    }
  }

  /** Saves less than `MaxLogs` apart go to different slots. */
  lemma DistinctSlots(a: nat, b: nat)
    requires a < b < a + MaxLogs
    ensures a % MaxLogs != b % MaxLogs
  {
    var qa, qb := a / MaxLogs, b / MaxLogs;
    assert a == qa * MaxLogs + a % MaxLogs;
    assert b == qb * MaxLogs + b % MaxLogs;
  }

  /** The serial ids of a save history: the `k`-th save (from 0) got id `k + 1`. */
  ghost predicate SerialIds(history: seq<CrashLog>) {
    forall k :: 0 <= k < |history| ==> history[k].id == k + 1
  }

  /** The ring-buffer invariant over the buffer's values: the insertion index, fill count and
      serial counter follow the number of saves, the slots hold the newest saves, and the
      `k`-th save carries serial id `k + 1`. */
  ghost predicate RingHolds(slots: seq<CrashLog>, count: nat, next: nat, serial: nat, history: seq<CrashLog>) {
    serial == |history| &&
    count == Stored(|history|) &&
    next == |history| % MaxLogs &&
    SerialIds(history) &&
    HoldsWindow(slots, history)
  }

  /** `saveCrash` keeps the invariant: writing the record with the next serial id into the
      insertion slot, advancing the index modulo the capacity and the count up to it. */
  lemma SaveKeepsRing(slots: seq<CrashLog>, count: nat, next: nat, serial: nat, history: seq<CrashLog>, rec: CrashLog)
    requires RingHolds(slots, count, next, serial, history)
    requires rec.id == serial + 1
    ensures RingHolds(slots[next := rec], Stored(count + 1), (next + 1) % MaxLogs, serial + 1, history + [rec])
  {
    WindowAfterSave(slots, history, rec);
    var n := |history|;
    assert (n % MaxLogs + 1) % MaxLogs == (n + 1) % MaxLogs;
  }

  /** The traversal of the web page: start at slot 0 while the buffer has not wrapped, at the
      insertion index once it is full, and walk `count` slots modulo the capacity. */
  function Chronological(slots: seq<CrashLog>, count: nat, next: nat): (r: seq<CrashLog>)
    requires |slots| == MaxLogs && count <= MaxLogs && next < MaxLogs
    ensures |r| == count
  {
    var start := if count < MaxLogs then 0 else next;
    seq(count, i requires 0 <= i < count => slots[(start + i) % MaxLogs])
  }

  /** The traversal yields exactly the newest saves, oldest first. */
  lemma ChronologicalIsRecent(slots: seq<CrashLog>, history: seq<CrashLog>)
    requires HoldsWindow(slots, history)
    ensures Chronological(slots, Stored(|history|), |history| % MaxLogs) == Recent(history)
  {
    var n := |history|;
    var c := Stored(n);
    var chron := Chronological(slots, c, n % MaxLogs);
    var recent := Recent(history);
    forall i | 0 <= i < c
      ensures chron[i] == recent[i]
    {
      var k := n - c + i;
      if c < MaxLogs {
        assert k == i && (0 + i) % MaxLogs == k % MaxLogs;
      } else {
        SlotOfSave(n, i);
      }
      assert chron[i] == slots[k % MaxLogs] == history[k];
    }
  }

  /** Once the buffer is full, the `i`-th oldest surviving save sits `i` slots after the insertion index. */
  lemma SlotOfSave(n: nat, i: nat)
    requires MaxLogs <= n && i < MaxLogs
    ensures (n % MaxLogs + i) % MaxLogs == (n - MaxLogs + i) % MaxLogs
  {
    var q := n / MaxLogs;
    var r := n % MaxLogs;
    assert n == q * MaxLogs + r;
    assert n - MaxLogs + i == (q - 1) * MaxLogs + (r + i);
  }

  /** The surviving records carry consecutive ids ending with the number of saves, so they
      are strictly ascending: after `MaxLogs + 3` saves the ids are 4 .. `MaxLogs + 3`. */
  lemma {:induction false} RecentIds(history: seq<CrashLog>)
    requires SerialIds(history)
    ensures var r := Recent(history);
      (forall i :: 0 <= i < |r| ==> r[i].id == |history| - |r| + i + 1) &&
      (forall i, j :: 0 <= i < j < |r| ==> r[i].id < r[j].id)
  {
    var r := Recent(history);
    forall i | 0 <= i < |r|
      ensures r[i].id == |history| - |r| + i + 1
    {
      assert r[i] == history[|history| - |r| + i];
    }
  }

  /** Three saves past the capacity, the buffer shows ids 4 .. `MaxLogs + 3`, oldest first. */
  lemma WrappedByThree(history: seq<CrashLog>)
    requires SerialIds(history) && |history| == MaxLogs + 3
    ensures |Recent(history)| == MaxLogs
    ensures forall i :: 0 <= i < MaxLogs ==> Recent(history)[i].id == i + 4
  {
    RecentIds(history);
  }

  const MapsQueryPrefix := "https://maps.google.com/?q="

  /** The map link of a record: the query is the latitude and longitude joined by a comma. */
  function MapLink(lat: string, lon: string): (link: string)
    ensures |link| == |MapsQueryPrefix| + |lat| + 1 + |lon|
    ensures link[..|MapsQueryPrefix|] == MapsQueryPrefix
  {
    MapsQueryPrefix + lat + "," + lon
  }

  /** Splits a string at the first occurrence of `sep` (the whole string and "" when absent). */
  function SplitAtFirst(s: string, sep: char): (string, string)
    decreases |s|
  {
    if s == [] then ("", "")
    else if s[0] == sep then ("", s[1..])
    else
      var rest := SplitAtFirst(s[1..], sep);
      ([s[0]] + rest.0, rest.1)
  }

  /** A comma-free first part comes back out of a comma-joined string unchanged, and so does the rest. */
  lemma {:induction false} SplitJoined(a: string, b: string, sep: char)
    requires sep !in a
    ensures SplitAtFirst(a + [sep] + b, sep) == (a, b)
    decreases |a|
  {
    if a == [] {
      assert a + [sep] + b == [sep] + b;
    } else {
      SplitJoined(a[1..], b, sep);
      var joined := a + [sep] + b;
      assert joined[0] == a[0] && a[0] != sep;
      assert joined[1..] == a[1..] + [sep] + b;
      assert [a[0]] + a[1..] == a;
    }
  }

  /** A map service reading the query of the link splits it back into the latitude and longitude
      it was built from (the sketch's coordinate strings contain no comma). */
  lemma MapLinkQuery(lat: string, lon: string)
    requires ',' !in lat
    ensures SplitAtFirst(MapLink(lat, lon)[|MapsQueryPrefix|..], ',') == (lat, lon)
  {
    assert MapLink(lat, lon)[|MapsQueryPrefix|..] == lat + [','] + lon;
    SplitJoined(lat, lon, ',');
  }

  function Cell(text: string): string {
    "<td>" + text + "</td>"
  }

  /** The cell that opens the record's coordinates on the map, without the link itself. */
  const LinkOpen := "<td><a href='"
  const LinkClose := "' target='_blank'>Open</a></td>"

  /** One table row of the web page: id, position, latitude, longitude, date, time and map link. */
  function Row(e: CrashLog): string {
    "<tr>" + Cell(DecimalString(e.id)) + Cell(e.position) + Cell(e.latitude) + Cell(e.longitude)
    + Cell(e.date) + Cell(e.time)
    + LinkOpen + MapLink(e.latitude, e.longitude) + LinkClose
    + "</tr>"
  }

  /** The text of a cell sits between its opening and closing tags. */
  lemma CellText(text: string)
    ensures |Cell(text)| == |text| + 9 && Cell(text)[4..4 + |text|] == text
  {
  }

  /** A row opens with the id cell, whose text reads back as the record's id, and ends with the
      cell holding the map link of the record's coordinates. */
  lemma RowFields(e: CrashLog)
    ensures var t := Row(e); var id := Cell(DecimalString(e.id)); var link := MapLink(e.latitude, e.longitude);
      var closing := LinkClose + "</tr>";
      |t| >= 4 + |id| + |link| + |closing| &&
      t[..4] == "<tr>" && t[4..4 + |id|] == id &&
      AllDigits(id[4..|id| - 5]) && ParseDecimal(id[4..|id| - 5]) == e.id &&
      t[|t| - |closing| - |link|..|t| - |closing|] == link && t[|t| - |closing|..] == closing
  {
    var text := DecimalString(e.id);
    ParseDecimalString(e.id);
    CellText(text);
    var id := Cell(text);
    var link := MapLink(e.latitude, e.longitude);
    var middle := Cell(e.position) + Cell(e.latitude) + Cell(e.longitude) + Cell(e.date) + Cell(e.time) + LinkOpen;
    var closing := LinkClose + "</tr>";
    assert Row(e) == "<tr>" + id + middle + link + closing;
    Pieces("<tr>", id, middle, link, closing);
  }

  /** Where the pieces of a five-part text sit in it. */
  lemma Pieces(p: string, q: string, r: string, m: string, s: string)
    ensures var t := p + q + r + m + s;
      t[..|p|] == p && t[|p|..|p| + |q|] == q &&
      t[|t| - |s| - |m|..|t| - |s|] == m && t[|t| - |s|..] == s
  {
  }

  /** The pieces of text in order, joined with nothing between them. */
  function Concat(parts: seq<string>): string
    decreases |parts|
  {
    if parts == [] then "" else Concat(parts[..|parts| - 1]) + parts[|parts| - 1]
  }

  /** Joining two runs of pieces is joining each and putting the results side by side. */
  lemma {:induction false} ConcatAppend(a: seq<string>, b: seq<string>)
    ensures Concat(a + b) == Concat(a) + Concat(b)
    decreases |b|
  {
    if b == [] {
      assert a + b == a;
    } else {
      var b' := b[..|b| - 1];
      ConcatAppend(a, b');
      assert (a + b)[..|a + b| - 1] == a + b' && (a + b)[|a + b| - 1] == b[|b| - 1];
    }
  }

  /** The rows of a sequence of records, in order. */
  function RowsHtml(records: seq<CrashLog>): string {
    Concat(seq(|records|, i requires 0 <= i < |records| => Row(records[i])))
  }

  /** The rows of two runs of records are the rows of the first followed by those of the second:
      one row per record, in order. */
  lemma RowsHtmlAppend(a: seq<CrashLog>, b: seq<CrashLog>)
    ensures RowsHtml(a + b) == RowsHtml(a) + RowsHtml(b)
  {
    var ra := seq(|a|, i requires 0 <= i < |a| => Row(a[i]));
    var rb := seq(|b|, i requires 0 <= i < |b| => Row(b[i]));
    assert seq(|a + b|, i requires 0 <= i < |a + b| => Row((a + b)[i])) == ra + rb;
    ConcatAppend(ra, rb);
  }

  /** The line above the table: the current last-known fix. */
  function StatusLine(lat: string, lon: string, time: string, date: string): string {
    "<p>Last GPS: " + lat + ", " + lon + " | Time: " + time + " | Date: " + date + "</p>"
  }
}
