/** The admin dashboard (components/admin-dashboard.tsx): the day's time
    entries with their managers, the location filter, the summary counts,
    the total time and the CSV export. The day window and the local-time
    renderings (`toLocaleTimeString`, `toLocaleDateString`) are parameters. */
module Dashboard {
  import opened Common
  import opened Text
  import opened Seqs
  import opened Records
  import Elapsed
  import Csv

  /** A row as the joined select returns it: the entry and, if a row of
      `employees` was joined, that row's `manager` column. */
  datatype Joined = Joined(entry: TimeEntry, joined: Option<Option<string>>)

  /** A dashboard entry: the stored entry plus `employee_manager`. */
  datatype ReportEntry = ReportEntry(entry: TimeEntry, manager: Option<string>)

  /** `entry.employees?.manager || null` (line 79): no joined row, a null
      manager and an empty manager all become null. */
  function ManagerOf(j: Joined): (m: Option<string>)
    ensures m.Some? <==> j.joined.Some? && j.joined.value.Some? && j.joined.value.value != []
    ensures m.Some? ==> m == j.joined.value
  {
    if j.joined.Some? && j.joined.value.Some? && j.joined.value.value != [] then j.joined.value else None
  }

  function ClockInOf(j: Joined): int {
    j.entry.clockIn
  }

  /** The rows whose clock-in lies in the window, in store order. */
  function InWindow(rows: seq<Joined>, w: Window): (r: seq<Joined>)
    ensures |r| <= |rows|
    ensures forall x :: x in r <==> x in rows && w.Contains(x.entry.clockIn)
    ensures multiset(r) <= multiset(rows)
  {
    Filter(rows, (x: Joined) => w.Contains(x.entry.clockIn))
  }

  /** The query of lines 64-74: `gte`/`lte` on `clock_in`, newest first. */
  function Query(rows: seq<Joined>, w: Window): (r: seq<Joined>)
    ensures SortedDesc(r, ClockInOf)
    ensures multiset(r) == multiset(InWindow(rows, w))
  {
    SortDesc(InWindow(rows, w), ClockInOf)
  }

  /** Each row with its manager attached (lines 78-81). */
  function Annotate(rows: seq<Joined>): (es: seq<ReportEntry>)
    ensures |es| == |rows|
    ensures forall i :: 0 <= i < |rows| ==> es[i] == ReportEntry(rows[i].entry, ManagerOf(rows[i]))
  {
    if rows == [] then [] else [ReportEntry(rows[0].entry, ManagerOf(rows[0]))] + Annotate(rows[1..])
  }

  /** The outcome of the select. */
  datatype LoadResult = LoadFailed | Loaded(rows: seq<Joined>)

  /** `loadEntries` (lines 56-85): a failed load keeps the entries shown;
      otherwise the window's entries, newest first, each with its manager. */
  function LoadEntries(shown: seq<ReportEntry>, result: LoadResult, w: Window): (es: seq<ReportEntry>)
    ensures result.LoadFailed? ==> es == shown
    ensures result.Loaded? ==> |es| == |InWindow(result.rows, w)|
    ensures result.Loaded? ==> forall i, j :: 0 <= i < j < |es| ==> es[i].entry.clockIn >= es[j].entry.clockIn
  {
    match result
    case LoadFailed => shown
    case Loaded(rows) =>
      var q := Query(rows, w);
      var es := Annotate(q);
      assert |q| == |InWindow(rows, w)| by {
        assert |multiset(q)| == |multiset(InWindow(rows, w))|;
      }
      assert forall i, j :: 0 <= i < j < |es| ==> es[i].entry.clockIn >= es[j].entry.clockIn by {
        forall i, j | 0 <= i < j < |es| ensures es[i].entry.clockIn >= es[j].entry.clockIn {
          assert ClockInOf(q[i]) >= ClockInOf(q[j]);
        }
      }
      es
  }

  /** Every loaded entry is a stored row of the window, with that row's
      manager. */
  lemma LoadedFromWindow(rows: seq<Joined>, w: Window)
    ensures var es := LoadEntries([], Loaded(rows), w);
      forall i :: 0 <= i < |es| ==>
        && w.Contains(es[i].entry.clockIn)
        && exists k :: 0 <= k < |rows| && es[i] == ReportEntry(rows[k].entry, ManagerOf(rows[k]))
  {
    var q := Query(rows, w);
    var es := LoadEntries([], Loaded(rows), w);
    assert es == Annotate(q);
    forall i | 0 <= i < |es|
      ensures w.Contains(es[i].entry.clockIn)
      ensures exists k :: 0 <= k < |rows| && es[i] == ReportEntry(rows[k].entry, ManagerOf(rows[k]))
    {
      var x := q[i];
      assert x in InWindow(rows, w) by {
        assert x in multiset(q);
      }
      var k :| 0 <= k < |rows| && rows[k] == x;
      assert es[i] == ReportEntry(rows[k].entry, ManagerOf(rows[k]));
    }
  }

  /** A stored row of the window is among the selected rows. */
  lemma WindowRowSelected(rows: seq<Joined>, w: Window, k: nat)
    requires k < |rows| && w.Contains(rows[k].entry.clockIn)
    ensures rows[k] in Query(rows, w)
  {
    var x := rows[k];
    assert x in InWindow(rows, w);
    assert x in multiset(InWindow(rows, w));
    assert x in multiset(Query(rows, w));
  }

  /** Every stored row of the window is loaded. */
  lemma WindowFullyLoaded(rows: seq<Joined>, w: Window, k: nat)
    requires k < |rows| && w.Contains(rows[k].entry.clockIn)
    ensures ReportEntry(rows[k].entry, ManagerOf(rows[k])) in LoadEntries([], Loaded(rows), w)
  {
    var q := Query(rows, w);
    WindowRowSelected(rows, w, k);
    var i :| 0 <= i < |q| && q[i] == rows[k];
    assert LoadEntries([], Loaded(rows), w) == Annotate(q);
    assert Annotate(q)[i] == ReportEntry(rows[k].entry, ManagerOf(rows[k]));
  }

  // ----------------------------------------------------- location filter

  datatype LocationFilter = AllLocations | OnlyLocation(location: WorkLocation)

  /** `filterEntries` (lines 87-95). */
  function FilterEntries(es: seq<ReportEntry>, f: LocationFilter): (r: seq<ReportEntry>)
    ensures |r| <= |es|
    ensures f.AllLocations? ==> r == es
    ensures f.OnlyLocation? ==> forall x :: x in r <==> x in es && x.entry.location == f.location
  {
    match f
    case AllLocations => es
    case OnlyLocation(l) => AtLocation(es, l)
  }

  function AtLocation(es: seq<ReportEntry>, l: WorkLocation): (r: seq<ReportEntry>)
    ensures |r| <= |es|
    ensures forall x :: x in r <==> x in es && x.entry.location == l
  {
    Filter(es, (e: ReportEntry) => e.entry.location == l)
  }

  /** Filtering keeps the order: filtering a concatenation filters each
      part. */
  lemma {:induction false} AtLocationAppend(a: seq<ReportEntry>, b: seq<ReportEntry>, l: WorkLocation)
    ensures AtLocation(a + b, l) == AtLocation(a, l) + AtLocation(b, l)
  {
    FilterAppend(a, b, (e: ReportEntry) => e.entry.location == l);
  }

  // ------------------------------------------------------------ counts

  /** `getClockedInCount` (lines 148-150): entries with no clock-out. */
  function OpenCount(es: seq<ReportEntry>): (n: nat)
    ensures n <= |es|
    ensures n == 0 <==> forall i :: 0 <= i < |es| ==> es[i].entry.clockOut.Some?
  {
    if es == [] then 0
    else
      assert forall i :: 1 <= i < |es| ==> es[i] == es[1..][i - 1];
      (if es[0].entry.clockOut.None? then 1 else 0) + OpenCount(es[1..])
  }

  /** An entry whose session is still running. */
  predicate StillOpen(e: ReportEntry) {
    e.entry.clockOut.None?
  }

  /** The clocked-in count is the number of entries shown without a
      clock-out. */
  lemma {:induction false} OpenCountIsFilter(es: seq<ReportEntry>)
    ensures OpenCount(es) == |Filter(es, StillOpen)|
  {
    if es != [] {
      OpenCountIsFilter(es[1..]);
    }
  }

  /** `getOfficeCount`, `getRemoteCount`, `getHybridCount` (lines 152-162). */
  function LocationCount(es: seq<ReportEntry>, l: WorkLocation): (n: nat)
    ensures n <= |es|
    ensures n == |es| <==> forall i :: 0 <= i < |es| ==> es[i].entry.location == l
  {
    if es == [] then 0
    else
      assert forall i :: 1 <= i < |es| ==> es[i] == es[1..][i - 1];
      (if es[0].entry.location == l then 1 else 0) + LocationCount(es[1..], l)
  }

  /** The three location cards add up to the entries shown. */
  lemma {:induction false} LocationCountsCover(es: seq<ReportEntry>)
    ensures LocationCount(es, Office) + LocationCount(es, Remote) + LocationCount(es, Hybrid) == |es|
  {
    if es != [] {
      LocationCountsCover(es[1..]);
    }
  }

  /** The count of a location is the length of that location's filter. */
  lemma {:induction false} LocationCountIsFilter(es: seq<ReportEntry>, l: WorkLocation)
    ensures LocationCount(es, l) == |AtLocation(es, l)|
  {
    if es != [] {
      LocationCountIsFilter(es[1..], l);
    }
  }

  // ---------------------------------------------------------- time

  /** The span of an entry: to its clock-out, or to `now` while open. */
  function Span(e: ReportEntry, now: int): int {
    e.entry.clockOut.GetOr(now) - e.entry.clockIn
  }

  function Spans(es: seq<ReportEntry>, now: int): (ds: seq<int>)
    ensures |ds| == |es|
    ensures forall i :: 0 <= i < |es| ==> ds[i] == Span(es[i], now)
  {
    if es == [] then [] else [Span(es[0], now)] + Spans(es[1..], now)
  }

  /** `getTotalHoursToday` (lines 136-146) over the filtered entries. */
  function TotalHoursToday(es: seq<ReportEntry>, now: int): (t: string)
    ensures (forall i :: 0 <= i < |es| ==> Span(es[i], now) >= 0) ==>
              var r := Elapsed.ReadUnits(t);
              && r.Some? && 0 <= r.value.minutes < 60
              && 60 * r.value.hours + r.value.minutes == Elapsed.TotalMinutes(Spans(es, now))
  {
    var ds := Spans(es, now);
    if forall i :: 0 <= i < |ds| ==> ds[i] >= 0 then
      Elapsed.TotalTextMeaning(ds);
      Elapsed.TotalText(ds)
    else
      Elapsed.TotalText(ds)
  }

  // ------------------------------------------------------------ export

  const EntryHeader: seq<string> := ["Employee Email", "Employee Name", "Manager", "Clock In", "Clock Out",
                                     "Location", "Hours Worked", "IP Address", "City", "Country", "Date"]

  /** The Clock Out cell of an open entry. */
  const StillClockedIn: string := "Still clocked in"

  /** The cells of one exported entry, by column. */
  datatype EntryRow = EntryRow(email: string, name: string, manager: string, clockIn: string,
                               clockOut: string, location: string, hoursWorked: string,
                               ip: string, city: string, country: string, date: string)
  {
    function Cells(): (cells: seq<string>)
      ensures |cells| == |EntryHeader|
    {
      [email, name, manager, clockIn, clockOut, location, hoursWorked, ip, city, country, date]
    }
  }

  /** One exported row (lines 179-191): absent texts print as `-`, an open
      entry's clock-out as "Still clocked in". */
  function ExportRow(e: ReportEntry, now: int, timeText: int -> string, dateText: int -> string): (row: EntryRow)
    ensures row.email == e.entry.employeeEmail && row.name == e.entry.employeeName
    ensures row.manager == OrDash(e.manager)
    ensures e.entry.clockOut.None? ==> row.clockOut == StillClockedIn
    ensures e.entry.clockOut.Some? ==> row.clockOut == timeText(e.entry.clockOut.value)
    ensures row.location == e.entry.location.Name()
    ensures row.hoursWorked == Elapsed.DashboardHoursWorked(e.entry.clockIn, e.entry.clockOut, now)
    ensures row.ip == OrDash(e.entry.ip) && row.city == OrDash(e.entry.city) && row.country == OrDash(e.entry.country)
  {
    var t := e.entry;
    EntryRow(t.employeeEmail, t.employeeName, OrDash(e.manager), timeText(t.clockIn),
             if t.clockOut.Some? then timeText(t.clockOut.value) else StillClockedIn,
             t.location.Name(), Elapsed.DashboardHoursWorked(t.clockIn, t.clockOut, now),
             OrDash(t.ip), OrDash(t.city), OrDash(t.country), dateText(t.clockIn))
  }

  /** The data rows of the export, one per entry in order. */
  function EntryRows(es: seq<ReportEntry>, now: int, timeText: int -> string, dateText: int -> string): (rows: seq<seq<string>>)
  {
    seq(|es|, i requires 0 <= i < |es| => ExportRow(es[i], now, timeText, dateText).Cells())
  }

  /** `exportToCSV` (lines 164-194): the header and one row per filtered
      entry, rendered without quoting. */
  function ExportCsv(es: seq<ReportEntry>, now: int, timeText: int -> string, dateText: int -> string): (text: string)
  {
    Csv.Render([EntryHeader] + EntryRows(es, now, timeText, dateText))
  }

  lemma HeaderPlain()
    ensures forall j :: 0 <= j < |EntryHeader| ==> Csv.Plain(EntryHeader[j])
  {
    forall j | 0 <= j < |EntryHeader| ensures Csv.Plain(EntryHeader[j]) {
      var h := EntryHeader[j];
      assert forall k :: 0 <= k < |h| ==> h[k] != ',' && h[k] != '\n';
    }
  }

  /** When no cell carries a comma or a line break, the export reads back
      as the header followed by each entry's row, in order. */
  lemma ExportReadsBack(es: seq<ReportEntry>, now: int, timeText: int -> string, dateText: int -> string)
    requires forall i, j :: 0 <= i < |es| && 0 <= j < |EntryHeader|
               ==> Csv.Plain(ExportRow(es[i], now, timeText, dateText).Cells()[j])
    ensures Csv.Parse(ExportCsv(es, now, timeText, dateText)) == [EntryHeader] + EntryRows(es, now, timeText, dateText)
  {
    var body := EntryRows(es, now, timeText, dateText);
    assert forall i :: 0 <= i < |body| ==> body[i] == ExportRow(es[i], now, timeText, dateText).Cells();
    HeaderPlain();
    Csv.HeaderedRenderParse(EntryHeader, body);
    assert ExportCsv(es, now, timeText, dateText) == Csv.Render([EntryHeader] + body);
  }
}
