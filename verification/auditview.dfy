/** The audit-log viewer (components/audit-logs.tsx): the day's log rows,
    the action filter and its choices, the action badges and the CSV
    export. The day window, `toLocaleString` and `JSON.stringify` are
    parameters. */
module AuditView {
  import opened Common
  import opened Text
  import opened Seqs
  import opened Records
  import Csv

  // -------------------------------------------------------------- labels

  /** The kind whose stored code is `actionType`, if any. */
  function KindOf(actionType: string): (k: Option<ActionKind>)
    ensures k.Some? ==> k.value.Code() == actionType
  {
    if actionType == "clock_in" then Some(ClockInAction)
    else if actionType == "clock_out" then Some(ClockOutAction)
    else if actionType == "employee_registered" then Some(EmployeeRegistered)
    else if actionType == "employee_added" then Some(EmployeeAdded)
    else if actionType == "employee_login" then Some(EmployeeLogin)
    else if actionType == "admin_login" then Some(AdminLogin)
    else None
  }

  /** Every kind is recognised from its own code, and no other text is. */
  lemma KindOfCode(k: ActionKind)
    ensures KindOf(k.Code()) == Some(k)
  {
  }

  /** The badge text of a kind. */
  function KindLabel(k: ActionKind): string {
    match k
    case ClockInAction => "Clock In"
    case ClockOutAction => "Clock Out"
    case EmployeeRegistered => "Registration"
    case EmployeeAdded => "Added by Admin"
    case AdminLogin => "Admin Login"
    case EmployeeLogin => "Employee Login"
  }

  /** `getActionBadge` (lines 69-81): the label of a known code, otherwise
      the code itself. */
  function Label(actionType: string): (shown: string)
    ensures (forall k: ActionKind :: k.Code() != actionType) ==> shown == actionType
    ensures forall k: ActionKind :: k.Code() == actionType ==> shown == KindLabel(k)
  {
    match KindOf(actionType)
    case Some(k) => KindLabel(k)
    case None =>
      assert forall k: ActionKind :: k.Code() != actionType by {
        forall k: ActionKind ensures k.Code() != actionType {
          KindOfCode(k);
        }
      }
      actionType
  }

  /** The six kinds show six different labels. */
  lemma LabelsDistinct(a: ActionKind, b: ActionKind)
    requires a != b
    ensures Label(a.Code()) != Label(b.Code())
  {
    KindOfCode(a);
    KindOfCode(b);
  }

  // -------------------------------------------------------------- filter

  /** The values of the action filter's dropdown (lines 107-114). */
  const ActionChoices: seq<string> :=
    ["all", "clock_in", "clock_out", "employee_registered", "employee_login", "admin_login"]

  /** Every kind but `employee_added` can be picked; that one has no entry. */
  lemma ChoicesOmitAdded(k: ActionKind)
    ensures k.Code() in ActionChoices <==> k != EmployeeAdded
  {
    if k == EmployeeAdded {
      assert forall i :: 0 <= i < |ActionChoices| ==> ActionChoices[i] != k.Code();
    }
  }

  /** `filterLogs` (lines 59-67): `"all"` keeps everything, any other value
      keeps the rows with exactly that `action_type`. */
  function FilterLogs(logs: seq<AuditLog>, choice: string): (r: seq<AuditLog>)
    ensures |r| <= |logs|
    ensures choice == "all" ==> r == logs
    ensures choice != "all" ==>
              && (forall i :: 0 <= i < |r| ==> r[i].actionType == choice && r[i] in logs)
              && (forall i :: 0 <= i < |logs| && logs[i].actionType == choice ==> logs[i] in r)
  {
    if choice == "all" then logs else Filter(logs, (l: AuditLog) => l.actionType == choice)
  }

  /** Rows written by the admin roster (`employee_added`) show only under
      "All Actions": no other choice on offer keeps them. */
  lemma AddedOnlyUnderAll(logs: seq<AuditLog>, choice: string)
    requires choice in ActionChoices && choice != "all"
    ensures forall i :: 0 <= i < |FilterLogs(logs, choice)| ==>
              FilterLogs(logs, choice)[i].actionType != EmployeeAdded.Code()
  {
    assert forall i :: 0 <= i < |ActionChoices| ==> ActionChoices[i] != EmployeeAdded.Code();
  }

  // ---------------------------------------------------------------- load

  function CreatedAtOf(l: AuditLog): int {
    l.createdAt
  }

  /** The rows whose `created_at` lies in the window, in store order. */
  function LogsInWindow(logs: seq<AuditLog>, w: Window): (r: seq<AuditLog>)
    ensures |r| <= |logs|
    ensures forall x :: x in r <==> x in logs && w.Contains(x.createdAt)
  {
    Filter(logs, (l: AuditLog) => w.Contains(l.createdAt))
  }

  datatype LoadResult = LoadFailed | Loaded(rows: seq<AuditLog>)

  /** `loadLogs` (lines 35-57): a failed select keeps the rows shown;
      otherwise the rows of the window, newest first. */
  function LoadLogs(shown: seq<AuditLog>, result: LoadResult, w: Window): (r: seq<AuditLog>)
    ensures result.LoadFailed? ==> r == shown
    ensures result.Loaded? ==>
              && SortedDesc(r, CreatedAtOf)
              && multiset(r) == multiset(LogsInWindow(result.rows, w))
              && (forall x :: x in r <==> x in result.rows && w.Contains(x.createdAt))
  {
    match result
    case LoadFailed => shown
    case Loaded(rows) =>
      var r := SortDesc(LogsInWindow(rows, w), CreatedAtOf);
      assert forall x :: x in r <==> x in multiset(r);
      r
  }

  // -------------------------------------------------------------- export

  const LogHeader: seq<string> := ["Timestamp", "Action", "Employee", "Email", "IP Address", "Location", "Details"]

  /** The Location cell: `${city}, ${country}` when a location was captured. */
  function LocationCell(ld: Option<LocationData>): (cell: string)
    ensures ld.None? ==> cell == "-"
    ensures ld.Some? ==> cell == ld.value.city + ", " + ld.value.country
    ensures ld.Some? ==> Occurrences(cell, ',') == Occurrences(ld.value.city, ',') + 1 + Occurrences(ld.value.country, ',')
  {
    match ld
    case None => "-"
    case Some(d) =>
      OccurrencesAppend(d.city + ",", " " + d.country, ',');
      OccurrencesAppend(d.city, ",", ',');
      OccurrencesAppend(" ", d.country, ',');
      assert d.city + ", " + d.country == (d.city + ",") + (" " + d.country);
      d.city + ", " + d.country
  }

  /** `JSON.stringify(log.details || {})`: an absent payload prints `{}`. */
  function DetailsCell(details: Option<Details>, toJson: Details -> string): (cell: string)
    ensures details.None? ==> cell == "{}"
    ensures details.Some? ==> cell == toJson(details.value)
  {
    if details.None? then "{}" else toJson(details.value)
  }

  /** One exported row (lines 86-93). */
  function LogCells(l: AuditLog, timeText: int -> string, toJson: Details -> string): (cells: seq<string>)
    ensures |cells| == |LogHeader|
    ensures cells[0] == timeText(l.createdAt)
    ensures cells[1] == l.actionType
    ensures cells[2] == OrDash(l.employeeName) && cells[3] == OrDash(l.employeeEmail) && cells[4] == OrDash(l.ip)
    ensures cells[5] == LocationCell(l.locationData)
    ensures cells[6] == DetailsCell(l.details, toJson)
  {
    [timeText(l.createdAt), l.actionType, OrDash(l.employeeName), OrDash(l.employeeEmail), OrDash(l.ip),
     LocationCell(l.locationData), DetailsCell(l.details, toJson)]
  }

  function LogRows(logs: seq<AuditLog>, timeText: int -> string, toJson: Details -> string): (rows: seq<seq<string>>)
    ensures |rows| == |logs|
    ensures forall i :: 0 <= i < |logs| ==> rows[i] == LogCells(logs[i], timeText, toJson)
  {
    if logs == [] then [] else [LogCells(logs[0], timeText, toJson)] + LogRows(logs[1..], timeText, toJson)
  }

  /** `exportToCSV` (lines 83-97): the header and one row per filtered log,
      rendered without quoting. */
  function ExportCsv(logs: seq<AuditLog>, timeText: int -> string, toJson: Details -> string): string
  {
    Csv.Render([LogHeader] + LogRows(logs, timeText, toJson))
  }

  /** A row whose log carries a location splits into more fields than the
      seven-column header: the Location cell's own comma opens an eighth. */
  lemma LocatedRowOverflows(l: AuditLog, timeText: int -> string, toJson: Details -> string)
    requires l.locationData.Some?
    ensures |Split(JoinWith(LogCells(l, timeText, toJson), ','), ',')| > |LogHeader|
  {
    var cells := LogCells(l, timeText, toJson);
    Csv.CommaShiftsFields(cells);
    OccurrencesInAtLeast(cells, 5, ',');
  }
}
