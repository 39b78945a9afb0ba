/** The rows of the three store tables the components read and write
    (`employees`, `time_entries`, `audit_logs`), with store-assigned ids and
    timestamps as plain integers (milliseconds since the epoch). */
module Records {
  import opened Common
  import opened Text

  /** The three work locations the clock portal offers. */
  datatype WorkLocation = Office | Remote | Hybrid {
    /** The value stored in `time_entries.location`. */
    function Name(): string {
      match this
      case Office => "office"
      case Remote => "remote"
      case Hybrid => "hybrid"
    }
  }

  /** A row of `employees` as the components write it: the bulk import puts
      the company in `email`. */
  datatype Employee = Employee(name: string, email: string, manager: Option<string>)

  /** The geolocation object the portal captures (`{city, country, timezone}`),
      as the opaque texts it renders to. */
  datatype LocationData = LocationData(city: string, country: string, timezone: string)

  /** The employees whose name matches `name` under `ilike` without
      wildcards, that is, equal up to letter case. */
  function Matches(employees: seq<Employee>, name: string): (r: seq<Employee>)
    ensures |r| <= |employees|
    ensures forall i :: 0 <= i < |r| ==> EqualsIgnoreCase(r[i].name, name)
    ensures forall i :: 0 <= i < |employees| && EqualsIgnoreCase(employees[i].name, name) ==> employees[i] in r
  {
    if employees == [] then []
    else
      var rest := Matches(employees[1..], name);
      assert forall i :: 1 <= i < |employees| ==> employees[i] == employees[1..][i - 1];
      if EqualsIgnoreCase(employees[0].name, name) then [employees[0]] + rest else rest
  }

  lemma {:induction false} MatchesMember(employees: seq<Employee>, name: string)
    ensures forall e :: e in Matches(employees, name) ==> e in employees
  {
    if employees != [] {
      MatchesMember(employees[1..], name);
    }
  }

  /** Nobody matches when no name is equal up to case. */
  lemma {:induction false} NoMatches(employees: seq<Employee>, name: string)
    requires forall j :: 0 <= j < |employees| ==> !EqualsIgnoreCase(employees[j].name, name)
    ensures Matches(employees, name) == []
  {
    if employees != [] {
      assert forall j :: 0 <= j < |employees| - 1 ==> employees[1..][j] == employees[j + 1];
      NoMatches(employees[1..], name);
    }
  }

  /** Matching goes row by row: the matches of a concatenation are those
      of each part, in order. */
  lemma {:induction false} MatchesAppend(a: seq<Employee>, b: seq<Employee>, name: string)
    ensures Matches(a + b, name) == Matches(a, name) + Matches(b, name)
  {
    if a == [] {
      assert a + b == b;
    } else {
      assert (a + b)[1..] == a[1..] + b;
      MatchesAppend(a[1..], b, name);
    }
  }

  /** A row of `time_entries`. `clockOut == None` is an open session. */
  datatype TimeEntry = TimeEntry(
    id: nat,
    employeeEmail: string,
    employeeName: string,
    clockIn: int,
    clockOut: Option<int>,
    location: WorkLocation,
    ip: Option<string>,
    city: Option<string>,
    country: Option<string>,
    timezone: Option<string>)
  {
    predicate IsOpen() {
      clockOut.None?
    }
  }

  /** The action kinds of the audit trail. */
  datatype ActionKind = ClockInAction | ClockOutAction | EmployeeRegistered
                      | EmployeeAdded | EmployeeLogin | AdminLogin
  {
    /** The value stored in `audit_logs.action_type`. */
    function Code(): string {
      match this
      case ClockInAction => "clock_in"
      case ClockOutAction => "clock_out"
      case EmployeeRegistered => "employee_registered"
      case EmployeeAdded => "employee_added"
      case EmployeeLogin => "employee_login"
      case AdminLogin => "admin_login"
    }
  }

  /** The `details` payloads the clock portal writes. Their JSON text is left
      to an opaque serialiser. */
  datatype Details =
    | ClockInDetails(location: WorkLocation, ip: string, locationData: Option<LocationData>)
    | ClockOutDetails(location: WorkLocation)

  /** A row of `audit_logs`; `actionType` is free text in the table. */
  datatype AuditLog = AuditLog(
    actionType: string,
    employeeEmail: Option<string>,
    employeeName: Option<string>,
    ip: Option<string>,
    locationData: Option<LocationData>,
    details: Option<Details>,
    createdAt: int)

  /** An inclusive time window `[start, end]`, the `gte`/`lte` pair of a day
      filter (local 00:00:00.000 and 23:59:59.999 of the chosen day). */
  datatype Window = Window(start: int, end: int) {
    predicate Contains(t: int) {
      start <= t <= end
    }
  }

  /** JavaScript's `x || "-"` on a nullable text column: the dash stands for
      both null and the empty string. */
  function OrDash(o: Option<string>): (r: string)
    ensures r != []
    ensures r == "-" || o == Some(r)
    ensures (o.Some? && o.value != []) ==> r == o.value
  {
    if o.Some? && o.value != [] then o.value else "-"
  }
}
