/** The employee clock portal (components/clock-portal.tsx) as a state
    machine over the portal's own state and the store's three tables.

    Everything the component awaits from elsewhere is a parameter: the
    current time, the local calendar day of a timestamp (`toLocaleDateString`),
    the outcome of each store write, and what `localStorage` held at load.
    The background `checkTodayClockStatus` runs to completion before the next
    action. */
module Portal {
  import opened Common
  import opened Text
  import opened Records

  // ============================================================== state

  /** The portal's `currentEntry`, copied from a stored `time_entries` row. */
  datatype CurrentEntry = CurrentEntry(id: nat, employeeName: string, clockIn: int, location: WorkLocation)

  /** The component's state (lines 29-38). `employeeId` is the name the
      employee logged in with: the portal never holds an e-mail. */
  datatype State = State(
    loggedIn: bool,
    employeeId: string,
    employeeName: string,
    clockedIn: bool,
    current: Option<CurrentEntry>,
    location: WorkLocation,
    ip: string,
    locationData: Option<LocationData>)

  /** A fresh portal once the IP lookup has answered (or not). */
  function Initial(ip: string, locationData: Option<LocationData>): State {
    State(false, "", "", false, None, Office, ip, locationData)
  }

  /** The rows of the store the portal reads and writes. */
  datatype Store = Store(employees: seq<Employee>, entries: seq<TimeEntry>, audit: seq<AuditLog>)

  /** The portal shows an open session exactly when it holds its entry,
      only while someone is logged in, and only for that person. */
  predicate Valid(s: State) {
    && (s.clockedIn <==> s.current.Some?)
    && (s.clockedIn ==> s.loggedIn)
    && (s.current.Some? ==> s.current.value.employeeName == s.employeeName)
  }

  /** The store's ids are distinct. */
  predicate UniqueIds(entries: seq<TimeEntry>) {
    forall i, j :: 0 <= i < j < |entries| ==> entries[i].id != entries[j].id
  }

  /** The portal's current entry is an open row of the store with the same
      id, clock-in and location. */
  predicate Consistent(s: State, store: Store) {
    s.current.Some? ==>
      exists i :: 0 <= i < |store.entries| && Mirrors(store.entries[i], s.current.value)
  }

  predicate Mirrors(e: TimeEntry, c: CurrentEntry) {
    e.id == c.id && e.IsOpen() && e.employeeName == c.employeeName
    && e.clockIn == c.clockIn && e.location == c.location
  }

  // ======================================================= audit trail

  /** `logAuditEvent` (lines 76-88): the employee "e-mail" written is
      `employeeId`, which holds the name. */
  function PortalAudit(s: State, kind: ActionKind, details: Details, now: int): (log: AuditLog)
    ensures log.actionType == kind.Code()
    ensures log.employeeEmail == Some(s.employeeId) && log.employeeName == Some(s.employeeName)
    ensures log.ip == Some(s.ip) && log.locationData == s.locationData
    ensures log.details == Some(details) && log.createdAt == now
  {
    AuditLog(kind.Code(), Some(s.employeeId), Some(s.employeeName), Some(s.ip), s.locationData, Some(details), now)
  }

  /** An audit insert whose error is ignored: the row is added only when
      the insert succeeds, and nothing else depends on it. */
  function Record(store: Store, log: AuditLog, ok: bool): (r: Store)
    ensures r.employees == store.employees && r.entries == store.entries
    ensures r.audit == if ok then store.audit + [log] else store.audit
  {
    if ok then store.(audit := store.audit + [log]) else store
  }

  // ============================================================= login

  /** `.ilike("name", name).single()`: a row only when exactly one employee
      matches; none or several is an error and the portal says the name was
      not found. */
  function LookupEmployee(employees: seq<Employee>, name: string): (r: Option<Employee>)
    ensures r.Some? ==> r.value in employees && EqualsIgnoreCase(r.value.name, name)
    ensures r.Some? ==> forall i :: 0 <= i < |employees| && EqualsIgnoreCase(employees[i].name, name)
                                    ==> employees[i] == r.value
    ensures r.None? <==> |Matches(employees, name)| != 1
  {
    var ms := Matches(employees, name);
    if |ms| == 1 then
      MatchesMember(employees, name);
      Some(ms[0])
    else None
  }

  /** The latest open entry of `name` (lines 94-101): exact name match, no
      clock-out, greatest clock-in first. */
  function LatestOpen(entries: seq<TimeEntry>, name: string): (r: Option<TimeEntry>)
    ensures r.Some? ==> r.value in entries && r.value.employeeName == name && r.value.IsOpen()
    ensures r.Some? ==> forall i :: 0 <= i < |entries| && entries[i].employeeName == name && entries[i].IsOpen()
                                    ==> entries[i].clockIn <= r.value.clockIn
    ensures r.None? <==> forall i :: 0 <= i < |entries| ==> !(entries[i].employeeName == name && entries[i].IsOpen())
  {
    if entries == [] then None
    else
      var rest := LatestOpen(entries[1..], name);
      var e := entries[0];
      assert forall i :: 1 <= i < |entries| ==> entries[i] == entries[1..][i - 1];
      if !(e.employeeName == name && e.IsOpen()) then rest
      else if rest.Some? && rest.value.clockIn > e.clockIn then rest
      else Some(e)
  }

  function FromRow(e: TimeEntry): CurrentEntry {
    CurrentEntry(e.id, e.employeeName, e.clockIn, e.location)
  }

  /** `checkTodayClockStatus` (lines 90-118): resume the latest open entry
      of `name` if it began on today's local date; otherwise leave the state
      as it was. */
  function Resume(s: State, entries: seq<TimeEntry>, name: string, now: int, dayOf: int -> int): (r: State)
    ensures r.loggedIn == s.loggedIn && r.employeeId == s.employeeId && r.employeeName == s.employeeName
    ensures r.ip == s.ip && r.locationData == s.locationData
    ensures var latest := LatestOpen(entries, name);
      if latest.Some? && dayOf(latest.value.clockIn) == dayOf(now) then
        r.clockedIn && r.current == Some(FromRow(latest.value)) && r.location == latest.value.location
      else r == s
  {
    match LatestOpen(entries, name)
    case None => s
    case Some(e) =>
      if dayOf(e.clockIn) == dayOf(now) then
        s.(clockedIn := true, current := Some(FromRow(e)), location := e.location)
      else s
  }

  /** What the status check leaves behind: the latest open entry of `name`
      is current, and its location chosen, exactly when it began today;
      otherwise the session, entry and location are those of `s`. */
  predicate ResumesToday(s: State, r: State, entries: seq<TimeEntry>, name: string, now: int, dayOf: int -> int) {
    var latest := LatestOpen(entries, name);
    if latest.Some? && dayOf(latest.value.clockIn) == dayOf(now) then
      r.clockedIn && r.current == Some(FromRow(latest.value)) && r.location == latest.value.location
    else
      r.clockedIn == s.clockedIn && r.current == s.current && r.location == s.location
  }

  /** The `employee_login` audit row (lines 145-153): the e-mail column gets
      the stored e-mail, or the name when that is empty; there are no
      details. */
  function LoginAudit(s: State, e: Employee, now: int): (log: AuditLog)
    ensures log.actionType == "employee_login"
    ensures log.employeeEmail == Some(if e.email == [] then e.name else e.email)
    ensures log.employeeName == Some(e.name) && log.details.None?
  {
    AuditLog(EmployeeLogin.Code(), Some(if e.email != [] then e.email else e.name), Some(e.name),
             Some(s.ip), s.locationData, None, now)
  }

  /** `handleLogin` (lines 121-159). Both fields must be non-empty; the
      company is otherwise never looked at. */
  function Login(s: State, store: Store, name: string, company: string, now: int, dayOf: int -> int, auditOk: bool): (r: (State, Store))
    ensures (name == [] || company == [] || LookupEmployee(store.employees, name).None?) ==> r == (s, store)
    ensures name != [] && company != [] && LookupEmployee(store.employees, name).Some? ==>
              var e := LookupEmployee(store.employees, name).value;
              && r.0.loggedIn && r.0.employeeId == e.name && r.0.employeeName == e.name
              && r.1.employees == store.employees && r.1.entries == store.entries
              && r.1.audit == (if auditOk then store.audit + [LoginAudit(s, e, now)] else store.audit)
    ensures name != [] && company != [] && LookupEmployee(store.employees, name).Some? ==>
              ResumesToday(s, r.0, store.entries, LookupEmployee(store.employees, name).value.name, now, dayOf)
  {
    if name == [] || company == [] then (s, store)
    else
      match LookupEmployee(store.employees, name)
      case None => (s, store)
      case Some(e) =>
        var s1 := s.(loggedIn := true, employeeId := e.name, employeeName := e.name);
        (Resume(s1, store.entries, e.name, now, dayOf), Record(store, LoginAudit(s, e, now), auditOk))
  }

  /** The login effect on page load (lines 48-60) when `localStorage` holds
      an employee `{id, name}`. */
  function Reload(s: State, store: Store, stored: Option<(string, string)>, now: int, dayOf: int -> int): (r: State)
    ensures stored.None? ==> r == s
    ensures stored.Some? ==> r.loggedIn && r.employeeId == stored.value.0 && r.employeeName == stored.value.1
    ensures stored.Some? ==> ResumesToday(s, r, store.entries, stored.value.1, now, dayOf)
  {
    match stored
    case None => s
    case Some((id, name)) =>
      Resume(s.(loggedIn := true, employeeId := id, employeeName := name), store.entries, name, now, dayOf)
  }

  // ========================================================= clock in

  /** An id not yet used in `entries`. */
  function NextId(entries: seq<TimeEntry>): (id: nat)
    ensures forall i :: 0 <= i < |entries| ==> entries[i].id < id
  {
    if entries == [] then 0
    else
      var rest := NextId(entries[1..]);
      assert forall i :: 1 <= i < |entries| ==> entries[i] == entries[1..][i - 1];
      if entries[0].id + 1 > rest then entries[0].id + 1 else rest
  }

  /** The row `handleClockIn` inserts (lines 166-177). */
  function NewEntry(s: State, id: nat, now: int): TimeEntry {
    TimeEntry(id, s.employeeId, s.employeeName, now, None, s.location, Some(s.ip),
              if s.locationData.Some? then Some(s.locationData.value.city) else None,
              if s.locationData.Some? then Some(s.locationData.value.country) else None,
              if s.locationData.Some? then Some(s.locationData.value.timezone) else None)
  }

  /** `handleClockIn` (lines 161-201). A failed insert changes nothing and
      writes no audit row. A successful one adds the open entry, makes it
      current and then writes the `clock_in` audit row. The portal does not
      check for an open entry of its own. */
  function ClockIn(s: State, store: Store, now: int, insertOk: bool, auditOk: bool): (r: (State, Store))
    ensures !insertOk ==> r == (s, store)
    ensures insertOk ==>
              var e := NewEntry(s, NextId(store.entries), now);
              && r.1.employees == store.employees
              && r.1.entries == store.entries + [e]
              && r.1.audit == (if auditOk then store.audit + [PortalAudit(s, ClockInAction, ClockInDetails(s.location, s.ip, s.locationData), now)] else store.audit)
              && r.0 == s.(clockedIn := true, current := Some(FromRow(e)))
  {
    if !insertOk then (s, store)
    else
      var e := NewEntry(s, NextId(store.entries), now);
      var s1 := s.(clockedIn := true, current := Some(FromRow(e)));
      var store1 := store.(entries := store.entries + [e]);
      (s1, Record(store1, PortalAudit(s, ClockInAction, ClockInDetails(s.location, s.ip, s.locationData), now), auditOk))
  }

  // ======================================================== clock out

  /** `.update({clock_out}).eq("id", id)`: every row with the id gets the
      clock-out time, whether or not it was already closed. */
  function CloseEntry(entries: seq<TimeEntry>, id: nat, now: int): (r: seq<TimeEntry>)
    ensures |r| == |entries|
    ensures forall i :: 0 <= i < |entries| ==>
              r[i] == if entries[i].id == id then entries[i].(clockOut := Some(now)) else entries[i]
  {
    if entries == [] then []
    else
      var e := entries[0];
      [if e.id == id then e.(clockOut := Some(now)) else e] + CloseEntry(entries[1..], id, now)
  }

  /** `handleClockOut` (lines 203-232). Without a current entry nothing
      happens; a failed update changes nothing. Otherwise the entry is
      closed, the `clock_out` audit row is written and the session ends. */
  function ClockOut(s: State, store: Store, now: int, updateOk: bool, auditOk: bool): (r: (State, Store))
    ensures (s.current.None? || !updateOk) ==> r == (s, store)
    ensures s.current.Some? && updateOk ==>
              && r.1.employees == store.employees
              && r.1.entries == CloseEntry(store.entries, s.current.value.id, now)
              && r.1.audit == (if auditOk then store.audit + [PortalAudit(s, ClockOutAction, ClockOutDetails(s.current.value.location), now)] else store.audit)
              && r.0 == s.(clockedIn := false, current := None)
  {
    match s.current
    case None => (s, store)
    case Some(c) =>
      if !updateOk then (s, store)
      else
        var store1 := store.(entries := CloseEntry(store.entries, c.id, now));
        var store2 := Record(store1, PortalAudit(s, ClockOutAction, ClockOutDetails(c.location), now), auditOk);
        (s.(clockedIn := false, current := None), store2)
  }

  // ================================================= sign out, location

  /** The sign-out button (lines 338-343): the session flags are cleared;
      the store, and any open entry in it, is left alone. */
  function SignOut(s: State): (r: State)
    ensures !r.loggedIn && !r.clockedIn && r.current.None?
    ensures r.employeeId == s.employeeId && r.employeeName == s.employeeName && r.location == s.location
  {
    s.(loggedIn := false, clockedIn := false, current := None)
  }

  // ===================================================== the machine

  datatype Action =
    | SubmitLogin(name: string, company: string)
    | PickLocation(location: WorkLocation)
    | PressClockIn
    | PressClockOut
    | PressSignOut

  /** What the page offers (lines 400-448): the login form while logged
      out; once logged in, sign-out, and either the location choice and
      Clock In, or Clock Out while clocked in. */
  predicate Offered(s: State, a: Action) {
    match a
    case SubmitLogin(_, _) => !s.loggedIn
    case PickLocation(_) => s.loggedIn && !s.clockedIn
    case PressClockIn => s.loggedIn && !s.clockedIn
    case PressClockOut => s.loggedIn && s.clockedIn
    case PressSignOut => s.loggedIn
  }

  /** The world around one action: the time, the local day of a time, and
      whether each store write succeeds. */
  datatype Env = Env(now: int, dayOf: int -> int, writeOk: bool, auditOk: bool)

  function Step(s: State, store: Store, a: Action, env: Env): (State, Store) {
    match a
    case SubmitLogin(name, company) => Login(s, store, name, company, env.now, env.dayOf, env.auditOk)
    case PickLocation(l) => (s.(location := l), store)
    case PressClockIn => ClockIn(s, store, env.now, env.writeOk, env.auditOk)
    case PressClockOut => ClockOut(s, store, env.now, env.writeOk, env.auditOk)
    case PressSignOut => (SignOut(s), store)
  }

  // ========================================================== lemmas

  /** Every offered action keeps the portal's flags in step with its
      entry. */
  lemma StepKeepsValid(s: State, store: Store, a: Action, env: Env)
    requires Valid(s) && Offered(s, a)
    ensures Valid(Step(s, store, a, env).0)
  {
  }

  /** Every offered action keeps the current entry an open stored row, and
      the store's ids distinct. */
  lemma StepKeepsConsistent(s: State, store: Store, a: Action, env: Env)
    requires Valid(s) && Offered(s, a) && Consistent(s, store) && UniqueIds(store.entries)
    ensures Consistent(Step(s, store, a, env).0, Step(s, store, a, env).1)
    ensures UniqueIds(Step(s, store, a, env).1.entries)
  {
    var (s1, store1) := Step(s, store, a, env);
    match a
    case SubmitLogin(name, company) =>
      if s1.current.Some? {
        var e := LatestOpen(store.entries, s1.employeeName).value;
        var i :| 0 <= i < |store.entries| && store.entries[i] == e;
        assert Mirrors(store1.entries[i], s1.current.value);
      }
    case PressClockIn =>
      if env.writeOk {
        var e := NewEntry(s, NextId(store.entries), env.now);
        assert store1.entries[|store.entries|] == e;
        assert Mirrors(store1.entries[|store.entries|], s1.current.value);
      }
    case PressClockOut =>
      if env.writeOk {
        assert s1.current.None?;
        assert UniqueIds(store1.entries) by {
          forall i, j | 0 <= i < j < |store1.entries| ensures store1.entries[i].id != store1.entries[j].id {
            assert store1.entries[i].id == store.entries[i].id;
            assert store1.entries[j].id == store.entries[j].id;
          }
        }
      }
    case PickLocation(_) =>
    case PressSignOut =>
  }

  /** The company typed at login makes no difference once it is non-empty. */
  lemma CompanyIgnored(s: State, store: Store, name: string, c1: string, c2: string, now: int,
                       dayOf: int -> int, auditOk: bool)
    requires c1 != [] && c2 != []
    ensures Login(s, store, name, c1, now, dayOf, auditOk) == Login(s, store, name, c2, now, dayOf, auditOk)
  {
  }

  /** The portal writes an audit row only after the write it reports has
      succeeded: a login that found its employee, or a clock-in or clock-out
      whose store write went through. */
  lemma AuditFollowsWrite(s: State, store: Store, a: Action, env: Env)
    requires Valid(s) && Offered(s, a)
    ensures var r := Step(s, store, a, env);
      r.1.audit != store.audit ==>
        && env.auditOk
        && |r.1.audit| == |store.audit| + 1
        && (a.SubmitLogin? ==> a.name != [] && a.company != [] && LookupEmployee(store.employees, a.name).Some?)
        && (a.PressClockIn? ==> env.writeOk && |r.1.entries| == |store.entries| + 1)
        && (a.PressClockOut? ==> env.writeOk && s.current.Some?)
        && !a.PickLocation? && !a.PressSignOut?
  {
  }

  /** How many open entries carry `name`. */
  function OpenCount(entries: seq<TimeEntry>, name: string): (n: nat)
    ensures n <= |entries|
    ensures n == 0 <==> forall i :: 0 <= i < |entries| ==> !(entries[i].employeeName == name && entries[i].IsOpen())
  {
    if entries == [] then 0
    else
      assert forall i :: 1 <= i < |entries| ==> entries[i] == entries[1..][i - 1];
      (if entries[0].employeeName == name && entries[0].IsOpen() then 1 else 0) + OpenCount(entries[1..], name)
  }

  lemma {:induction false} OpenCountAppend(entries: seq<TimeEntry>, e: TimeEntry, name: string)
    ensures OpenCount(entries + [e], name) == OpenCount(entries, name) + (if e.employeeName == name && e.IsOpen() then 1 else 0)
  {
    if entries != [] {
      assert (entries + [e])[1..] == entries[1..] + [e];
      OpenCountAppend(entries[1..], e, name);
    }
  }

  /** A successful clock-in adds exactly one open entry for the employee. */
  lemma ClockInOpensOne(s: State, store: Store, now: int, auditOk: bool)
    ensures OpenCount(ClockIn(s, store, now, true, auditOk).1.entries, s.employeeName)
            == OpenCount(store.entries, s.employeeName) + 1
  {
    OpenCountAppend(store.entries, NewEntry(s, NextId(store.entries), now), s.employeeName);
  }

  /** Closing the one row with an id that is an open entry of `name`
      removes exactly one open entry of `name`. */
  lemma {:induction false} CloseEntryClosesOne(entries: seq<TimeEntry>, k: nat, now: int, name: string)
    requires k < |entries| && UniqueIds(entries)
    requires entries[k].employeeName == name && entries[k].IsOpen()
    ensures OpenCount(CloseEntry(entries, entries[k].id, now), name) == OpenCount(entries, name) - 1
  {
    var id := entries[k].id;
    var r := CloseEntry(entries, id, now);
    assert r[1..] == CloseEntry(entries[1..], id, now);
    if k == 0 {
      assert forall i :: 0 <= i < |entries| - 1 ==> entries[1..][i].id != id by {
        forall i | 0 <= i < |entries| - 1 ensures entries[1..][i].id != id {
          assert entries[1..][i] == entries[i + 1];
        }
      }
      CloseEntryElsewhere(entries[1..], id, now, name);
    } else {
      assert entries[1..][k - 1] == entries[k];
      assert UniqueIds(entries[1..]) by {
        forall i, j | 0 <= i < j < |entries| - 1 ensures entries[1..][i].id != entries[1..][j].id {
          assert entries[1..][i] == entries[i + 1] && entries[1..][j] == entries[j + 1];
        }
      }
      assert entries[0].id != id;
      CloseEntryClosesOne(entries[1..], k - 1, now, name);
    }
  }

  /** Closing an id that no row carries changes no count. */
  lemma {:induction false} CloseEntryElsewhere(entries: seq<TimeEntry>, id: nat, now: int, name: string)
    requires forall i :: 0 <= i < |entries| ==> entries[i].id != id
    ensures OpenCount(CloseEntry(entries, id, now), name) == OpenCount(entries, name)
  {
    if entries != [] {
      var r := CloseEntry(entries, id, now);
      assert r[1..] == CloseEntry(entries[1..], id, now);
      assert forall i :: 0 <= i < |entries| - 1 ==> entries[1..][i].id != id by {
        forall i | 0 <= i < |entries| - 1 ensures entries[1..][i].id != id {
          assert entries[1..][i] == entries[i + 1];
        }
      }
      CloseEntryElsewhere(entries[1..], id, now, name);
    }
  }

  /** A successful clock-out of a session that mirrors its stored entry
      removes exactly one open entry for the employee. */
  lemma ClockOutClosesOne(s: State, store: Store, now: int, auditOk: bool)
    requires Valid(s) && s.clockedIn && Consistent(s, store) && UniqueIds(store.entries)
    ensures OpenCount(ClockOut(s, store, now, true, auditOk).1.entries, s.employeeName)
            == OpenCount(store.entries, s.employeeName) - 1
  {
    var c := s.current.value;
    var k :| 0 <= k < |store.entries| && Mirrors(store.entries[k], c);
    CloseEntryClosesOne(store.entries, k, now, s.employeeName);
  }

  /** Nothing stops a second open entry: an employee who clocks in, signs
      out without clocking out and logs in again on a later local day is
      not resumed, is offered Clock In, and ends with two open entries. */
  lemma SecondOpenEntry(e: Employee, company: string, ip: string, ld: Option<LocationData>,
                        audit: seq<AuditLog>, t0: int, t1: int, dayOf: int -> int)
    requires e.name != [] && company != [] && dayOf(t0) != dayOf(t1)
    ensures var s0, st0 := Initial(ip, ld), Store([e], [], audit);
      var env0, env1 := Env(t0, dayOf, true, true), Env(t1, dayOf, true, true);
      var (s1, st1) := Step(s0, st0, SubmitLogin(e.name, company), env0);
      var (s2, st2) := Step(s1, st1, PressClockIn, env0);
      var (s3, st3) := Step(s2, st2, PressSignOut, env0);
      var (s4, st4) := Step(s3, st3, SubmitLogin(e.name, company), env1);
      var (s5, st5) := Step(s4, st4, PressClockIn, env1);
      && Offered(s0, SubmitLogin(e.name, company)) && Offered(s1, PressClockIn)
      && Offered(s2, PressSignOut) && Offered(s3, SubmitLogin(e.name, company))
      && Offered(s4, PressClockIn)
      && OpenCount(st5.entries, e.name) == 2
  {
    var s0, st0 := Initial(ip, ld), Store([e], [], audit);
    assert EqualsIgnoreCase(e.name, e.name);
    assert Matches([e], e.name) == [e];
    assert LookupEmployee([e], e.name) == Some(e);
    var env0, env1 := Env(t0, dayOf, true, true), Env(t1, dayOf, true, true);
    var (s1, st1) := Step(s0, st0, SubmitLogin(e.name, company), env0);
    assert s1.loggedIn && !s1.clockedIn && s1.employeeName == e.name;
    var (s2, st2) := Step(s1, st1, PressClockIn, env0);
    ClockInOpensOne(s1, st1, t0, true);
    assert OpenCount(st2.entries, e.name) == 1;
    var (s3, st3) := Step(s2, st2, PressSignOut, env0);
    var (s4, st4) := Step(s3, st3, SubmitLogin(e.name, company), env1);
    assert st4.entries == st2.entries;
    var latest := LatestOpen(st2.entries, e.name);
    assert latest == Some(st2.entries[0]);
    assert !s4.clockedIn;
    var (s5, st5) := Step(s4, st4, PressClockIn, env1);
    ClockInOpensOne(s4, st4, t1, true);
  }

  /** Signing out and back in on the same local day resumes the open
      entry instead. */
  lemma SameDayResumes(e: Employee, company: string, ip: string, ld: Option<LocationData>,
                       audit: seq<AuditLog>, t0: int, t1: int, dayOf: int -> int)
    requires e.name != [] && company != [] && dayOf(t0) == dayOf(t1)
    ensures var s0, st0 := Initial(ip, ld), Store([e], [], audit);
      var env0, env1 := Env(t0, dayOf, true, true), Env(t1, dayOf, true, true);
      var (s1, st1) := Step(s0, st0, SubmitLogin(e.name, company), env0);
      var (s2, st2) := Step(s1, st1, PressClockIn, env0);
      var (s3, st3) := Step(s2, st2, PressSignOut, env0);
      var (s4, st4) := Step(s3, st3, SubmitLogin(e.name, company), env1);
      && s4.clockedIn && s4.current == s2.current
      && !Offered(s4, PressClockIn) && OpenCount(st4.entries, e.name) == 1
  {
    var s0, st0 := Initial(ip, ld), Store([e], [], audit);
    assert EqualsIgnoreCase(e.name, e.name);
    assert Matches([e], e.name) == [e];
    assert LookupEmployee([e], e.name) == Some(e);
    var env0, env1 := Env(t0, dayOf, true, true), Env(t1, dayOf, true, true);
    var (s1, st1) := Step(s0, st0, SubmitLogin(e.name, company), env0);
    var (s2, st2) := Step(s1, st1, PressClockIn, env0);
    ClockInOpensOne(s1, st1, t0, true);
    var (s3, st3) := Step(s2, st2, PressSignOut, env0);
    var (s4, st4) := Step(s3, st3, SubmitLogin(e.name, company), env1);
    assert LatestOpen(st2.entries, e.name) == Some(st2.entries[0]);
  }

  /** A login from a logged-out portal ends clocked in exactly when the
      employee's latest open entry began today, and that entry is then the
      current one. */
  lemma LoginResumesToday(s: State, store: Store, name: string, company: string, now: int, dayOf: int -> int, auditOk: bool)
    requires Valid(s) && !s.loggedIn
    requires name != [] && company != [] && LookupEmployee(store.employees, name).Some?
    ensures var r := Login(s, store, name, company, now, dayOf, auditOk).0;
            var latest := LatestOpen(store.entries, LookupEmployee(store.employees, name).value.name);
      && (r.clockedIn <==> latest.Some? && dayOf(latest.value.clockIn) == dayOf(now))
      && (r.clockedIn ==> r.current == Some(FromRow(latest.value)))
  {
  }

  /** Loading the page with a stored employee ends clocked in exactly when
      that employee's latest open entry began today, and that entry is then
      the current one. */
  lemma ReloadResumesToday(ip: string, locationData: Option<LocationData>, store: Store, id: string, name: string,
                           now: int, dayOf: int -> int)
    ensures var r := Reload(Initial(ip, locationData), store, Some((id, name)), now, dayOf);
            var latest := LatestOpen(store.entries, name);
      && (r.clockedIn <==> latest.Some? && dayOf(latest.value.clockIn) == dayOf(now))
      && (r.clockedIn ==> r.current == Some(FromRow(latest.value)))
  {
  }

  /** The page load starts the machine in a valid state that mirrors the
      store, whatever `localStorage` held. */
  lemma ReloadKeepsInvariants(ip: string, locationData: Option<LocationData>, store: Store,
                              stored: Option<(string, string)>, now: int, dayOf: int -> int)
    ensures var r := Reload(Initial(ip, locationData), store, stored, now, dayOf);
      Valid(r) && Consistent(r, store)
  {
    var r := Reload(Initial(ip, locationData), store, stored, now, dayOf);
    if stored.Some? {
      var latest := LatestOpen(store.entries, stored.value.1);
      if latest.Some? && dayOf(latest.value.clockIn) == dayOf(now) {
        var e := latest.value;
        var i :| 0 <= i < |store.entries| && store.entries[i] == e;
        assert Mirrors(store.entries[i], r.current.value);
      }
    }
  }
}
