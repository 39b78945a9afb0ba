/** The employee roster as `components/employee-management.tsx` maintains it:
    the single-employee form (`handleAddEmployee`, lines 40-74) and the bulk
    import (`handleCSVImport`, lines 91-202). The store is the sequence of
    existing employees; each write is given as succeeding or failing. */
module Roster {
  import opened Common
  import opened Text
  import opened Seqs
  import opened Tokenizer
  import opened Records

  /** The `.ilike("name", name).single()` lookup (lines 56 and 161) yields a
      row only when exactly one employee's name equals `name` up to letter
      case. With none or several it yields an error and no row, and the form
      carries on as if the name were free. */
  predicate NameTaken(roster: seq<Employee>, name: string) {
    |Matches(roster, name)| == 1
  }

  /** No two employees share a name up to letter case. */
  predicate UniqueNames(roster: seq<Employee>) {
    forall i, j :: 0 <= i < j < |roster| ==> !EqualsIgnoreCase(roster[i].name, roster[j].name)
  }

  /** On a roster with unique names at most one employee matches. */
  lemma {:induction false} UniqueAtMostOneMatch(roster: seq<Employee>, name: string)
    requires UniqueNames(roster)
    ensures |Matches(roster, name)| <= 1
  {
    if roster != [] {
      var rest := roster[1..];
      assert UniqueNames(rest) by {
        assert forall i :: 0 <= i < |rest| ==> rest[i] == roster[i + 1];
      }
      UniqueAtMostOneMatch(rest, name);
      if EqualsIgnoreCase(roster[0].name, name) {
        forall j | 0 <= j < |rest| ensures !EqualsIgnoreCase(rest[j].name, name) {
          assert rest[j] == roster[j + 1];
        }
        NoMatches(rest, name);
      }
    }
  }

  /** On a roster with unique names the lookup finds `name` exactly when
      some employee bears it up to letter case. */
  lemma NameTakenInUniqueRoster(roster: seq<Employee>, name: string)
    requires UniqueNames(roster)
    ensures NameTaken(roster, name) <==> exists i :: 0 <= i < |roster| && EqualsIgnoreCase(roster[i].name, name)
  {
    UniqueAtMostOneMatch(roster, name);
    MatchesMember(roster, name);
    var ms := Matches(roster, name);
    if ms != [] {
      assert ms[0] in roster;
      var i :| 0 <= i < |roster| && roster[i] == ms[0];
      assert EqualsIgnoreCase(roster[i].name, name);
    }
  }

  // ========================================================= single add

  predicate IsEmailChar(c: char) {
    c != '@' && !IsWhitespace(c)
  }

  predicate AllEmailChars(s: string) {
    forall i :: 0 <= i < |s| ==> IsEmailChar(s[i])
  }

  /** What `/^[^\s@]+@[^\s@]+\.[^\s@]+$/` accepts: a non-empty local part,
      `@`, a non-empty domain part, a dot, a non-empty last part, none of the
      three parts holding `@` or white space. */
  ghost predicate MatchesEmailPattern(e: string) {
    exists at, dot :: 0 < at && at + 1 < dot && dot + 1 < |e| && e[at] == '@' && e[dot] == '.'
      && AllEmailChars(e[..at]) && AllEmailChars(e[at + 1..dot]) && AllEmailChars(e[dot + 1..])
  }

  /** A direct check: no white space, exactly one `@`, something before it,
      and a dot with text on both sides somewhere after it. */
  predicate ValidEmail(e: string) {
    && NoWhitespace(e)
    && '@' in e
    && var at := IndexOf(e, '@');
       && 0 < at && at + 2 < |e|
       && '@' !in e[at + 1..]
       && '.' in e[at + 2..|e| - 1]
  }

  /** A slice of email characters. */
  lemma EmailCharsSlice(e: string, lo: nat, hi: nat)
    requires lo <= hi <= |e|
    requires forall i :: lo <= i < hi ==> IsEmailChar(e[i])
    ensures AllEmailChars(e[lo..hi])
  {
    forall i | 0 <= i < hi - lo ensures IsEmailChar(e[lo..hi][i]) {
      assert e[lo..hi][i] == e[lo + i];
    }
  }

  /** Every character outside the `@` and the dot of a pattern match is an
      email character. */
  lemma PatternChars(e: string, at: nat, dot: nat)
    requires 0 < at && at + 1 < dot && dot + 1 < |e| && e[at] == '@' && e[dot] == '.'
    requires AllEmailChars(e[..at]) && AllEmailChars(e[at + 1..dot]) && AllEmailChars(e[dot + 1..])
    ensures forall i :: 0 <= i < |e| ==> !IsWhitespace(e[i]) && (i != at ==> e[i] != '@')
  {
    forall i | 0 <= i < |e| ensures !IsWhitespace(e[i]) && (i != at ==> e[i] != '@') {
      if i < at {
        assert e[i] == e[..at][i];
      } else if at < i < dot {
        assert e[i] == e[at + 1..dot][i - at - 1];
      } else if dot < i {
        assert e[i] == e[dot + 1..][i - dot - 1];
      }
    }
  }

  lemma ValidEmailHasPattern(e: string)
    requires ValidEmail(e)
    ensures MatchesEmailPattern(e)
  {
    var at := IndexOf(e, '@');
    var tail := e[at + 2..|e| - 1];
    var dot := at + 2 + IndexOf(tail, '.');
    assert e[dot] == tail[dot - at - 2];
    assert forall i :: at + 1 <= i < |e| ==> e[i] == e[at + 1..][i - at - 1];
    EmailCharsSlice(e, 0, at);
    EmailCharsSlice(e, at + 1, dot);
    EmailCharsSlice(e, dot + 1, |e|);
    assert e[dot + 1..] == e[dot + 1..|e|];
  }

  lemma PatternIsValidEmail(e: string)
    requires MatchesEmailPattern(e)
    ensures ValidEmail(e)
  {
    var at, dot :| 0 < at && at + 1 < dot && dot + 1 < |e| && e[at] == '@' && e[dot] == '.'
      && AllEmailChars(e[..at]) && AllEmailChars(e[at + 1..dot]) && AllEmailChars(e[dot + 1..]);
    PatternChars(e, at, dot);
    assert e[at] == '@';
    var first := IndexOf(e, '@');
    assert first == at;
    assert '@' !in e[at + 1..] by {
      var after := e[at + 1..];
      forall i | 0 <= i < |after| ensures after[i] != '@' {
        assert after[i] == e[at + 1 + i];
      }
    }
    assert e[at + 2..|e| - 1][dot - at - 2] == '.';
  }

  /** The direct check accepts exactly what the expression accepts. */
  lemma ValidEmailMatchesPattern(e: string)
    ensures ValidEmail(e) <==> MatchesEmailPattern(e)
  {
    if ValidEmail(e) {
      ValidEmailHasPattern(e);
    }
    if MatchesEmailPattern(e) {
      PatternIsValidEmail(e);
    }
  }

  /** How the single-employee form ends. */
  datatype AddOutcome = InvalidEmail | NameExists | AddFailed | Added(employee: Employee)

  /** `handleAddEmployee`: pattern check on the email, case-insensitive name
      lookup, then one insert whose success is `insertOk`. An empty manager
      is stored as null. */
  function AddEmployee(roster: seq<Employee>, name: string, email: string, manager: string,
                       insertOk: bool): (r: AddOutcome)
    ensures r == InvalidEmail <==> !MatchesEmailPattern(email)
    ensures r == NameExists <==> MatchesEmailPattern(email) && NameTaken(roster, name)
    ensures r.Added? <==> MatchesEmailPattern(email) && !NameTaken(roster, name) && insertOk
    ensures r.Added? ==> r.employee.name == name && r.employee.email == email
    ensures r.Added? ==> (r.employee.manager.None? <==> manager == [])
    ensures r.Added? && manager != [] ==> r.employee.manager == Some(manager)
  {
    ValidEmailMatchesPattern(email);
    if !ValidEmail(email) then InvalidEmail
    else if NameTaken(roster, name) then NameExists
    else if !insertOk then AddFailed
    else Added(Employee(name, email, if manager == "" then None else Some(manager)))
  }

  /** The roster after a single add: one row more exactly when it was added. */
  function AfterAdd(roster: seq<Employee>, r: AddOutcome): seq<Employee>
  {
    if r.Added? then roster + [r.employee] else roster
  }

  /** The single add keeps names unique up to letter case. */
  lemma AddKeepsNamesUnique(roster: seq<Employee>, name: string, email: string, manager: string,
                            insertOk: bool)
    requires UniqueNames(roster)
    ensures UniqueNames(AfterAdd(roster, AddEmployee(roster, name, email, manager, insertOk)))
  {
    var r := AddEmployee(roster, name, email, manager, insertOk);
    if r.Added? {
      NameTakenInUniqueRoster(roster, name);
      var after := roster + [r.employee];
      forall i, j | 0 <= i < j < |after|
        ensures !EqualsIgnoreCase(after[i].name, after[j].name)
      {
        if j == |roster| {
          assert after[i] == roster[i];
        }
      }
    }
  }

  // ========================================================== bulk import

  /** Header aliases of the four column roles (lines 114-117). */
  const TeamAliases: set<string> := {"teams", "team"}
  const NameAliases: set<string> := {"agent name", "agent", "name"}
  const CompanyAliases: set<string> := {"company"}
  const LocationAliases: set<string> := {"location"}

  /** `findIndex`: the first header in `aliases`. */
  function FindIndex(headers: seq<string>, aliases: set<string>): (r: Option<nat>)
    ensures r.Some? ==> r.value < |headers| && headers[r.value] in aliases
    ensures r.Some? ==> forall j :: 0 <= j < r.value ==> headers[j] !in aliases
    ensures r.None? ==> forall j :: 0 <= j < |headers| ==> headers[j] !in aliases
  {
    if headers == [] then None
    else if headers[0] in aliases then Some(0)
    else
      match FindIndex(headers[1..], aliases)
      case None => None
      case Some(i) => Some(i + 1)
  }

  /** The resolved columns. The name column is mandatory. */
  datatype Columns = Columns(team: Option<nat>, name: nat, company: Option<nat>, location: Option<nat>)
  {
    /** `Math.max(teamIndex, agentNameIndex, companyIndex, locationIndex) + 1`,
        absent columns counting as -1: the fewest tokens a row must have. */
    function Width(): (w: nat)
      ensures name < w
      ensures team.Some? ==> team.value < w
      ensures company.Some? ==> company.value < w
      ensures location.Some? ==> location.value < w
      ensures w - 1 == name || (team.Some? && w - 1 == team.value)
              || (company.Some? && w - 1 == company.value) || (location.Some? && w - 1 == location.value)
    {
      var m0 := name;
      var m1 := if team.Some? && team.value > m0 then team.value else m0;
      var m2 := if company.Some? && company.value > m1 then company.value else m1;
      var m3 := if location.Some? && location.value > m2 then location.value else m2;
      m3 + 1
    }
  }

  /** Lines 114-125: resolve the roles; no name column aborts the import. */
  function ResolveColumns(headers: seq<string>): (r: Option<Columns>)
    ensures r.None? <==> forall j :: 0 <= j < |headers| ==> headers[j] !in NameAliases
    ensures r.Some? ==> r.value.name < |headers| && headers[r.value.name] in NameAliases
    ensures r.Some? ==> (&& r.value.team == FindIndex(headers, TeamAliases)
                         && r.value.company == FindIndex(headers, CompanyAliases)
                         && r.value.location == FindIndex(headers, LocationAliases))
  {
    match FindIndex(headers, NameAliases)
    case None => None
    case Some(n) =>
      Some(Columns(FindIndex(headers, TeamAliases), n,
                   FindIndex(headers, CompanyAliases), FindIndex(headers, LocationAliases)))
  }

  /** Why a data line was rejected; `line` is the reported number. */
  datatype RowError =
    | InvalidFormat(line: nat)
    | MissingName(line: nat)
    | DuplicateName(line: nat, name: string)
  {
    /** What a message says after its `Line <n>: ` prefix. */
    function Reason(): string {
      match this
      case InvalidFormat(_) => "Invalid format or missing columns"
      case MissingName(_) => "Missing agent name"
      case DuplicateName(_, n) => "Name \"" + n + "\" already exists"
    }

    /** The text pushed onto `errors` (lines 140, 155 and 164). */
    function Message(): (m: string)
      ensures "Line " + NatToString(line) + ": " <= m
      ensures InvalidFormat? ==> m == "Line " + NatToString(line) + ": " + "Invalid format or missing columns"
      ensures MissingName? ==> m == "Line " + NatToString(line) + ": " + "Missing agent name"
      ensures DuplicateName? ==> m == "Line " + NatToString(line) + ": " + "Name \"" + name + "\" already exists"
    {
      "Line " + NatToString(line) + ": " + Reason()
    }
  }

  /** A run of digits ends at the first colon, so two texts made of
      digits, `: ` and a rest agree only when both parts agree. */
  lemma DigitsColonUnique(d1: string, r1: string, d2: string, r2: string)
    requires AllDigits(d1) && AllDigits(d2)
    requires d1 + ": " + r1 == d2 + ": " + r2
    ensures d1 == d2 && r1 == r2
  {
    var t, u := d1 + ": " + r1, d2 + ": " + r2;
    assert t[|d1|] == ':' && u[|d2|] == ':';
    assert forall k :: 0 <= k < |d2| ==> t[k] == d2[k];
    assert forall k :: 0 <= k < |d1| ==> t[k] == d1[k];
    assert |d1| == |d2|;
    assert d1 == t[..|d1|];
    assert d2 == u[..|d2|];
    assert r1 == t[|d1| + 2..];
    assert r2 == u[|d2| + 2..];
  }

  /** Dropping the five letters of `Line ` leaves the number and the rest. */
  lemma DropLineWord(d: string, r: string)
    ensures ("Line " + d + ": " + r)[5..] == d + ": " + r
  {
    var m := "Line " + d + ": " + r;
    assert |m| == 5 + |d + ": " + r|;
    assert forall k :: 0 <= k < |d + ": " + r| ==> m[5 + k] == (d + ": " + r)[k];
  }

  /** Texts of the form `Line <digits>: <rest>` agree only when the digits
      and the rest agree. */
  lemma LineDigitsUnique(d1: string, r1: string, d2: string, r2: string)
    requires AllDigits(d1) && AllDigits(d2)
    requires "Line " + d1 + ": " + r1 == "Line " + d2 + ": " + r2
    ensures d1 == d2 && r1 == r2
  {
    DropLineWord(d1, r1);
    DropLineWord(d2, r2);
    DigitsColonUnique(d1, r1, d2, r2);
  }

  /** The `Line <n>: ` prefix can be read back: two messages that agree
      name the same line and go on with the same text. */
  lemma LinePrefixUnique(n1: nat, r1: string, n2: nat, r2: string)
    requires "Line " + NatToString(n1) + ": " + r1 == "Line " + NatToString(n2) + ": " + r2
    ensures n1 == n2 && r1 == r2
  {
    LineDigitsUnique(NatToString(n1), r1, NatToString(n2), r2);
    NatToStringValue(n1);
    NatToStringValue(n2);
  }

  /** The reason text tells the kinds apart, and names the duplicate. */
  lemma ReasonDeterminesKind(a: RowError, b: RowError)
    requires a.Reason() == b.Reason()
    ensures a.InvalidFormat? == b.InvalidFormat? && a.MissingName? == b.MissingName?
    ensures a.DuplicateName? && b.DuplicateName? ==> a.name == b.name
  {
    var ra := a.Reason();
    assert ra[0] == b.Reason()[0];
    if a.DuplicateName? && b.DuplicateName? {
      var p, q := "Name \"", "\" already exists";
      assert ra == p + a.name + q && b.Reason() == p + b.name + q;
      assert a.name == ra[|p|..|ra| - |q|];
    }
  }

  /** Different rejections print different messages: the text names the
      line and the reason, and for a duplicate the name. */
  lemma MessageDeterminesError(a: RowError, b: RowError)
    requires a.Message() == b.Message()
    ensures a == b
  {
    LinePrefixUnique(a.line, a.Reason(), b.line, b.Reason());
    ReasonDeterminesKind(a, b);
  }

  /** Lines 149-152: a location that is `wfh` in any letter case becomes
      `Remote`; anything else is kept. */
  function MapWfh(location: Option<string>): (r: Option<string>)
    ensures r == Some("Remote") <==> location == Some("Remote") || (location.Some? && ToLower(location.value) == "wfh")
    ensures r != location ==> location.Some? && ToLower(location.value) == "wfh"
  {
    if location.Some? && location.value != "" && ToLower(location.value) == "wfh" then Some("Remote")
    else location
  }

  /** The verdict on one data line. An accepted row carries the location it
      computed, which is never stored. */
  datatype RowResult =
    | Skipped
    | Rejected(error: RowError)
    | Accepted(employee: Employee, location: Option<string>)

  /** A data line as the scanner leaves it (lines 135-138): nothing for a
      blank line, otherwise the field values of the trimmed line. */
  function ScanLine(line: string): (r: Option<seq<string>>)
    ensures r.None? <==> Trim(line) == []
  {
    var trimmed := Trim(line);
    if trimmed == [] then None else Some(Fields(trimmed))
  }

  /** The checks of lines 140-172 on the field values of a non-blank line
      reported as `lineNo`. */
  function CheckFields(fields: seq<string>, lineNo: nat, cols: Columns, roster: seq<Employee>): (r: RowResult)
    ensures r != Skipped
    ensures r.Rejected? ==> r.error.line == lineNo
    ensures r.Accepted? ==> r.employee.name != [] && !NameTaken(roster, r.employee.name)
    ensures r.Rejected? && r.error.DuplicateName? ==> NameTaken(roster, r.error.name)
    ensures r == Rejected(InvalidFormat(lineNo)) <==> |fields| < cols.Width()
  {
    if |fields| < cols.Width() then Rejected(InvalidFormat(lineNo))
    else
      var name := fields[cols.name];
      var company := if cols.company.Some? then fields[cols.company.value] else "";
      var manager := if cols.team.Some? then Some(fields[cols.team.value]) else None;
      var location := MapWfh(if cols.location.Some? then Some(fields[cols.location.value]) else None);
      if name == [] then Rejected(MissingName(lineNo))
      else if NameTaken(roster, name) then Rejected(DuplicateName(lineNo, name))
      else Accepted(Employee(name, company, manager), location)
  }

  /** The verdict on a scanned line. */
  function CheckScan(scan: Option<seq<string>>, lineNo: nat, cols: Columns, roster: seq<Employee>): RowResult
  {
    match scan
    case None => Skipped
    case Some(fields) => CheckFields(fields, lineNo, cols, roster)
  }

  /** Lines 135-172 for one data line reported as `lineNo`. */
  function ParseRow(line: string, lineNo: nat, cols: Columns, roster: seq<Employee>): (r: RowResult)
    ensures r == Skipped <==> Trim(line) == []
    ensures r.Rejected? ==> r.error.line == lineNo
    ensures r.Accepted? ==> r.employee.name != [] && !NameTaken(roster, r.employee.name)
    ensures r.Rejected? && r.error.DuplicateName? ==> NameTaken(roster, r.error.name)
  {
    CheckScan(ScanLine(line), lineNo, cols, roster)
  }

  /** Which fields of a data line end up where: too few tokens is a format
      error; otherwise the name, company and team fields of the line become
      the employee, and the location field is mapped but not stored. */
  lemma ParseRowFields(line: string, lineNo: nat, cols: Columns, roster: seq<Employee>)
    requires Trim(line) != []
    ensures var r := ParseRow(line, lineNo, cols, roster);
            var fields := Fields(Trim(line));
      && (r == Rejected(InvalidFormat(lineNo)) <==> |fields| < cols.Width())
      && (|fields| >= cols.Width() ==>
            var name := fields[cols.name];
            && (name == [] ==> r == Rejected(MissingName(lineNo)))
            && (name != [] && NameTaken(roster, name) ==> r == Rejected(DuplicateName(lineNo, name)))
            && (name != [] && !NameTaken(roster, name) ==>
                  r == Accepted(
                    Employee(name,
                             if cols.company.Some? then fields[cols.company.value] else "",
                             if cols.team.Some? then Some(fields[cols.team.value]) else None),
                    MapWfh(if cols.location.Some? then Some(fields[cols.location.value]) else None))))
  {
  }

  /** The accepted employees, in input order. */
  function AcceptedOf(rs: seq<RowResult>): (es: seq<Employee>)
    ensures |es| <= |rs|
  {
    if rs == [] then []
    else (if rs[0].Accepted? then [rs[0].employee] else []) + AcceptedOf(rs[1..])
  }

  /** The rejections, in input order. */
  function ErrorsOf(rs: seq<RowResult>): (errs: seq<RowError>)
    ensures |errs| <= |rs|
  {
    if rs == [] then []
    else (if rs[0].Rejected? then [rs[0].error] else []) + ErrorsOf(rs[1..])
  }

  /** Acceptances are collected in order: those of a concatenation are
      those of the first part, then those of the second. */
  lemma {:induction false} AcceptedOfAppend(a: seq<RowResult>, b: seq<RowResult>)
    ensures AcceptedOf(a + b) == AcceptedOf(a) + AcceptedOf(b)
  {
    if a == [] {
      assert a + b == b;
    } else {
      var h := if a[0].Accepted? then [a[0].employee] else [];
      assert (a + b)[0] == a[0];
      assert (a + b)[1..] == a[1..] + b;
      AcceptedOfAppend(a[1..], b);
      assert AcceptedOf(a + b) == h + AcceptedOf(a[1..] + b);
      assert AcceptedOf(a) == h + AcceptedOf(a[1..]);
      assert h + (AcceptedOf(a[1..]) + AcceptedOf(b)) == (h + AcceptedOf(a[1..])) + AcceptedOf(b);
    }
  }


  /** Rejections are collected in order. */
  lemma {:induction false} ErrorsOfAppend(a: seq<RowResult>, b: seq<RowResult>)
    ensures ErrorsOf(a + b) == ErrorsOf(a) + ErrorsOf(b)
  {
    if a == [] {
      assert a + b == b;
    } else {
      var h := if a[0].Rejected? then [a[0].error] else [];
      assert (a + b)[0] == a[0];
      assert (a + b)[1..] == a[1..] + b;
      ErrorsOfAppend(a[1..], b);
      assert ErrorsOf(a + b) == h + ErrorsOf(a[1..] + b);
      assert ErrorsOf(a) == h + ErrorsOf(a[1..]);
      assert h + (ErrorsOf(a[1..]) + ErrorsOf(b)) == (h + ErrorsOf(a[1..])) + ErrorsOf(b);
    }
  }


  /** The lines that are not blank, in order (line 99). */
  function NonBlank(ls: seq<string>): (r: seq<string>)
    ensures |r| <= |ls|
    ensures forall i :: 0 <= i < |r| ==> Trim(r[i]) != []
    ensures r == [] <==> forall i :: 0 <= i < |ls| ==> Trim(ls[i]) == []
  {
    if ls == [] then []
    else
      var rest := NonBlank(ls[1..]);
      assert forall i :: 1 <= i < |ls| ==> ls[i] == ls[1..][i - 1];
      if Trim(ls[0]) == [] then rest else [ls[0]] + rest
  }

  /** A line `line.trim()` keeps: one with something besides white space. */
  predicate HasText(line: string) {
    Trim(line) != []
  }

  /** The blank-line filter is `Array.prototype.filter` with `line.trim()`
      as the test, so it keeps the non-blank lines in their order. */
  lemma {:induction false} NonBlankIsFilter(ls: seq<string>)
    ensures NonBlank(ls) == Filter(ls, HasText)
  {
    if ls != [] {
      NonBlankIsFilter(ls[1..]);
    }
  }

  /** The non-blank lines of a file cut at each `\n`. */
  function NonBlankLines(text: string): (lines: seq<string>)
    ensures forall i :: 0 <= i < |lines| ==> Trim(lines[i]) != [] && '\n' !in lines[i]
    ensures lines == Filter(Split(text, '\n'), HasText)
  {
    NonBlankIsFilter(Split(text, '\n'));
    NonBlank(Split(text, '\n'))
  }

  /** A text without `\n` is one line, kept when it is not blank. */
  lemma OneLine(p: string)
    requires '\n' !in p
    ensures NonBlankLines(p) == if Trim(p) == [] then [] else [p]
  {
    assert Split(p, '\n') == [p];
    assert [p][1..] == [];
  }

  /** The first `\n` of a file ends its first line: that line, if not blank,
      comes first, followed by the lines of the rest in order. */
  lemma FirstLineThenRest(p: string, t: string)
    requires '\n' !in p
    ensures NonBlankLines(p + "\n" + t) == (if Trim(p) == [] then [] else [p]) + NonBlankLines(t)
  {
    SplitSeparated(p, '\n', t);
    var parts := Split(p + "\n" + t, '\n');
    assert parts == [p] + Split(t, '\n');
    assert parts[1..] == Split(t, '\n');
  }

  /** A verdict is sound when an accepted name is non-empty and new to the
      roster, and a rejection names the line it was reported for. */
  predicate SoundRow(r: RowResult, lineNo: nat, roster: seq<Employee>) {
    && (r.Accepted? ==> r.employee.name != [] && !NameTaken(roster, r.employee.name))
    && (r.Rejected? ==> r.error.line == lineNo)
  }

  /** The scans of a run of lines. */
  function ScanLines(lines: seq<string>): (scans: seq<Option<seq<string>>>)
    ensures |scans| == |lines|
    ensures forall i :: 0 <= i < |lines| ==> scans[i] == ScanLine(lines[i])
    ensures forall i :: 0 <= i < |lines| ==> (scans[i].None? <==> Trim(lines[i]) == [])
  {
    if lines == [] then []
    else
      var scans := [ScanLine(lines[0])] + ScanLines(lines[1..]);
      assert forall i :: 1 <= i < |lines| ==> lines[i] == lines[1..][i - 1];
      scans
  }

  /** The verdicts on scanned data lines, the first reported as `lineNo`. */
  function RowsFrom(scans: seq<Option<seq<string>>>, lineNo: nat, cols: Columns, roster: seq<Employee>): (rs: seq<RowResult>)
    ensures |rs| == |scans|
    ensures forall i :: 0 <= i < |rs| ==> SoundRow(rs[i], lineNo + i, roster)
    ensures forall i :: 0 <= i < |rs| ==> (rs[i] == Skipped <==> scans[i].None?)
    ensures forall i :: 0 <= i < |rs| ==> rs[i] == CheckScan(scans[i], lineNo + i, cols, roster)
  {
    if scans == [] then []
    else
      var r := CheckScan(scans[0], lineNo, cols, roster);
      var rest := RowsFrom(scans[1..], lineNo + 1, cols, roster);
      var rs := [r] + rest;
      assert forall i :: 1 <= i < |rs| ==> rs[i] == rest[i - 1] && scans[i] == scans[1..][i - 1];
      rs
  }

  /** Every non-skipped verdict is either an acceptance or a rejection. */
  lemma {:induction false} RowsPartition(rs: seq<RowResult>)
    requires forall i :: 0 <= i < |rs| ==> rs[i] != Skipped
    ensures |AcceptedOf(rs)| + |ErrorsOf(rs)| == |rs|
  {
    if rs != [] {
      RowsPartition(rs[1..]);
    }
  }

  /** The accepted employees of sound verdicts have non-empty new names. */
  lemma {:induction false} AcceptedNamesNew(rs: seq<RowResult>, lineNo: nat, roster: seq<Employee>)
    requires forall i :: 0 <= i < |rs| ==> SoundRow(rs[i], lineNo + i, roster)
    ensures var es := AcceptedOf(rs);
      forall k :: 0 <= k < |es| ==> es[k].name != [] && !NameTaken(roster, es[k].name)
  {
    if rs != [] {
      assert SoundRow(rs[0], lineNo + 0, roster);
      AcceptedNamesNew(rs[1..], lineNo + 1, roster);
      var head := if rs[0].Accepted? then [rs[0].employee] else [];
      var es, tail := AcceptedOf(rs), AcceptedOf(rs[1..]);
      assert es == head + tail;
      assert var e2 := AcceptedOf(rs[1..]); forall j :: 0 <= j < |e2| ==> e2[j].name != [] && !NameTaken(roster, e2[j].name);
      forall k | 0 <= k < |es| ensures es[k].name != [] && !NameTaken(roster, es[k].name) {
        if k >= |head| {
          assert es[k] == tail[k - |head|];
        }
      }
    }
  }

  /** The errors of sound verdicts report lines in `[lineNo, lineNo + |rs|)`. */
  lemma {:induction false} ErrorLinesInRange(rs: seq<RowResult>, lineNo: nat, roster: seq<Employee>)
    requires forall i :: 0 <= i < |rs| ==> SoundRow(rs[i], lineNo + i, roster)
    ensures var errs := ErrorsOf(rs);
      forall k :: 0 <= k < |errs| ==> lineNo <= errs[k].line < lineNo + |rs|
  {
    if rs != [] {
      assert SoundRow(rs[0], lineNo + 0, roster);
      ErrorLinesInRange(rs[1..], lineNo + 1, roster);
      var head := if rs[0].Rejected? then [rs[0].error] else [];
      var errs, tail := ErrorsOf(rs), ErrorsOf(rs[1..]);
      assert errs == head + tail;
      assert var e2 := ErrorsOf(rs[1..]); forall j :: 0 <= j < |e2| ==> lineNo + 1 <= e2[j].line < lineNo + 1 + |rs[1..]|;
      forall k | 0 <= k < |errs| ensures lineNo <= errs[k].line < lineNo + |rs| {
        if k >= |head| {
          assert errs[k] == tail[k - |head|];
        }
      }
    }
  }

  /** The verdict on each data line, the first reported as line 2. */
  function LineVerdicts(cols: Columns, data: seq<string>, roster: seq<Employee>): (vs: seq<RowResult>)
    ensures |vs| == |data|
    ensures forall i :: 0 <= i < |data| ==> vs[i] == ParseRow(data[i], i + 2, cols, roster)
  {
    seq(|data|, i requires 0 <= i < |data| => ParseRow(data[i], i + 2, cols, roster))
  }

  /** The check of a line's scan is that line's verdict. */
  lemma VerdictAt(cols: Columns, data: seq<string>, roster: seq<Employee>, i: nat)
    requires i < |data|
    ensures |ScanLines(data)| == |data|
    ensures RowsFrom(ScanLines(data), 2, cols, roster)[i] == LineVerdicts(cols, data, roster)[i]
  {
    var scans := ScanLines(data);
    assert scans[i] == ScanLine(data[i]);
  }

  /** Scanning the lines and checking the scans gives each line's verdict. */
  lemma VerdictsOfLines(cols: Columns, data: seq<string>, roster: seq<Employee>)
    ensures RowsFrom(ScanLines(data), 2, cols, roster) == LineVerdicts(cols, data, roster)
  {
    var rows := RowsFrom(ScanLines(data), 2, cols, roster);
    var vs := LineVerdicts(cols, data, roster);
    forall i | 0 <= i < |data| ensures rows[i] == vs[i] {
      VerdictAt(cols, data, roster, i);
    }
  }

  /** How a bulk import ends. */
  datatype ImportOutcome =
    | EmptyFile
    | MissingNameColumn
    | NothingImported(errors: seq<RowError>)
    | InsertFailed(attempted: seq<Employee>, errors: seq<RowError>)
    | Imported(added: seq<Employee>, errors: seq<RowError>)

  /** The column roles of a header line: lower-cased, scanned, resolved
      (lines 109-125). */
  function HeaderColumns(line: string): Option<Columns>
  {
    ResolveColumns(Fields(ToLower(line)))
  }

  /** Lines 127-201 once the header has resolved to `cols`: every data
      line is checked against the roster, and the accepted rows go in as one
      batch whose success is `insertOk`. Rows whose names clash only with
      each other all go in. */
  function ImportRows(cols: Columns, data: seq<string>, roster: seq<Employee>, insertOk: bool): (r: ImportOutcome)
    ensures r.NothingImported? || r.Imported? || r.InsertFailed?
    ensures r.Imported? ==> insertOk && r.added != []
    ensures r.InsertFailed? ==> !insertOk && r.attempted != []
    ensures Batch(r) == AcceptedOf(LineVerdicts(cols, data, roster))
    ensures r.errors == ErrorsOf(LineVerdicts(cols, data, roster))
  {
    var rows := RowsFrom(ScanLines(data), 2, cols, roster);
    VerdictsOfLines(cols, data, roster);
    var accepted := AcceptedOf(rows);
    var errors := ErrorsOf(rows);
    if accepted == [] then NothingImported(errors)
    else if insertOk then Imported(accepted, errors)
    else InsertFailed(accepted, errors)
  }

  /** `handleCSVImport` once the file has been cut into its non-blank lines
      (line 99): an empty file and a header without a name column stop it
      early. */
  function ImportLines(lines: seq<string>, roster: seq<Employee>, insertOk: bool): (r: ImportOutcome)
    ensures r == EmptyFile <==> lines == []
    ensures r == MissingNameColumn <==> lines != [] && HeaderColumns(lines[0]).None?
    ensures r.Imported? ==> insertOk && r.added != []
    ensures r.InsertFailed? ==> !insertOk && r.attempted != []
  {
    if lines == [] then EmptyFile
    else
      match HeaderColumns(lines[0])
      case None => MissingNameColumn
      case Some(cols) => ImportRows(cols, lines[1..], roster, insertOk)
  }

  /** The rows an import tried to insert. */
  function Batch(r: ImportOutcome): seq<Employee>
  {
    if r.Imported? then r.added else if r.InsertFailed? then r.attempted else []
  }

  /** Every non-blank data line is either in the batch or reported, every
      batch name is non-empty and new to the roster, and every error names
      a line between 2 and the number of the last data line. */
  lemma ImportAccountsForEveryLine(cols: Columns, data: seq<string>, roster: seq<Employee>, insertOk: bool)
    requires forall i :: 0 <= i < |data| ==> Trim(data[i]) != []
    ensures var r := ImportRows(cols, data, roster, insertOk);
      && |Batch(r)| + |r.errors| == |data|
      && (forall k :: 0 <= k < |Batch(r)| ==> Batch(r)[k].name != [] && !NameTaken(roster, Batch(r)[k].name))
      && (forall k :: 0 <= k < |r.errors| ==> 2 <= r.errors[k].line <= |data| + 1)
  {
    var rows := RowsFrom(ScanLines(data), 2, cols, roster);
    RowsPartition(rows);
    AcceptedNamesNew(rows, 2, roster);
    ErrorLinesInRange(rows, 2, roster);
    var r := ImportRows(cols, data, roster, insertOk);
    assert Batch(r) == AcceptedOf(rows) && r.errors == ErrorsOf(rows);
  }

  /** `handleCSVImport` on the whole file text. */
  function Import(text: string, roster: seq<Employee>, insertOk: bool): (r: ImportOutcome)
  {
    ImportLines(NonBlankLines(text), roster, insertOk)
  }

  /** Once the header resolves, the lines after it are imported with its
      column roles, numbered from 2. */
  lemma ImportLinesRows(lines: seq<string>, roster: seq<Employee>, insertOk: bool)
    requires lines != [] && HeaderColumns(lines[0]).Some?
    ensures ImportLines(lines, roster, insertOk) == ImportRows(HeaderColumns(lines[0]).value, lines[1..], roster, insertOk)
  {
  }

  /** The roster after an import: the batch is added whole or not at all. */
  function AfterImport(roster: seq<Employee>, r: ImportOutcome): seq<Employee>
  {
    if r.Imported? then roster + r.added else roster
  }

  /** A failed batch insert adds nobody, whatever the rows were. */
  lemma FailedInsertAddsNobody(text: string, roster: seq<Employee>)
    ensures AfterImport(roster, Import(text, roster, false)) == roster
    ensures !Import(text, roster, false).Imported?
  {
  }

  // ------------------------------------------------- what the import does

  /** Blank lines in front of the header do not count: the header is the
      first non-blank line, and line numbers count non-blank lines only. */
  lemma BlankLineIgnored(blank: string, text: string)
    requires '\n' !in blank && Trim(blank) == []
    ensures NonBlankLines(blank + "\n" + text) == NonBlankLines(text)
  {
    SplitSeparated(blank, '\n', text);
    var parts := Split(blank + "\n" + text, '\n');
    assert parts == [blank] + Split(text, '\n');
    assert parts[1..] == Split(text, '\n');
  }

  /** Tokens made of bare characters are their own field values. */
  lemma BareTokensAreFields(line: string)
    requires forall i :: 0 <= i < |Tokens(line)| ==> Tokens(line)[i] != [] && AllBare(Tokens(line)[i])
    ensures Fields(line) == Tokens(line)
  {
    var ts := Tokens(line);
    forall i | 0 <= i < |ts| ensures Fields(line)[i] == ts[i] {
      BareFieldValue(ts[i]);
    }
  }

  /** The template's header (line 206), as the import lower-cases it. */
  const TemplateHeader: string := "agent name,company,teams,location"

  /** The words of each column of the template's header. */
  const TemplateWords: seq<seq<string>> := [["agent", "name"], ["company"], ["teams"], ["location"]]

  lemma TemplateLowered()
    ensures ToLower("Agent Name,Company,Teams,Location") == TemplateHeader
  {
    var raw := "Agent Name,Company,Teams,Location";
    assert forall i :: 0 <= i < |raw| ==> ToLower(raw)[i] == TemplateHeader[i];
  }

  /** The template's columns, each as one phrase. */
  const TemplatePhrases: seq<string> := ["agent name", "company", "teams", "location"]

  /** The scanned names of the template's columns. */
  const TemplateFields: seq<string> := ["name", "company", "teams", "location"]

  lemma TemplatePhrased()
    ensures Phrases(TemplateWords) == TemplatePhrases
  {
    assert JoinWith(["agent", "name"], ' ') == "agent name" by {
      JoinCons("agent", ["name"], ' ');
      assert ["agent", "name"] == ["agent"] + ["name"];
    }
  }

  lemma TemplateJoined()
    ensures JoinWith(TemplatePhrases, ',') == TemplateHeader
  {
    JoinCons("teams", ["location"], ',');
    assert ["teams", "location"] == ["teams"] + ["location"];
    JoinCons("company", ["teams", "location"], ',');
    assert ["company", "teams", "location"] == ["company"] + ["teams", "location"];
    JoinCons("agent name", ["company", "teams", "location"], ',');
    assert TemplatePhrases == ["agent name"] + ["company", "teams", "location"];
  }

  lemma TemplateWordsGood()
    ensures forall i :: 0 <= i < |TemplateWords| ==> TemplateWords[i] != [] && GoodWords(TemplateWords[i])
  {
    assert AllBare("agent") && AllBare("name") && AllBare("company") && AllBare("teams") && AllBare("location");
  }

  /** A line of unquoted multi-word fields has the last word of each as
      its field values. */
  lemma PhrasesFields(fields: seq<seq<string>>)
    requires |fields| >= 1
    requires forall i :: 0 <= i < |fields| ==> fields[i] != [] && GoodWords(fields[i])
    ensures Fields(JoinWith(Phrases(fields), ',')) == LastWords(fields)
  {
    var line := JoinWith(Phrases(fields), ',');
    var lasts := LastWords(fields);
    PhrasesKeepLastWords(fields);
    assert Tokens(line) == lasts;
    forall i | 0 <= i < |lasts| ensures lasts[i] != [] && AllBare(lasts[i]) {
      assert GoodWords(fields[i]);
      assert lasts[i] == fields[i][|fields[i]| - 1];
    }
    BareTokensAreFields(line);
  }

  /** The template's header scans to the last word of each column, since
      the scanner drops the `agent` of `agent name`
      (`Tokenizer.PhrasesKeepLastWords`). */
  lemma TemplateHeaderFields()
    ensures Fields(TemplateHeader) == TemplateFields
  {
    TemplatePhrased();
    TemplateJoined();
    TemplateWordsGood();
    PhrasesFields(TemplateWords);
    TemplateLastWords();
  }

  lemma TemplateLastWords()
    ensures LastWords(TemplateWords) == TemplateFields
  {
    var r := LastWords(TemplateWords);
    assert r[0] == "name" && r[1] == "company" && r[2] == "teams" && r[3] == "location";
  }

  /** The roles the template's scanned header resolves to. */
  lemma TemplateColumns()
    ensures ResolveColumns(TemplateFields) == Some(Columns(Some(2), 0, Some(1), Some(3)))
  {
    var hs := TemplateFields;
    assert FindIndex(hs, NameAliases) == Some(0);
    assert FindIndex(hs[1..], CompanyAliases) == Some(0);
    assert FindIndex(hs[1..][1..], TeamAliases) == Some(0);
    assert FindIndex(hs[1..][1..][1..], LocationAliases) == Some(0);
  }

  /** What the template's header `Agent Name,Company,Teams,Location`
      (line 206) resolves to: the bare alias `name` marks column 0, company
      is 1, team 2 and location 3. */
  lemma TemplateHeaderRoles()
    ensures HeaderColumns("Agent Name,Company,Teams,Location") == Some(Columns(Some(2), 0, Some(1), Some(3)))
  {
    TemplateLowered();
    TemplateHeaderFields();
    TemplateColumns();
  }

  /** A line holding one bare word has that word as its only field. */
  lemma BareLineFields(w: string)
    requires w != [] && AllBare(w)
    ensures Trim(w) == w && Fields(w) == [w]
  {
    assert JoinWith([w], ',') == w;
    TokensOfBareFields([w]);
    assert NonEmpty([w]) == [w];
    BareFieldValue(w);
    TrimNoOuterWhitespace(w);
  }

  /** A header of just `name` has the name in column 0 and no other role. */
  lemma NameOnlyHeader()
    ensures ResolveColumns(["name"]) == Some(NameOnly)
  {
    var hs := ["name"];
    assert hs[1..] == [];
    assert FindIndex(hs, NameAliases) == Some(0);
    assert FindIndex(hs, TeamAliases) == None;
    assert FindIndex(hs, CompanyAliases) == None;
    assert FindIndex(hs, LocationAliases) == None;
  }

  /** The roles of a file whose header is just a name column. */
  const NameOnly: Columns := Columns(None, 0, None, None)

  /** The header line `name` resolves to a lone name column. */
  lemma NameHeaderResolves()
    ensures HeaderColumns("name") == Some(NameOnly)
  {
    assert ToLower("name") == "name";
    BareLineFields("name");
    NameOnlyHeader();
  }

  /** Two rows naming the same new person are both accepted. */
  lemma SameNameTwice(w: string, roster: seq<Employee>)
    requires w != [] && !NameTaken(roster, w)
    ensures var row := Accepted(Employee(w, "", None), None);
      RowsFrom([Some([w]), Some([w])], 2, NameOnly, roster) == [row, row]
  {
    var scans := [Some([w]), Some([w])];
    assert scans[1..] == [Some([w])];
    assert scans[1..][1..] == [];
  }

  /** A bare new name on its own line is accepted under a name-only header. */
  lemma BareNameAccepted(w: string, line: nat, roster: seq<Employee>)
    requires w != [] && AllBare(w) && !NameTaken(roster, w)
    ensures ParseRow(w, line, NameOnly, roster) == Accepted(Employee(w, "", None), None)
  {
    BareLineFields(w);
  }

  /** Two data lines naming the same new person get the same verdict. */
  lemma TwinVerdicts(w: string, roster: seq<Employee>)
    requires w != [] && AllBare(w) && !NameTaken(roster, w)
    ensures LineVerdicts(NameOnly, [w, w], roster) == [Accepted(Employee(w, "", None), None), Accepted(Employee(w, "", None), None)]
  {
    var vs := LineVerdicts(NameOnly, [w, w], roster);
    BareNameAccepted(w, 2, roster);
    BareNameAccepted(w, 3, roster);
    assert vs[0] == ParseRow(w, 2, NameOnly, roster);
    assert vs[1] == ParseRow(w, 3, NameOnly, roster);
  }

  /** Two accepted verdicts give a batch of two and no errors. */
  lemma TwoAccepted(row: RowResult)
    requires row.Accepted?
    ensures AcceptedOf([row, row]) == [row.employee, row.employee]
    ensures ErrorsOf([row, row]) == []
  {
    assert [row, row][1..] == [row] && [row, row][1..][1..] == [];
  }

  /** Under a name-only header, two data lines naming the same new person
      both go into the batch. */
  lemma DuplicateRowsImported(w: string, roster: seq<Employee>)
    requires w != [] && AllBare(w) && !NameTaken(roster, w)
    ensures ImportRows(NameOnly, [w, w], roster, true) == Imported([Employee(w, "", None), Employee(w, "", None)], [])
  {
    TwinVerdicts(w, roster);
    TwoAccepted(Accepted(Employee(w, "", None), None));
  }

  /** Rows are checked against the roster only: a file whose header names
      just the name column (as `name` does, `NameHeaderResolves`) and that
      names the same new person twice imports both rows. */
  lemma DuplicatesWithinFileAccepted(header: string, w: string, roster: seq<Employee>)
    requires HeaderColumns(header) == Some(NameOnly)
    requires w != [] && AllBare(w) && !NameTaken(roster, w)
    ensures ImportLines([header, w, w], roster, true) == Imported([Employee(w, "", None), Employee(w, "", None)], [])
  {
    assert [header, w, w][1..] == [w, w];
    DuplicateRowsImported(w, roster);
  }

  /** So unlike the single add, the import can break name uniqueness. */
  lemma ImportMayDuplicateNames(header: string, w: string, roster: seq<Employee>)
    requires HeaderColumns(header) == Some(NameOnly)
    requires w != [] && AllBare(w) && !NameTaken(roster, w)
    ensures !UniqueNames(AfterImport(roster, ImportLines([header, w, w], roster, true)))
  {
    var e := Employee(w, "", None);
    DuplicatesWithinFileAccepted(header, w, roster);
    var after := roster + [e, e];
    assert after[|roster|] == e && after[|roster| + 1] == e;
    assert EqualsIgnoreCase(after[|roster|].name, after[|roster| + 1].name);
  }

  /** The lookup finds nothing when several employees match, so once an
      import has stored a name twice the single add accepts it a third
      time. */
  lemma ThirdCopyAdded(header: string, w: string, roster: seq<Employee>, email: string, manager: string)
    requires HeaderColumns(header) == Some(NameOnly)
    requires w != [] && AllBare(w) && !NameTaken(roster, w)
    requires MatchesEmailPattern(email)
    ensures AddEmployee(AfterImport(roster, ImportLines([header, w, w], roster, true)), w, email, manager, true).Added?
  {
    DuplicatesWithinFileAccepted(header, w, roster);
    StoredTwiceNotFound(roster, Employee(w, "", None));
  }

  /** A name stored twice more matches at least twice, so the lookup no
      longer finds it. */
  lemma StoredTwiceNotFound(roster: seq<Employee>, e: Employee)
    ensures !NameTaken(roster + [e, e], e.name)
  {
    MatchesAppend(roster, [e, e], e.name);
    assert [e, e][1..] == [e] && [e][1..] == [];
    assert Matches([e, e], e.name) == [e, e];
  }
}
