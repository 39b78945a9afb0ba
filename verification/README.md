# Attendance portal core in Dafny

A model of the attendance app's four client components. Each one talks to a hosted
store with three tables: `employees`, `time_entries` and `audit_logs`.

- **Employee roster** (`components/employee-management.tsx`):
  - the single-employee form: an email pattern check, a case-insensitive
    name lookup, then one insert;
  - the bulk CSV import: blank-line filtering, a header scanned by a
    regular expression, column roles resolved from aliases, per-line checks
    against the roster with numbered error messages, one batch insert.
- **Clock portal** (`components/clock-portal.tsx`), a state machine over the
  page state and the store:
  - login by name;
  - the resumption of an open entry from the same local day;
  - clock-in and clock-out;
  - sign-out;
  - the actions the page offers in each state;
  - the audit rows each step writes.
- **Admin dashboard** (`components/admin-dashboard.tsx`):
  - the day's entries, newest first, with their managers;
  - the location filter;
  - the summary counts;
  - the elapsed-time texts and the total time;
  - the CSV export.
- **Audit-log viewer** (`components/audit-logs.tsx`):
  - the day's log rows, newest first;
  - the action filter and its choices;
  - the action badges;
  - the CSV export.

The modules follow the program:

- `Records`: the table rows.
- `Text`: JavaScript string behaviour, namely `\s`, `trim`, `split`, `join`,
  `toLowerCase`, `toString` and `padStart`. `toLowerCase` changes only the
  ASCII letters `A`-`Z`; every other character is kept as it is.
- `Seqs`: filtering, and the newest-first ordering of a select.
- `Tokenizer`: the import's regular expression as a scanner.
- `Roster`: the single add and the bulk import.
- `Elapsed`: the arithmetic and text of elapsed time.
- `Portal`: the clock portal.
- `Csv`: the plain comma/newline rendering both exports use.
- `Dashboard` and `AuditView`: the two admin views.

Times are integers: milliseconds since the epoch. Everything the components
obtain from outside is a parameter:

- the current time;
- the day window of a date picker;
- the local-time renderings;
- the `JSON.stringify` of a details payload;
- whether each store write succeeds;
- what a select returned.

Behaviours a reader might expect that the code does not have:

- The import does not reject a name that repeats within the same file. Only
  names already in the roster are rejected.
- The name lookup of the single add and of the import is `.single()`, which
  yields a row only when exactly one stored name matches up to case. A name
  stored twice (as an import can leave it) is therefore not found, and the
  single add accepts a third copy.
- The single add writes no `employee_added` audit row.
- The single add always requires a well-formed email.
- Clock-out has no already-closed guard. The update closes every row with the
  id, whatever its state.
- Elapsed times are not clamped at zero.
- Nothing prevents a second open entry for the same employee.
- The CSV exports do not quote or escape any cell.
- The header scanner does not split on commas. It is a global match of
  `/(".*?"|[^",\s]+)(?=\s*,|\s*$)/g`. An unquoted multi-word field yields only
  its last word, so `Agent Name` is seen as `name`.

Other behaviours the lemmas pin down:

- Import error lines are numbered among the non-blank lines, not the physical
  lines of the file.
- A clock-in one minute in the future reads `-1:-1` hours and minutes.
- A captured location adds a comma inside the audit export's Location cell,
  so that row has more fields than its header.

## Model

| member | source | states |
|---|---|---|
| Records.OrDash | components/admin-dashboard.tsx:182 | A `x \|\| "-"` cell is never empty. It is the column's text when that is non-empty; null and the empty string both become `-`. |
| Records.Matches | components/clock-portal.tsx:131-135 | The `ilike` candidates are employees whose name equals the typed one up to case, and every such employee is a candidate. |
| Records.MatchesMember | components/clock-portal.tsx:131-135 | Every candidate is a stored employee. |
| Records.NoMatches | components/employee-management.tsx:56 | When no stored name equals the typed one up to case, there are no candidates. |
| Records.MatchesAppend | components/employee-management.tsx:56 | The candidates of a table made of two parts are those of each part, in table order. |
| Text.Trim | components/employee-management.tsx:99 | A trimmed text is no longer than the original and starts and ends with a non-white-space character, unless it is empty. |
| Text.TrimIsSlice | components/employee-management.tsx:99 | `trim()` returns a contiguous piece of the line; everything cut from either end is white space. |
| Text.TrimEmptyIff | components/employee-management.tsx:99 | `line.trim()` is falsy exactly when the line is all white space, so the filter drops exactly those lines. |
| Text.Split | components/employee-management.tsx:99 | `split` on one character yields at least one piece, and no piece contains the separator. |
| Text.JoinSplit | components/employee-management.tsx:99 | Joining the pieces of a split with the same separator restores the text. |
| Text.SplitJoin | components/admin-dashboard.tsx:193-194 | Splitting joined pieces recovers them, provided no piece contains the separator. |
| Text.SplitCount | components/audit-logs.tsx:96 | A split yields one more piece than the text has separators. |
| Text.JoinOccurrences | components/audit-logs.tsx:96 | `join(",")` adds one separator between each pair of cells, on top of those inside the cells. |
| Text.NatToStringValue | components/clock-portal.tsx:258 | The decimal text of a natural number reads back as that number. |
| Text.IntToStringRoundTrip | components/clock-portal.tsx:258 | The `toString` of any integer, negative ones included, parses back to the integer. |
| Text.PadStart2 | components/clock-portal.tsx:258 | `padStart(2, "0")` leaves a text of two or more characters alone. A shorter one gains leading zeros up to length 2 and ends with the original. |
| Text.PadStart2RoundTrip | components/clock-portal.tsx:258 | Zero-padding a number's text does not change the number read back. |
| Seqs.Filter | components/admin-dashboard.tsx:91 | `filter` keeps exactly the elements that satisfy the predicate, as a sub-multiset of the input. |
| Seqs.FilterAppend | components/admin-dashboard.tsx:91 | Filtering a concatenation filters each part, so the relative order is kept. |
| Seqs.Insert | components/admin-dashboard.tsx:72 | Inserting adds exactly the one element. |
| Seqs.InsertSorted | components/admin-dashboard.tsx:72 | Inserting into a newest-first sequence keeps it newest first. |
| Seqs.SortDesc | components/admin-dashboard.tsx:72 | The `order(..., {ascending: false})` result is non-increasing in the key and is a permutation of its input. |
| Tokenizer.LookaheadMeaning | components/employee-management.tsx:138 | The look-ahead `(?=\s*,\|\s*$)` holds exactly when a run of white space is followed by a comma or by the end. |
| Tokenizer.CloseQuote | components/employee-management.tsx:138 | The lazy `".*?"` ends at the first quote whose look-ahead holds. No line terminator comes before it. |
| Tokenizer.BareRunEnd | components/employee-management.tsx:138 | The greedy `[^",\s]+` run covers bare characters only and stops at the first other character or at the end. |
| Tokenizer.BareBacktrack | components/employee-management.tsx:138 | Backtracking returns a non-empty length whose look-ahead holds. |
| Tokenizer.MatchAt | components/employee-management.tsx:138 | A match attempt succeeds only with a quoted token or a bare token, followed by text that passes the look-ahead. |
| Tokenizer.Tokens | components/employee-management.tsx:138 | Every match of the global expression is a quoted or a bare token. |
| Tokenizer.ShorterRunFails | components/employee-management.tsx:138 | A bare run shortened by backtracking is followed by a bare character, so it fails the look-ahead. |
| Tokenizer.BacktrackBelowRunFails | components/employee-management.tsx:138 | No shortened bare run can match. |
| Tokenizer.BareMatchIsMaximal | components/employee-management.tsx:138 | The bare alternative matches the whole run or nothing. |
| Tokenizer.SeparatorStartsNoMatch | components/employee-management.tsx:138 | A comma or a white-space character never starts a match, so the scan moves past it. |
| Tokenizer.BareWordToken | components/employee-management.tsx:138 | A bare word followed by a comma or by the end is one token. |
| Tokenizer.TokensOfBareFields | components/employee-management.tsx:138 | For comma-separated bare fields, the scanner returns exactly the non-empty fields, in order. Empty fields vanish. |
| Tokenizer.BareFieldThenComma | components/employee-management.tsx:138 | A bare field followed by a comma contributes itself if non-empty, then the scan continues after the comma. |
| Tokenizer.EarlierWordSkipped | components/employee-management.tsx:138 | A word followed by white space and a further word yields no token. |
| Tokenizer.PhraseKeepsLastWord | components/employee-management.tsx:138 | An unquoted field of several words contributes only its last word. |
| Tokenizer.PhraseThenComma | components/employee-management.tsx:138 | A multi-word field followed by a comma contributes its last word, then the scan continues after the comma. |
| Tokenizer.PhrasesKeepLastWords | components/employee-management.tsx:109 | A line of unquoted multi-word fields scans to the last word of each field. |
| Tokenizer.QuotedToken | components/employee-management.tsx:138 | A quoted field whose content has no quote and no line break is one token, commas included. |
| Tokenizer.CloseQuoteSkipsContent | components/employee-management.tsx:138 | Inside such a field the lazy quote closes only at the field's closing quote. |
| Tokenizer.StripQuotes | components/employee-management.tsx:144 | `.replace(/^"\|"$/g, "")` removes at most one character from each end, and leaves a text without outer quotes alone. |
| Tokenizer.QuotedFieldValue | components/employee-management.tsx:144 | A quoted token's value is its trimmed content. |
| Tokenizer.BareFieldValue | components/employee-management.tsx:144-147 | A bare token is its own value. |
| Tokenizer.Fields | components/employee-management.tsx:109 | A line has one field value per token. |
| Roster.ValidEmailHasPattern | components/employee-management.tsx:47 | An address the direct check accepts matches `/^[^\s@]+@[^\s@]+\.[^\s@]+$/`. |
| Roster.PatternIsValidEmail | components/employee-management.tsx:47 | An address the expression matches passes the direct check. |
| Roster.ValidEmailMatchesPattern | components/employee-management.tsx:47-51 | The direct check and the expression accept the same addresses. |
| Roster.AddEmployee | components/employee-management.tsx:40-74 | A non-matching email is refused. Otherwise a name that the `.single()` lookup finds (exactly one stored name equal up to case) is refused. Otherwise a failed insert adds no one. Otherwise the employee is added with the given name and email, and the manager is null exactly when none was given. |
| Roster.AddKeepsNamesUnique | components/employee-management.tsx:55-63 | The single add keeps employee names unique up to letter case. |
| Roster.UniqueAtMostOneMatch | components/employee-management.tsx:56 | On a roster whose names are unique up to case, at most one employee matches a name. |
| Roster.NameTakenInUniqueRoster | components/employee-management.tsx:56-61 | On such a roster the lookup finds a name exactly when some employee bears it up to case. |
| Roster.FindIndex | components/employee-management.tsx:114-117 | `findIndex` returns the first header among the aliases, or nothing when no header is one. |
| Roster.ResolveColumns | components/employee-management.tsx:114-125 | The import stops exactly when no header is a name alias. Otherwise the name column holds a name alias and the other roles are their first alias positions. |
| Roster.Columns.Width | components/employee-management.tsx:139 | The minimum token count exceeds every resolved column index and is one more than the largest. |
| Roster.RowError.Message | components/employee-management.tsx:140-164 | Each message is `Line <n>: ` followed by the kind's text: `Invalid format or missing columns`, `Missing agent name`, or `Name "<name>" already exists`. |
| Roster.LinePrefixUnique | components/employee-management.tsx:140 | The `Line <n>: ` prefix reads back: two texts that agree name the same line and go on with the same text. |
| Roster.ReasonDeterminesKind | components/employee-management.tsx:140-164 | The text after the prefix tells the three kinds apart, and for a duplicate it names the name. |
| Roster.MessageDeterminesError | components/employee-management.tsx:140-164 | Different rejections give different messages, so each message identifies its line, its kind and its name. |
| Roster.MapWfh | components/employee-management.tsx:149-152 | A location that lower-cases to `wfh` becomes `Remote`; any other value is kept. |
| Roster.ScanLine | components/employee-management.tsx:135-138 | A data line is skipped exactly when it trims to nothing. |
| Roster.CheckFields | components/employee-management.tsx:139-172 | A line with fewer tokens than the widest column is a format error. Every rejection carries the line number. An accepted name is non-empty and new to the roster. A duplicate error names a stored name. |
| Roster.ParseRow | components/employee-management.tsx:134-172 | A data line is skipped exactly when blank. Any rejection carries its number, and an accepted name is non-empty and not in the roster. |
| Roster.ParseRowFields | components/employee-management.tsx:139-172 | Which fields become what: too few tokens is a format error, an empty name is a missing-name error, and a stored name is a duplicate. Otherwise the employee is (name, company as email, team as manager), and the mapped location is not stored. |
| Roster.NonBlank | components/employee-management.tsx:99 | The filter keeps only lines that are not blank, and is empty exactly when every line is blank. |
| Roster.NonBlankIsFilter | components/employee-management.tsx:99 | The blank-line filter is `filter` with `trim()` as the test: it keeps exactly the non-blank lines, in order. |
| Roster.NonBlankLines | components/employee-management.tsx:99 | The lines the import sees are exactly the non-blank pieces of the text between `\n`s, in order. None of them holds a `\n`. |
| Roster.OneLine | components/employee-management.tsx:99 | A text without `\n` gives itself as its one line, or no line when it is blank. |
| Roster.FirstLineThenRest | components/employee-management.tsx:99 | A file's first line, if not blank, comes first, followed by the lines of the rest of the file in order. |
| Roster.ScanLines | components/employee-management.tsx:134-138 | One scan per data line, in order, each the scan of its own line. A scan is empty exactly for a blank line. |
| Roster.RowsFrom | components/employee-management.tsx:134-173 | One verdict per data line. The verdict at position `i` is the check of the `i`-th scan reported as line `lineNo + i`. A verdict is skipped exactly for a blank line, and every verdict is sound. |
| Roster.RowsPartition | components/employee-management.tsx:134-173 | Every non-blank data line is either accepted or rejected. |
| Roster.AcceptedOfAppend | components/employee-management.tsx:166-172 | The batch of two runs of verdicts is the batch of the first followed by that of the second. |
| Roster.ErrorsOfAppend | components/employee-management.tsx:140-164 | The errors of two runs of verdicts are the errors of the first followed by those of the second. |
| Roster.AcceptedNamesNew | components/employee-management.tsx:154-172 | Every accepted employee has a non-empty name that the `.single()` lookup does not find in the roster. |
| Roster.ErrorLinesInRange | components/employee-management.tsx:140-164 | Every reported line number lies in the range of the lines checked. |
| Roster.VerdictsOfLines | components/employee-management.tsx:134-172 | Scanning the data lines and checking the scans gives, line by line, the row check of that line numbered from 2. |
| Roster.ImportRows | components/employee-management.tsx:127-192 | After the header, the import ends as nothing imported, imported, or insert failed. The batch is the accepted rows and the errors are the rejections of the data lines' verdicts, both in line order. An imported batch is non-empty and its insert succeeded; a failed batch is non-empty and its insert failed. |
| Roster.ImportLines | components/employee-management.tsx:99-125 | An empty file stops the import, and so does a header without a name column, exactly in those cases. |
| Roster.ImportAccountsForEveryLine | components/employee-management.tsx:134-192 | Batch plus errors account for every data line. Batch names are non-empty and new to the roster, and reported numbers run from 2 to the last data line's number. |
| Roster.FailedInsertAddsNobody | components/employee-management.tsx:176-181 | A failed batch insert adds no employee. |
| Roster.BlankLineIgnored | components/employee-management.tsx:99 | A blank line before the header is ignored, so line numbers count non-blank lines only. |
| Roster.BareTokensAreFields | components/employee-management.tsx:109 | Bare tokens are their own field values. |
| Roster.TemplateHeaderRoles | components/employee-management.tsx:206 | The template's own header line `Agent Name,Company,Teams,Location`, lower-cased, scanned and resolved, makes the name column 0, company 1, team 2 and location 3. |
| Roster.PhrasesFields | components/employee-management.tsx:109 | A header of comma-joined unquoted words scans to the last word of each field. |
| Roster.TemplateHeaderFields | components/employee-management.tsx:109 | The lower-cased template header scans to `name`, `company`, `teams`, `location`. |
| Roster.TemplateColumns | components/employee-management.tsx:114-125 | Those four names resolve to name column 0, company 1, team 2 and location 3. |
| Roster.BareLineFields | components/employee-management.tsx:135-138 | A line of one bare word has that word as its only field. |
| Roster.NameOnlyHeader | components/employee-management.tsx:114-117 | A header of just `name` has a name column and no other role. |
| Roster.NameHeaderResolves | components/employee-management.tsx:107-125 | The header line `name` resolves to a lone name column. |
| Roster.SameNameTwice | components/employee-management.tsx:161-172 | Two rows naming the same new person are both accepted, because rows are checked against the roster only. |
| Roster.DuplicateRowsImported | components/employee-management.tsx:161-177 | Two data lines naming the same new person both go into the batch. |
| Roster.DuplicatesWithinFileAccepted | components/employee-management.tsx:161-177 | A file naming the same new person twice imports both rows. |
| Roster.ImportMayDuplicateNames | components/employee-management.tsx:161-188 | Unlike the single add, an import can leave two employees with the same name. |
| Roster.StoredTwiceNotFound | components/employee-management.tsx:56 | A name stored twice more is no longer found by the `.single()` lookup. |
| Roster.ThirdCopyAdded | components/employee-management.tsx:56-74 | After an import stores a name twice, the single add accepts the same name a third time. |
| Elapsed.JsRem | components/clock-portal.tsx:257 | JavaScript's `%` takes the sign of the dividend and is smaller than the divisor in size. |
| Elapsed.JsRemLaw | components/clock-portal.tsx:257 | The remainder is what is left after the truncated quotient. |
| Elapsed.Split | components/clock-portal.tsx:255-257 | A non-negative span gives non-negative hours and minutes 0-59. A negative span gives negative hours and minutes between -60 and 0. |
| Elapsed.SplitNonNegative | components/clock-portal.tsx:256-257 | For a non-negative span, hours and minutes together are its whole minutes. |
| Elapsed.SplitNegativeMinute | components/clock-portal.tsx:256-257 | A span of minus one minute shows -1 hours and -1 minutes, which is not minus one minute. |
| Elapsed.ClockText | components/clock-portal.tsx:258 | The portal's text always has a colon. |
| Elapsed.PortalHoursWorked | components/clock-portal.tsx:251-259 | With no current entry the portal shows the text of a zero span. Otherwise it shows the text of the span from clock-in to now. |
| Elapsed.ZeroClockReadsBack | components/clock-portal.tsx:252 | The fixed `0:00` is the text of an empty span. |
| Elapsed.ClockTextRoundTrip | components/clock-portal.tsx:256-258 | The `H:MM` text reads back as exactly the hours and minutes of the span. |
| Elapsed.UnitsText | components/admin-dashboard.tsx:133 | The dashboard's text always has a space. |
| Elapsed.UnitsTextRoundTrip | components/admin-dashboard.tsx:133 | The `Hh Mm` text reads back as exactly the pair it was made from. |
| Elapsed.DashboardHoursReadBack | components/admin-dashboard.tsx:127-134 | The dashboard's hours text names the span to the clock-out, or to now while the entry is open. |
| Elapsed.TotalMinutes | components/admin-dashboard.tsx:137-142 | The sum of whole minutes is non-negative when no span is negative. |
| Elapsed.TotalMinutesAtMost | components/admin-dashboard.tsx:137-142 | Each span rounds down separately, so the total is at most the whole minutes of the summed spans. It falls short by less than a minute per entry. |
| Elapsed.TotalTextMeaning | components/admin-dashboard.tsx:143-145 | With no negative span, the total reads back as whole hours plus 0-59 minutes, together making the total minutes. |
| Portal.PortalAudit | components/clock-portal.tsx:76-88 | The audit row carries the action's code and the portal's `employeeId` (a name) as the email. It also carries the name, IP, location data and details. |
| Portal.Record | components/clock-portal.tsx:78 | An audit insert appends the row only when it succeeds and touches no other table. |
| Portal.LookupEmployee | components/clock-portal.tsx:131-137 | `.single()` finds an employee exactly when one name matches, and then it is that employee. |
| Portal.LatestOpen | components/clock-portal.tsx:94-103 | The chosen row is an open entry of the name with the greatest clock-in, and none exists exactly when the name has no open entry. |
| Portal.Resume | components/clock-portal.tsx:90-118 | The latest open entry is resumed exactly when it began on today's local date. The session identity is kept. |
| Portal.LoginAudit | components/clock-portal.tsx:146-154 | The login row's email is the stored email, or the name when that is empty, and has no details. |
| Portal.Login | components/clock-portal.tsx:90-159 | An empty field or an unmatched name changes nothing. A match logs in under the stored name, leaves entries alone and appends the login row when that insert succeeds. It then resumes as the status check does: the stored name's latest open entry becomes current when it began today; otherwise the session's entry and location are kept. |
| Portal.Reload | components/clock-portal.tsx:48-59 | A stored session logs in under its id and name, then resumes its latest open entry from today as the login does; none changes nothing. |
| Portal.NextId | components/clock-portal.tsx:165-179 | A new entry's id differs from every stored one. |
| Portal.ClockIn | components/clock-portal.tsx:161-201 | A failed insert changes nothing. Otherwise one open entry is appended and becomes current, and the `clock_in` row is written when that insert succeeds. |
| Portal.CloseEntry | components/clock-portal.tsx:211-217 | The update sets the clock-out of every row with the id, closed or not, and leaves the others alone. |
| Portal.ClockOut | components/clock-portal.tsx:203-232 | Without a current entry, or when the update fails, nothing changes. Otherwise the entry is closed, the `clock_out` row is written when possible, and the session is cleared. |
| Portal.SignOut | components/clock-portal.tsx:338-343 | Sign-out clears the session flags and keeps the identity. The store, with any open entry, is untouched. |
| Portal.StepKeepsValid | components/clock-portal.tsx:400-448 | Every action the page offers keeps "clocked in" in step with holding a current entry for the logged-in employee. |
| Portal.StepKeepsConsistent | components/clock-portal.tsx:161-232 | Every offered action keeps the current entry an open stored row, and the store's ids distinct. |
| Portal.CompanyIgnored | components/clock-portal.tsx:125-127 | Any non-empty company gives the same login. |
| Portal.AuditFollowsWrite | components/clock-portal.tsx:146-228 | A new audit row appears only after the login, insert or update it reports has succeeded. |
| Portal.OpenCount | components/clock-portal.tsx:98 | The count of a name's open entries is zero exactly when it has none. |
| Portal.ClockInOpensOne | components/clock-portal.tsx:161-201 | A clock-in adds exactly one open entry for the employee. |
| Portal.CloseEntryClosesOne | components/clock-portal.tsx:211-217 | Closing an open entry with a unique id removes exactly one open entry of its owner. |
| Portal.ClockOutClosesOne | components/clock-portal.tsx:203-232 | A clock-out of a session that mirrors its stored entry removes exactly one open entry. |
| Portal.SecondOpenEntry | components/clock-portal.tsx:338-343 | Clock in, sign out, then log in on a later local day: Clock In is offered again and the employee ends with two open entries. |
| Portal.SameDayResumes | components/clock-portal.tsx:102-117 | The same sequence on the same local day resumes the open entry, and Clock In is not offered. |
| Portal.LoginResumesToday | components/clock-portal.tsx:90-159 | From a logged-out page, a login ends clocked in exactly when the employee's latest open entry began today, and that entry is then current. |
| Portal.ReloadResumesToday | components/clock-portal.tsx:48-59 | A page load with a stored employee ends clocked in exactly when that employee's latest open entry began today, and that entry is then current. |
| Portal.ReloadKeepsInvariants | components/clock-portal.tsx:48-59 | A page load leaves the portal in a valid state that mirrors the store, whatever `localStorage` held. |
| Csv.Lines | components/admin-dashboard.tsx:193 | Each row becomes its cells joined with commas. |
| Csv.ParseLines | components/audit-logs.tsx:96-97 | Reading splits each line at commas. |
| Csv.NotInJoin | components/admin-dashboard.tsx:193 | Joining adds no character other than the separator. |
| Csv.RenderParse | components/admin-dashboard.tsx:193-194 | With plain cells and no empty row, the unquoted rendering reads back as the rows it was made from. |
| Csv.HeaderedRenderParse | components/audit-logs.tsx:84-97 | A header over plain data rows reads back as written. |
| Csv.CommaShiftsFields | components/audit-logs.tsx:96 | Every comma inside a cell adds a field for a reader that splits at commas. |
| Dashboard.ManagerOf | components/admin-dashboard.tsx:79-82 | The manager is set exactly when a joined row has a non-empty manager, and is then that manager. |
| Dashboard.InWindow | components/admin-dashboard.tsx:70-71 | The rows kept are exactly those whose clock-in lies in the day's window. |
| Dashboard.Query | components/admin-dashboard.tsx:62-72 | The select returns the window's rows, newest clock-in first. |
| Dashboard.Annotate | components/admin-dashboard.tsx:79-82 | Each row gets its own manager, in order. |
| Dashboard.LoadEntries | components/admin-dashboard.tsx:53-85 | A failed load keeps the entries shown. Otherwise the window's entries load newest first, one per row. |
| Dashboard.LoadedFromWindow | components/admin-dashboard.tsx:62-82 | Every loaded entry is a stored row of the window with that row's manager. |
| Dashboard.WindowRowSelected | components/admin-dashboard.tsx:62-72 | A stored row whose clock-in lies in the window is among the rows the select returns. |
| Dashboard.WindowFullyLoaded | components/admin-dashboard.tsx:62-82 | Every stored row of the window is loaded. |
| Dashboard.FilterEntries | components/admin-dashboard.tsx:87-95 | "all" keeps every entry. A location keeps exactly the entries at it. |
| Dashboard.AtLocation | components/admin-dashboard.tsx:91 | The location filter keeps exactly the entries at the location. |
| Dashboard.AtLocationAppend | components/admin-dashboard.tsx:91 | The location filter keeps the entries' order. |
| Dashboard.OpenCount | components/admin-dashboard.tsx:148-150 | The clocked-in card is zero exactly when every entry has a clock-out. |
| Dashboard.OpenCountIsFilter | components/admin-dashboard.tsx:148-150 | The clocked-in card is the number of entries without a clock-out. |
| Dashboard.LocationCount | components/admin-dashboard.tsx:152-162 | A location card shows every entry exactly when all entries are at that location. |
| Dashboard.LocationCountsCover | components/admin-dashboard.tsx:152-162 | The office, remote and hybrid cards add up to the entries shown. |
| Dashboard.LocationCountIsFilter | components/admin-dashboard.tsx:152-162 | A location card is the length of that location's filter. |
| Dashboard.Spans | components/admin-dashboard.tsx:138-140 | Each entry's span runs to its clock-out, or to now while it is open. |
| Dashboard.TotalHoursToday | components/admin-dashboard.tsx:136-146 | With no negative span, the total reads back as hours and 0-59 minutes summing to the entries' whole minutes. |
| Dashboard.EntryRow.Cells | components/admin-dashboard.tsx:165-191 | An exported row has one cell per header column. |
| Dashboard.ExportRow | components/admin-dashboard.tsx:179-191 | Absent manager, IP, city and country print as `-`. An open entry's clock-out is "Still clocked in". The hours cell is the dashboard's hours text. |
| Dashboard.HeaderPlain | components/admin-dashboard.tsx:166-178 | No header cell holds a comma or a line break. |
| Dashboard.ExportReadsBack | components/admin-dashboard.tsx:164-194 | When no cell holds a comma or a line break, the export reads back as the header followed by each entry's row, in order. |
| AuditView.KindOf | components/audit-logs.tsx:70-79 | A recognised code belongs to the kind it names. |
| AuditView.KindOfCode | components/audit-logs.tsx:70-77 | Every kind is recognised from its own code. |
| AuditView.Label | components/audit-logs.tsx:69-81 | A known code shows its kind's label. Any other code shows itself. |
| AuditView.LabelsDistinct | components/audit-logs.tsx:70-77 | The six kinds show six different labels. |
| AuditView.ChoicesOmitAdded | components/audit-logs.tsx:107-114 | Every kind but `employee_added` can be picked in the action filter. |
| AuditView.FilterLogs | components/audit-logs.tsx:59-67 | "all" keeps every row. Any other choice keeps exactly the rows with that action type. |
| AuditView.AddedOnlyUnderAll | components/audit-logs.tsx:59-114 | `employee_added` rows appear under no choice but "All Actions". |
| AuditView.LogsInWindow | components/audit-logs.tsx:47-48 | The rows kept are exactly those created within the day's window. |
| AuditView.LoadLogs | components/audit-logs.tsx:35-57 | A failed load keeps the rows shown. Otherwise the window's rows load newest first, as a permutation of them. |
| AuditView.LocationCell | components/audit-logs.tsx:92 | No location prints `-`. A location prints `<city>, <country>`, which has one comma more than city and country hold. |
| AuditView.DetailsCell | components/audit-logs.tsx:93 | Absent details print as `{}`. |
| AuditView.LogCells | components/audit-logs.tsx:86-93 | An exported row has seven cells: the rendered time, the raw action code, the name, e-mail and IP (each `-` when absent), the location cell and the details cell. |
| AuditView.LogRows | components/audit-logs.tsx:86-94 | One exported row per log, in order. |
| AuditView.LocatedRowOverflows | components/audit-logs.tsx:92-97 | A log with a location exports to a line with more fields than the seven-column header. |

## Left out

- Store I/O (the hosted database client) is replaced by sequences of rows and by per-write success flags. No await interleaving is modelled: each handler runs to completion, including the background `checkTodayClockStatus`.
- The `ilike` comparison is equality up to ASCII letter case. Its `%` and `_` wildcards and non-ASCII case folding are not modelled.
- `.single()` is modelled as "exactly one match": with none or several it yields an error and no row, which both components treat as "not found". The store's error text is not modelled.
- Employee deletion and its cascade (`handleDeleteEmployee`, employee-management.tsx:76-89) are not modelled. They are browser confirmations around a single delete.
- The IP lookup (`ipapi.co`), `localStorage`, the clock `setInterval`, file downloads, `alert` and `confirm` are left out. Their results are parameters: the IP, the location data, the stored session, the current time.
- Locale and time-zone formatting (`toLocaleTimeString`, `toLocaleDateString`, `toLocaleString`), the local-day window of a date and `JSON.stringify` are function parameters.
- The `hours_worked` value that clock-out writes (`toFixed(2)` of a floating-point division) is left out. It is floating point, and nothing in the core reads it back.
- The admin password check and the `admin_login` audit row (admin-dashboard.tsx:97-125) are not modelled. Its `country_name` key is not read back by the viewer.
- The JSX rendering, the pages under `app/`, `components/navigation.tsx` and `next.config.mjs` are not part of this model.
- Guarantees the code does not make are not claimed:
  - de-duplication of names within an import file;
  - an already-closed guard on clock-out;
  - at most one open entry per employee;
  - CSV quoting.
  Lemmas show each of these gaps instead.
- AuditView.Label: property names inherited from JavaScript's `Object.prototype` (such as `constructor`) find a value in `variants` that has no label, so the badge would be blank. The model shows every code other than the six kinds raw.
- Dashboard.ExportRow: says nothing of the Clock In and Date cells, which are the parameter renderings of the clock-in time.
- The portal's `clock_in` insert sets no employee id. The dashboard's manager join therefore finds no employee for those rows, and the model's `Joined` rows take the join result as given.
- Portal.ClockIn: assumes a successful insert returns its row. The source only sets the session when the returned `data` is non-empty (clock-portal.tsx:187); an insert that succeeds but returns no row, which leaves the row stored but the page not clocked in and no `clock_in` audit row, is not modelled.
