/** Elapsed-time arithmetic and its text, as the clock portal
    (components/clock-portal.tsx:251-259) and the admin dashboard
    (components/admin-dashboard.tsx:127-146) compute it. Times are integer
    milliseconds; the current time is a parameter.

    The code mixes two JavaScript roundings: `Math.floor(x / y)` rounds
    down, while `%` truncates toward zero (its remainder takes the sign of
    the dividend). Dafny's `/` on a positive divisor already rounds down;
    the truncating remainder is `JsRem`. */
module Elapsed {
  import opened Common
  import opened Text

  const MsPerMinute: int := 60000
  const MsPerHour: int := 3600000

  /** JavaScript's integer quotient rounded toward zero, `Math.trunc(a / b)`. */
  function JsQuot(a: int, b: int): int
    requires b > 0
  {
    if a >= 0 then a / b else -((-a) / b)
  }

  /** JavaScript's `a % b` for a positive `b`: the remainder has the sign
      of `a`. */
  function JsRem(a: int, b: int): (r: int)
    requires b > 0
    ensures a >= 0 ==> 0 <= r < b
    ensures a < 0 ==> -b < r <= 0
  {
    if a >= 0 then a % b else -((-a) % b)
  }

  /** The remainder is what is left once the quotient rounded toward zero
      is taken away. */
  lemma JsRemLaw(a: int, b: int)
    requires b > 0
    ensures a == JsQuot(a, b) * b + JsRem(a, b)
  {
    if a < 0 {
      var q, m := (-a) / b, (-a) % b;
      assert -a == q * b + m;
      assert a == (-q) * b + (-m);
    }
  }

  /** The hours and minutes shown for a span of `diff` milliseconds:
      `Math.floor(diff / 3600000)` and
      `Math.floor((diff % 3600000) / 60000)`. */
  datatype HoursMinutes = HoursMinutes(hours: int, minutes: int)

  function Split(diff: int): (hm: HoursMinutes)
    ensures diff >= 0 ==> hm.hours >= 0 && 0 <= hm.minutes < 60
    ensures diff < 0 ==> hm.hours < 0 && -60 <= hm.minutes <= 0
  {
    HoursMinutes(diff / MsPerHour, JsRem(diff, MsPerHour) / MsPerMinute)
  }

  /** For a non-negative span the pair is the whole minutes of the span
      written in hours and minutes. */
  lemma SplitNonNegative(diff: int)
    requires diff >= 0
    ensures var hm := Split(diff);
      60 * hm.hours + hm.minutes == diff / MsPerMinute
  {
    var h := diff / MsPerHour;
    var rem := diff % MsPerHour;
    assert diff == h * MsPerHour + rem;
    assert rem / MsPerMinute < 60;
    assert diff == (60 * h + rem / MsPerMinute) * MsPerMinute + rem % MsPerMinute;
  }

  /** For a negative span the two roundings disagree: a clock-in one minute
      in the future shows -1 hours and -1 minutes, 61 minutes in all. */
  lemma SplitNegativeMinute()
    ensures Split(-MsPerMinute) == HoursMinutes(-1, -1)
    ensures 60 * Split(-MsPerMinute).hours + Split(-MsPerMinute).minutes != -MsPerMinute / MsPerMinute
  {
  }

  /** The portal's `H:MM` text of a span. */
  function ClockText(diff: int): (t: string)
    ensures ':' in t
  {
    var hm := Split(diff);
    var hs, ms := IntToString(hm.hours), PadStart2(IntToString(hm.minutes));
    SeparatorBetween(hs, ':', ms);
    hs + [':'] + ms
  }

  /** A text built around a separator contains it. */
  lemma SeparatorBetween(a: string, c: char, b: string)
    ensures c in a + [c] + b
  {
    assert (a + [c] + b)[|a|] == c;
  }

  /** `calculateHoursWorked` in the portal: `0:00` with no current entry,
      otherwise the span from the clock-in to `now`, not clamped. */
  function PortalHoursWorked(clockIn: Option<int>, now: int): (t: string)
    ensures t == ClockText(if clockIn.Some? then now - clockIn.value else 0)
  {
    if clockIn.None? then
      ZeroClockReadsBack();
      "0:00"
    else
      ClockText(now - clockIn.value)
  }

  /** The portal's fixed `0:00` is the text of an empty span. */
  lemma ZeroClockReadsBack()
    ensures ClockText(0) == "0:00"
  {
    assert IntToString(0) == "0";
  }

  /** Reads an `H:MM` text back into hours and minutes. */
  function ReadClock(t: string): (r: Option<HoursMinutes>)
  {
    var parts := Text.Split(t, ':');
    if |parts| != 2 then None
    else match (ParseInt(parts[0]), ParseInt(parts[1]))
      case (Some(h), Some(m)) => Some(HoursMinutes(h, m))
      case _ => None
  }

  lemma NoColonInNumber(i: int)
    ensures ':' !in IntToString(i) && ':' !in PadStart2(IntToString(i))
  {
    var n := if i < 0 then -i else i;
    assert AllDigits(NatToString(n));
    assert forall k :: 0 <= k < |NatToString(n)| ==> NatToString(n)[k] != ':';
  }

  /** The portal's text names exactly the hours and minutes of the span. */
  lemma ClockTextRoundTrip(diff: int)
    ensures ReadClock(ClockText(diff)) == Some(Split(diff))
  {
    var hm := Split(diff);
    var hs, ms := IntToString(hm.hours), PadStart2(IntToString(hm.minutes));
    NoColonInNumber(hm.hours);
    NoColonInNumber(hm.minutes);
    SplitSeparated(hs, ':', ms);
    assert ClockText(diff) == hs + [':'] + ms;
    IntToStringRoundTrip(hm.hours);
    PadStart2RoundTrip(hm.minutes);
  }

  /** The dashboard's `Hh Mm` text of a pair. */
  function UnitsText(hm: HoursMinutes): (t: string)
    ensures ' ' in t
  {
    var hs, ms := IntToString(hm.hours) + "h", IntToString(hm.minutes) + "m";
    SeparatorBetween(hs, ' ', ms);
    hs + [' '] + ms
  }

  /** `calculateHoursWorked` on the dashboard: the span from clock-in to
      clock-out, or to `now` while the entry is open. */
  function DashboardHoursWorked(clockIn: int, clockOut: Option<int>, now: int): string
  {
    var end := if clockOut.Some? then clockOut.value else now;
    UnitsText(Split(end - clockIn))
  }

  /** The dashboard's text names the hours and minutes of the span, which
      ends at the clock-out or, while the entry is open, at `now`. */
  lemma DashboardHoursReadBack(clockIn: int, clockOut: Option<int>, now: int)
    ensures ReadUnits(DashboardHoursWorked(clockIn, clockOut, now)) == Some(Split(clockOut.GetOr(now) - clockIn))
  {
    var hm := Split(clockOut.GetOr(now) - clockIn);
    assert DashboardHoursWorked(clockIn, clockOut, now) == UnitsText(hm);
    UnitsTextRoundTrip(hm);
  }

  /** Reads an `Hh Mm` text back into hours and minutes. */
  function ReadUnits(t: string): (r: Option<HoursMinutes>)
  {
    var parts := Text.Split(t, ' ');
    if |parts| != 2 || |parts[0]| < 1 || |parts[1]| < 1 then None
    else if parts[0][|parts[0]| - 1] != 'h' || parts[1][|parts[1]| - 1] != 'm' then None
    else match (ParseInt(parts[0][..|parts[0]| - 1]), ParseInt(parts[1][..|parts[1]| - 1]))
      case (Some(h), Some(m)) => Some(HoursMinutes(h, m))
      case _ => None
  }

  lemma NoSpaceInNumber(i: int)
    ensures ' ' !in IntToString(i) + "h" && ' ' !in IntToString(i) + "m"
  {
    var n := if i < 0 then -i else i;
    assert AllDigits(NatToString(n));
    assert forall k :: 0 <= k < |NatToString(n)| ==> NatToString(n)[k] != ' ';
  }

  /** The dashboard's text names exactly the pair it was made from. */
  lemma UnitsTextRoundTrip(hm: HoursMinutes)
    ensures ReadUnits(UnitsText(hm)) == Some(hm)
  {
    var hs, ms := IntToString(hm.hours) + "h", IntToString(hm.minutes) + "m";
    NoSpaceInNumber(hm.hours);
    NoSpaceInNumber(hm.minutes);
    SplitSeparated(hs, ' ', ms);
    assert UnitsText(hm) == hs + [' '] + ms;
    assert hs[..|hs| - 1] == IntToString(hm.hours);
    assert ms[..|ms| - 1] == IntToString(hm.minutes);
    IntToStringRoundTrip(hm.hours);
    IntToStringRoundTrip(hm.minutes);
  }

  // ------------------------------------------------------ total today

  /** The whole minutes of each span, added up (lines 137-142). */
  function TotalMinutes(diffs: seq<int>): (total: int)
    ensures (forall i :: 0 <= i < |diffs| ==> diffs[i] >= 0) ==> total >= 0
  {
    if diffs == [] then 0 else diffs[0] / MsPerMinute + TotalMinutes(diffs[1..])
  }

  function Sum(xs: seq<int>): int {
    if xs == [] then 0 else xs[0] + Sum(xs[1..])
  }

  /** Adding whole minutes never exceeds the whole minutes of the sum: the
      total drops each span's leftover seconds separately. */
  lemma {:induction false} TotalMinutesAtMost(diffs: seq<int>)
    ensures TotalMinutes(diffs) * MsPerMinute <= Sum(diffs)
    ensures Sum(diffs) <= TotalMinutes(diffs) * MsPerMinute + |diffs| * (MsPerMinute - 1)
  {
    if diffs != [] {
      TotalMinutesAtMost(diffs[1..]);
      var q := diffs[0] / MsPerMinute;
      assert q * MsPerMinute <= diffs[0] < q * MsPerMinute + MsPerMinute;
      assert |diffs| * (MsPerMinute - 1) == |diffs[1..]| * (MsPerMinute - 1) + (MsPerMinute - 1);
    }
  }

  /** `getTotalHoursToday` (lines 136-146): hours rounded down, minutes
      with JavaScript's truncating `%`. */
  function TotalText(diffs: seq<int>): (t: string)
  {
    var total := TotalMinutes(diffs);
    UnitsText(HoursMinutes(total / 60, JsRem(total, 60)))
  }

  /** With no negative span the total reads back as whole hours and the
      minutes left over. */
  lemma TotalTextMeaning(diffs: seq<int>)
    requires forall i :: 0 <= i < |diffs| ==> diffs[i] >= 0
    ensures var r := ReadUnits(TotalText(diffs));
      && r.Some? && 0 <= r.value.minutes < 60 && r.value.hours >= 0
      && 60 * r.value.hours + r.value.minutes == TotalMinutes(diffs)
  {
    var total := TotalMinutes(diffs);
    UnitsTextRoundTrip(HoursMinutes(total / 60, JsRem(total, 60)));
  }
}
