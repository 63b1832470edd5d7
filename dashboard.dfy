/** GET /dashboard-stats of routes/Dashboard.js: the date it reports on
    (getTodayDate, UTC+8) and its four counts. */
module Dashboard {
  import opened Common
  import Report
  import Employees

  // ---------------------------------------------------------------------
  // The proleptic Gregorian calendar that JavaScript's Date uses
  // ---------------------------------------------------------------------

  datatype Date = Date(year: int, month: nat, day: nat)

  predicate IsLeapYear(y: int)
  {
    y % 4 == 0 && (y % 100 != 0 || y % 400 == 0)
  }

  function DaysInYear(y: int): nat
  {
    if IsLeapYear(y) then 366 else 365
  }

  function DaysInMonth(y: int, m: nat): nat
    requires 1 <= m <= 12
  {
    if m == 2 then (if IsLeapYear(y) then 29 else 28)
    else if m == 4 || m == 6 || m == 9 || m == 11 then 30
    else 31
  }

  /** Days in the months of year `y` before month `m`. */
  function DaysBeforeMonth(y: int, m: nat): nat
    requires 1 <= m <= 13
  {
    var leap := if IsLeapYear(y) && m > 2 then 1 else 0;
    leap +
      (if m == 1 then 0 else if m == 2 then 31 else if m == 3 then 59
       else if m == 4 then 90 else if m == 5 then 120 else if m == 6 then 151
       else if m == 7 then 181 else if m == 8 then 212 else if m == 9 then 243
       else if m == 10 then 273 else if m == 11 then 304 else if m == 12 then 334
       else 365)
  }

  predicate ValidDate(d: Date)
  {
    1 <= d.month <= 12 && 1 <= d.day <= DaysInMonth(d.year, d.month)
  }

  /** Days from 1970-01-01 to January 1 of year `y`. */
  function DaysToYear(y: int): int
    decreases if y >= 1970 then y - 1970 else 1970 - y
  {
    if y == 1970 then 0
    else if y > 1970 then DaysToYear(y - 1) + DaysInYear(y - 1)
    else DaysToYear(y + 1) - DaysInYear(y)
  }

  /** Days from 1970-01-01 to `d` (negative before it). */
  function DaysFromCivil(d: Date): int
    requires ValidDate(d)
  {
    DaysToYear(d.year) + DaysBeforeMonth(d.year, d.month) + d.day - 1
  }

  /** The year and day-of-year of the day `k` days after January 1 of `y`. */
  function YearOf(y: int, k: int): (r: (int, nat))
    ensures r.1 < DaysInYear(r.0)
    ensures DaysToYear(r.0) + r.1 == DaysToYear(y) + k
    decreases if k < 0 then 1 else 0, if k < 0 then -k else k
  {
    if k < 0 then YearOf(y - 1, k + DaysInYear(y - 1))
    else if k >= DaysInYear(y) then YearOf(y + 1, k - DaysInYear(y))
    else (y, k)
  }

  /** The month and day-of-month of day-of-year `DaysBeforeMonth(y, m) + k`. */
  function MonthOf(y: int, m: nat, k: nat): (r: (nat, nat))
    requires 1 <= m <= 12
    requires DaysBeforeMonth(y, m) + k < DaysInYear(y)
    ensures 1 <= r.0 <= 12 && r.1 < DaysInMonth(y, r.0)
    ensures DaysBeforeMonth(y, r.0) + r.1 == DaysBeforeMonth(y, m) + k
    decreases 12 - m
  {
    if k < DaysInMonth(y, m) then (m, k) else MonthOf(y, m + 1, k - DaysInMonth(y, m))
  }

  /** The civil date of the `n`-th day after 1970-01-01. */
  function CivilFromDays(n: int): (d: Date)
    ensures ValidDate(d) && DaysFromCivil(d) == n
  {
    var (y, k) := YearOf(1970, n);
    var (m, r) := MonthOf(y, 1, k);
    Date(y, m, r + 1)
  }

  lemma {:induction false} DaysToYearMonotone(y1: int, y2: int)
    requires y1 < y2
    ensures DaysToYear(y1) + DaysInYear(y1) <= DaysToYear(y2)
    decreases y2 - y1
  {
    if y1 + 1 < y2 {
      DaysToYearMonotone(y1 + 1, y2);
    }
  }

  lemma {:induction false} DaysBeforeMonthMonotone(y: int, m1: nat, m2: nat)
    requires 1 <= m1 < m2 <= 13
    ensures DaysBeforeMonth(y, m1) + DaysInMonth(y, m1) <= DaysBeforeMonth(y, m2)
    decreases m2 - m1
  {
    if m1 + 1 < m2 {
      DaysBeforeMonthMonotone(y, m1 + 1, m2);
    }
  }

  /** Distinct valid dates are distinct days. */
  lemma DaysFromCivilInjective(d1: Date, d2: Date)
    requires ValidDate(d1) && ValidDate(d2)
    requires DaysFromCivil(d1) == DaysFromCivil(d2)
    ensures d1 == d2
  {
    if d1.year < d2.year {
      DaysToYearMonotone(d1.year, d2.year);
    } else if d2.year < d1.year {
      DaysToYearMonotone(d2.year, d1.year);
    }
    if d1.month < d2.month {
      DaysBeforeMonthMonotone(d1.year, d1.month, d2.month);
    } else if d2.month < d1.month {
      DaysBeforeMonthMonotone(d1.year, d2.month, d1.month);
    }
  }

  /** Day numbers and valid dates are in one-to-one correspondence. */
  lemma CivilFromDaysOfCivil(d: Date)
    requires ValidDate(d)
    ensures CivilFromDays(DaysFromCivil(d)) == d
  {
    DaysFromCivilInjective(CivilFromDays(DaysFromCivil(d)), d);
  }

  // ---------------------------------------------------------------------
  // getTodayDate and the YYYY-MM-DD text
  // ---------------------------------------------------------------------

  /** `String(n).padStart(2, '0')` */
  function PadStart2(s: string): string
  {
    if |s| == 0 then "00" else if |s| == 1 then "0" + s else s
  }

  /** `${year}-${month}-${day}` with month and day padded to two digits. */
  function FormatDate(d: Date): string
  {
    IntText(d.year) + "-" + PadStart2(DecimalText(d.month)) + "-" + PadStart2(DecimalText(d.day))
  }

  /** Reads a date written as `<year>-MM-DD`. */
  function ParseDate(s: string): Option<Date>
  {
    if |s| >= 7 && s[|s| - 6] == '-' && s[|s| - 3] == '-' &&
       AllDigits(s[|s| - 5..|s| - 3]) && AllDigits(s[|s| - 2..]) &&
       ParseInt(s[..|s| - 6]).Some?
    then Some(Date(ParseInt(s[..|s| - 6]).value,
                   ParseDecimal(s[|s| - 5..|s| - 3]), ParseDecimal(s[|s| - 2..])))
    else None
  }

  lemma TwoDigits(n: nat)
    requires 1 <= n <= 99
    ensures var s := PadStart2(DecimalText(n));
      |s| == 2 && AllDigits(s) && ParseDecimal(s) == n
  {
    var s := PadStart2(DecimalText(n));
    ParseDecimalText(n);
    if n < 10 {
      assert s == ['0', Digit(n)];
      assert s[..1] == ['0'];
      assert ParseDecimal(s[..1]) == 0 by {
        assert s[..1][..0] == [];
      }
    } else {
      assert |DecimalText(n / 10)| == 1;
    }
  }

  lemma SplitDateText(y: string, mm: string, dd: string)
    requires |mm| == 2 && |dd| == 2
    ensures var s := y + "-" + mm + "-" + dd;
      |s| == |y| + 6 && s[..|s| - 6] == y && s[|s| - 6] == '-' &&
      s[|s| - 5..|s| - 3] == mm && s[|s| - 3] == '-' && s[|s| - 2..] == dd
  {
  }

  /** A formatted date reads back as the same date. */
  lemma ParseFormatDate(d: Date)
    requires ValidDate(d)
    ensures ParseDate(FormatDate(d)) == Some(d)
  {
    var y := IntText(d.year);
    var mm := PadStart2(DecimalText(d.month));
    var dd := PadStart2(DecimalText(d.day));
    TwoDigits(d.month);
    TwoDigits(d.day);
    ParseIntText(d.year);
    SplitDateText(y, mm, dd);
    var s := FormatDate(d);
    assert s == y + "-" + mm + "-" + dd;
    assert AllDigits(s[|s| - 5..|s| - 3]) && AllDigits(s[|s| - 2..]);
    assert ParseInt(s[..|s| - 6]) == Some(d.year);
    assert ParseDecimal(s[|s| - 5..|s| - 3]) == d.month;
    assert ParseDecimal(s[|s| - 2..]) == d.day;
  }

  /** The extended calendar-date form of section 4.1.2.2 of ISO 8601:2004:
      YYYY-MM-DD. */
  predicate IsExtendedCalendarDate(s: string)
  {
    |s| == 10 && s[4] == '-' && s[7] == '-' &&
    AllDigits(s[..4]) && AllDigits(s[5..7]) && AllDigits(s[8..])
  }

  /** For four-digit years the text is exactly the ISO 8601 extended form. */
  lemma FormatDateIsExtended(d: Date)
    requires ValidDate(d) && 1000 <= d.year <= 9999
    ensures IsExtendedCalendarDate(FormatDate(d))
    ensures ParseDate(FormatDate(d)) == Some(d)
  {
    var y := IntText(d.year);
    assert |DecimalText(d.year / 1000)| == 1;
    assert |DecimalText(d.year / 100)| == 2;
    assert |DecimalText(d.year / 10)| == 3;
    assert |y| == 4;
    TwoDigits(d.month);
    TwoDigits(d.day);
    var s := FormatDate(d);
    assert s[..4] == y;
    assert s[5..7] == PadStart2(DecimalText(d.month));
    assert s[8..] == PadStart2(DecimalText(d.day));
    ParseFormatDate(d);
  }

  const MsPerMinute := 60000
  const MsPerHour := 3600000
  const MsPerDay := 86400000

  /** getTodayDate(): `now` is the clock in milliseconds since the epoch,
      `offsetNow` the server zone's getTimezoneOffset() at `now` and
      `offsetThen` its offset at the shifted instant that the local-time
      getters read, both in minutes. */
  function TodayDate(now: int, offsetNow: int, offsetThen: int): (s: string)
    ensures offsetNow == offsetThen ==>
      s == FormatDate(CivilFromDays((now + 8 * MsPerHour) / MsPerDay)) &&
      ParseDate(s) == Some(CivilFromDays((now + 8 * MsPerHour) / MsPerDay))
  {
    var utc := now + offsetNow * MsPerMinute;
    var localTime := utc + 8 * MsPerHour;
    // getFullYear, getMonth and getDate read the civil date of the instant
    // moved by the zone's offset
    var shifted := localTime - offsetThen * MsPerMinute;
    assert offsetNow == offsetThen ==> shifted == now + 8 * MsPerHour;
    var date := CivilFromDays(shifted / MsPerDay);
    ParseFormatDate(date);
    FormatDate(date)
  }

  /** `req.query.date || getTodayDate()` */
  function StatsDate(query: Option<string>, today: string): string
  {
    if Truthy(query) then query.value else today
  }

  // ---------------------------------------------------------------------
  // The four counts
  // ---------------------------------------------------------------------

  /** `SELECT COUNT(*) FROM employees WHERE status = 'Active'` */
  function ActiveCount(rows: seq<Employees.Employee>): nat
  {
    if rows == [] then 0
    else (if rows[0].status == "Active" then 1 else 0) + ActiveCount(rows[1..])
  }

  function ActiveIds(rows: seq<Employees.Employee>): set<string>
  {
    set e | e in rows && e.status == "Active" :: e.employeeId
  }

  /** The employee_ids counted by `COUNT(DISTINCT employee_id) ... WHERE
      (status = 'Present' OR status = 'Late') AND date = ?` */
  function PresentIds(att: seq<Report.AttendanceRow>, date: string): set<string>
  {
    set a | a in att && a.date == date && (a.status == "Present" || a.status == "Late") :: a.employeeId
  }

  /** ... `WHERE status = 'Late' AND date = ?` */
  function LateIds(att: seq<Report.AttendanceRow>, date: string): set<string>
  {
    set a | a in att && a.date == date && a.status == "Late" :: a.employeeId
  }

  /** `SELECT employee_id FROM attendance WHERE date = ?` */
  function AttendedIds(att: seq<Report.AttendanceRow>, date: string): set<string>
  {
    set a | a in att && a.date == date :: a.employeeId
  }

  /** `SELECT COUNT(*) FROM employees WHERE status = 'Active' AND employee_id
      NOT IN (<attended>)` */
  function AbsentCount(rows: seq<Employees.Employee>, attended: set<string>): nat
  {
    if rows == [] then 0
    else (if rows[0].status == "Active" && rows[0].employeeId !in attended then 1 else 0)
         + AbsentCount(rows[1..], attended)
  }

  datatype Stats = Stats(employees: nat, present: nat, late: nat, absent: nat)

  /** The JSON body of GET /dashboard-stats for one date. */
  function DashboardStats(rows: seq<Employees.Employee>, att: seq<Report.AttendanceRow>, date: string)
    : (s: Stats)
    ensures s.late <= s.present
    ensures s.absent <= s.employees
  {
    LateWithinPresent(att, date);
    AbsentWithinActive(rows, AttendedIds(att, date));
    Stats(ActiveCount(rows), |PresentIds(att, date)|, |LateIds(att, date)|,
          AbsentCount(rows, AttendedIds(att, date)))
  }

  /** The whole request at clock `now`: the query's date, or today's in UTC+8
      when it is missing or empty. */
  function DashboardStatsFor(rows: seq<Employees.Employee>, att: seq<Report.AttendanceRow>,
                             query: Option<string>, now: int, offsetNow: int, offsetThen: int): Stats
  {
    DashboardStats(rows, att, StatsDate(query, TodayDate(now, offsetNow, offsetThen)))
  }

  /** Without a date query the counts are those of the civil date of now + 8
      hours; with one they are those of the query's text, whatever the clock. */
  lemma StatsForDate(rows: seq<Employees.Employee>, att: seq<Report.AttendanceRow>, query: Option<string>,
                     now: int, offset: int, laterNow: int, laterOffsetNow: int, laterOffsetThen: int)
    ensures var today := CivilFromDays((now + 8 * MsPerHour) / MsPerDay);
      !Truthy(query) ==>
        ParseDate(StatsDate(query, TodayDate(now, offset, offset))) == Some(today) &&
        DashboardStatsFor(rows, att, query, now, offset, offset) == DashboardStats(rows, att, FormatDate(today))
    ensures Truthy(query) ==>
      DashboardStatsFor(rows, att, query, now, offset, offset) ==
      DashboardStatsFor(rows, att, query, laterNow, laterOffsetNow, laterOffsetThen) ==
      DashboardStats(rows, att, query.value)
  {
  }

  lemma SubsetCardinality(a: set<string>, b: set<string>)
    requires a <= b
    ensures |a| <= |b|
  {
    assert b == a + (b - a);
  }

  lemma LateWithinPresent(att: seq<Report.AttendanceRow>, date: string)
    ensures |LateIds(att, date)| <= |PresentIds(att, date)|
  {
    SubsetCardinality(LateIds(att, date), PresentIds(att, date));
  }

  lemma {:induction false} AbsentWithinActive(rows: seq<Employees.Employee>, attended: set<string>)
    ensures AbsentCount(rows, attended) <= ActiveCount(rows)
  {
    if rows != [] {
      AbsentWithinActive(rows[1..], attended);
    }
  }

  /** Nobody is absent exactly when every Active employee has a row that date. */
  lemma {:induction false} NoneAbsentIff(rows: seq<Employees.Employee>, attended: set<string>)
    ensures AbsentCount(rows, attended) == 0 <==>
      forall e :: e in rows && e.status == "Active" ==> e.employeeId in attended
  {
    if rows != [] {
      NoneAbsentIff(rows[1..], attended);
      assert rows == [rows[0]] + rows[1..];
    }
  }

  lemma ActiveIdsSplit(rows: seq<Employees.Employee>)
    requires rows != []
    ensures ActiveIds(rows) ==
      (if rows[0].status == "Active" then {rows[0].employeeId} else {}) + ActiveIds(rows[1..])
  {
    assert rows == [rows[0]] + rows[1..];
  }

  /** With employee_id unique, the first count is the number of Active
      employee_ids. */
  lemma {:induction false} ActiveCountAsSet(rows: seq<Employees.Employee>)
    requires Employees.UniqueEmployeeIds(rows)
    ensures ActiveCount(rows) == |ActiveIds(rows)|
  {
    if rows != [] {
      Employees.HeadDistinct(rows);
      assert Employees.UniqueEmployeeIds(rows[1..]);
      ActiveCountAsSet(rows[1..]);
      ActiveIdsSplit(rows);
      assert rows[0].employeeId !in ActiveIds(rows[1..]);
    }
  }

  /** With employee_id unique, the fourth count is the number of Active
      employee_ids with no row that date. */
  lemma {:induction false} AbsentCountAsSet(rows: seq<Employees.Employee>, attended: set<string>)
    requires Employees.UniqueEmployeeIds(rows)
    ensures AbsentCount(rows, attended) == |ActiveIds(rows) - attended|
  {
    if rows != [] {
      Employees.HeadDistinct(rows);
      assert Employees.UniqueEmployeeIds(rows[1..]);
      AbsentCountAsSet(rows[1..], attended);
      ActiveIdsSplit(rows);
      var head := rows[0].employeeId;
      var rest := ActiveIds(rows[1..]) - attended;
      assert head !in ActiveIds(rows[1..]);
      DifferenceStep(rows[0].status == "Active", head, ActiveIds(rows[1..]), attended);
    }
  }

  lemma DifferenceStep(active: bool, head: string, rest: set<string>, attended: set<string>)
    requires head !in rest
    ensures |((if active then {head} else {}) + rest) - attended| ==
      (if active && head !in attended then 1 else 0) + |rest - attended|
  {
    if active && head !in attended {
      assert ({head} + rest) - attended == {head} + (rest - attended);
    } else if active {
      assert ({head} + rest) - attended == rest - attended;
    } else {
      assert ({} + rest) - attended == rest - attended;
    }
  }

  /** When every row of the day is Present or Late and belongs to an Active
      employee, present and absent add up to the roster: 10 Active employees
      with 7 of them attending (5 Present, 2 Late) report 7 present, 3 absent. */
  lemma PresentPlusAbsent(rows: seq<Employees.Employee>, att: seq<Report.AttendanceRow>, date: string)
    requires Employees.UniqueEmployeeIds(rows)
    requires forall a :: a in att && a.date == date ==> a.status == "Present" || a.status == "Late"
    requires AttendedIds(att, date) <= ActiveIds(rows)
    ensures var s := DashboardStats(rows, att, date);
      s.present + s.absent == s.employees
  {
    ActiveCountAsSet(rows);
    AbsentCountAsSet(rows, AttendedIds(att, date));
    assert PresentIds(att, date) == AttendedIds(att, date);
    var a, t := ActiveIds(rows), AttendedIds(att, date);
    assert a == t + (a - t);
  }

  /** present is not bounded by employees: attendance rows of an employee who
      is not Active still count as present. */
  lemma PresentMayExceedEmployees()
    ensures var rows := [Employees.Employee(1, "E-1", Some("Ana"), None, None, None, None, None, "Inactive")];
      var att := [Report.AttendanceRow(7, "E-1", "Ana", "2024-05-02", None, Some(28800), None, "Present", None)];
      DashboardStats(rows, att, "2024-05-02") == Stats(0, 1, 0, 0)
  {
    var rows := [Employees.Employee(1, "E-1", Some("Ana"), None, None, None, None, None, "Inactive")];
    var att := [Report.AttendanceRow(7, "E-1", "Ana", "2024-05-02", None, Some(28800), None, "Present", None)];
    assert PresentIds(att, "2024-05-02") == {"E-1"};
    assert LateIds(att, "2024-05-02") == {};
    assert ActiveCount(rows[1..]) == 0;
    assert AbsentCount(rows[1..], AttendedIds(att, "2024-05-02")) == 0;
  }
}
