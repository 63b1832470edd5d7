/** GET /attendance (the report projection) and PUT /attendance/:id (check-out)
    over the `attendance` table. */
module Report {
  import opened Common

  /** A time of day in seconds after midnight: what TIME(x) yields for a row. */
  type Seconds = s: int | 0 <= s < 86400

  /** The literals of the CASE expressions, read as TIME values ('HH:MM' as HH:MM:00). */
  const LateAfter: Seconds := 8 * 3600 + 15 * 60        // '08:15'
  const EarlyInUntil: Seconds := 7 * 3600 + 59 * 60     // '07:59'
  const EarlyOutBefore: Seconds := 17 * 3600            // '17:00'
  const OvertimeAfter: Seconds := 18 * 3600             // '18:00'

  /** One row of `attendance`. `workingHours` is the stored column, in
      hundredths of an hour; `timeOut` is NULL until check-out. */
  datatype AttendanceRow = AttendanceRow(
    id: nat,
    employeeId: string,
    fullname: string,
    date: string,
    temperature: Option<real>,
    timeIn: Option<Seconds>,
    timeOut: Option<Seconds>,
    status: string,
    workingHours: Option<int>)

  /** The labels the two CASE expressions produce. */
  datatype Label = Late | EarlyIn | OnTime | EarlyOut | Overtime
  {
    function Text(): string
    {
      match this
      case Late => "Late"
      case EarlyIn => "Early In"
      case OnTime => "On Time"
      case EarlyOut => "Early Out"
      case Overtime => "Overtime"
    }
  }

  // ---------------------------------------------------------------------
  // SQL conditions over a nullable time
  // ---------------------------------------------------------------------

  /** SQL's three truth values: a comparison with NULL is Unknown. */
  datatype Truth = True | False | Unknown

  datatype Comparison = Less | AtMost | Greater

  function Compare(t: Option<Seconds>, op: Comparison, bound: Seconds): (r: Truth)
    ensures r == Unknown <==> t.None?
  {
    match t
    case None => Unknown
    case Some(v) =>
      var holds := match op
        case Less => v < bound
        case AtMost => v <= bound
        case Greater => v > bound;
      if holds then True else False
  }

  /** `CASE WHEN c1 THEN l1 WHEN c2 THEN l2 ELSE otherwise END`: the first
      branch whose condition is True; Unknown counts as not taken. */
  function Case(c1: Truth, l1: Label, c2: Truth, l2: Label, otherwise: Label): Label
  {
    if c1 == True then l1
    else if c2 == True then l2
    else otherwise
  }

  /** in_status of report.js. */
  function InStatus(timeIn: Option<Seconds>): (s: Label)
    ensures s == Late <==> timeIn.Some? && timeIn.value > LateAfter
    ensures s == EarlyIn <==> timeIn.Some? && timeIn.value <= EarlyInUntil
    ensures s == OnTime <==> timeIn.None? || EarlyInUntil < timeIn.value <= LateAfter
  {
    Case(Compare(timeIn, Greater, LateAfter), Late,
         Compare(timeIn, AtMost, EarlyInUntil), EarlyIn,
         OnTime)
  }

  /** out_status of report.js. */
  function OutStatus(timeOut: Option<Seconds>): (s: Label)
    ensures s == EarlyOut <==> timeOut.Some? && timeOut.value < EarlyOutBefore
    ensures s == Overtime <==> timeOut.Some? && timeOut.value > OvertimeAfter
    ensures s == OnTime <==> timeOut.None? || EarlyOutBefore <= timeOut.value <= OvertimeAfter
  {
    Case(Compare(timeOut, Less, EarlyOutBefore), EarlyOut,
         Compare(timeOut, Greater, OvertimeAfter), Overtime,
         OnTime)
  }

  // ---------------------------------------------------------------------
  // Working hours
  // ---------------------------------------------------------------------

  /** ROUND(d / 3600, 2) for a difference of `d` seconds, in hundredths of an
      hour: d / 36 rounded to the nearest integer, halves away from zero. */
  function RoundedHundredths(d: int): (h: int)
    ensures d >= 0 ==> 36 * h - 18 <= d < 36 * h + 18
    ensures d < 0 ==> 36 * h - 18 < d <= 36 * h + 18
  {
    if d >= 0 then (d + 18) / 36 else -((18 - d) / 36)
  }

  /** ROUND(TIME_TO_SEC(TIMEDIFF(time_out, time_in)) / 3600, 2): NULL when
      either time is NULL. */
  function WorkingHours(timeIn: Option<Seconds>, timeOut: Option<Seconds>): (r: Option<int>)
    ensures r.None? <==> timeIn.None? || timeOut.None?
    ensures r.Some? ==> var d := timeOut.value - timeIn.value;
      (d >= 0 ==> 36 * r.value - 18 <= d < 36 * r.value + 18) &&
      (d < 0 ==> 36 * r.value - 18 < d <= 36 * r.value + 18)
  {
    if timeIn.Some? && timeOut.Some? then Some(RoundedHundredths(timeOut.value - timeIn.value))
    else None
  }

  /** The sign of the result follows the order of the two times. */
  lemma WorkingHoursSign(timeIn: Seconds, timeOut: Seconds)
    ensures var h := WorkingHours(Some(timeIn), Some(timeOut)).value;
      (timeOut >= timeIn ==> h >= 0) &&
      (timeOut < timeIn ==> h <= 0) &&
      (timeIn - timeOut >= 18 ==> h < 0)
  {
  }

  /** 08:00:00 to 17:30:00 gives 9.50 hours. */
  lemma NineAndAHalfHours()
    ensures WorkingHours(Some(8 * 3600), Some(17 * 3600 + 30 * 60)) == Some(950)
  {
  }

  // ---------------------------------------------------------------------
  // The report projection
  // ---------------------------------------------------------------------

  /** One row of the GET /attendance result; `attendanceId` is `id AS attendance_id`,
      and `workingHours` is computed, not the stored column. */
  datatype ReportRow = ReportRow(
    attendanceId: nat,
    employeeId: string,
    fullname: string,
    date: string,
    temperature: Option<real>,
    timeIn: Option<Seconds>,
    timeOut: Option<Seconds>,
    status: string,
    inStatus: Label,
    outStatus: Label,
    workingHours: Option<int>)

  /** The SELECT list applied to one row. */
  function Project(a: AttendanceRow): ReportRow
  {
    ReportRow(a.id, a.employeeId, a.fullname, a.date, a.temperature, a.timeIn, a.timeOut,
              a.status, InStatus(a.timeIn), OutStatus(a.timeOut),
              WorkingHours(a.timeIn, a.timeOut))
  }

  /** The stored row a report row shows, given the stored working_hours
      column that the SELECT list leaves out. */
  function Stored(r: ReportRow, storedHours: Option<int>): AttendanceRow
  {
    AttendanceRow(r.attendanceId, r.employeeId, r.fullname, r.date, r.temperature,
                  r.timeIn, r.timeOut, r.status, storedHours)
  }

  /** The projection copies every selected column unchanged and derives the rest. */
  lemma ProjectCopiesStoredFields(a: AttendanceRow)
    ensures Stored(Project(a), a.workingHours) == a
    ensures Project(a).inStatus == InStatus(a.timeIn)
    ensures Project(a).outStatus == OutStatus(a.timeOut)
    ensures Project(a).workingHours == WorkingHours(a.timeIn, a.timeOut)
  {
  }

  function ProjectAll(table: seq<AttendanceRow>): (r: seq<ReportRow>)
    ensures |r| == |table|
    ensures forall k :: 0 <= k < |table| ==> r[k] == Project(table[k])
  {
    if table == [] then [] else [Project(table[0])] + ProjectAll(table[1..])
  }

  predicate UniqueIds(table: seq<AttendanceRow>)
  {
    forall i, j :: 0 <= i < j < |table| ==> table[i].id != table[j].id
  }

  /** Each report row's id is at least the next one's. */
  predicate IdsNonIncreasing(s: seq<ReportRow>)
  {
    forall i :: 0 <= i < |s| - 1 ==> s[i].attendanceId >= s[i + 1].attendanceId
  }

  /** Each report row's id is larger than the next one's. */
  predicate IdsDescending(s: seq<ReportRow>)
  {
    forall i :: 0 <= i < |s| - 1 ==> s[i].attendanceId > s[i + 1].attendanceId
  }

  /** Places `r` in front of the first row whose id is not larger. */
  function InsertById(r: ReportRow, s: seq<ReportRow>): (t: seq<ReportRow>)
    ensures |t| == |s| + 1
    ensures multiset(t) == multiset(s) + multiset{r}
    ensures t[0] == r || (s != [] && t[0] == s[0])
  {
    if s == [] || s[0].attendanceId <= r.attendanceId then [r] + s
    else
      assert s == [s[0]] + s[1..];
      [s[0]] + InsertById(r, s[1..])
  }

  lemma {:induction false} InsertByIdOrdered(r: ReportRow, s: seq<ReportRow>)
    requires IdsNonIncreasing(s)
    ensures IdsNonIncreasing(InsertById(r, s))
    ensures IdsDescending(s) && (forall x :: x in s ==> x.attendanceId != r.attendanceId)
            ==> IdsDescending(InsertById(r, s))
  {
    if s != [] && s[0].attendanceId > r.attendanceId {
      var rest := InsertById(r, s[1..]);
      InsertByIdOrdered(r, s[1..]);
      assert InsertById(r, s) == [s[0]] + rest;
    }
  }

  /** `SELECT ... FROM attendance ORDER BY id DESC`: one report row per stored
      row, ordered by id from the largest down. */
  function AttendanceReport(table: seq<AttendanceRow>): (r: seq<ReportRow>)
    ensures |r| == |table|
    ensures multiset(r) == multiset(ProjectAll(table))
    ensures IdsNonIncreasing(r)
    ensures UniqueIds(table) ==> IdsDescending(r)
  {
    if table == [] then []
    else
      var rest := AttendanceReport(table[1..]);
      var r := InsertById(Project(table[0]), rest);
      assert ProjectAll(table) == [Project(table[0])] + ProjectAll(table[1..]);
      InsertByIdOrdered(Project(table[0]), rest);
      if UniqueIds(table) then
        HeadIdFresh(table);
        RowIdsAmong(table[1..], rest, table[0].id);
        r
      else
        r
  }

  lemma HeadIdFresh(table: seq<AttendanceRow>)
    requires table != [] && UniqueIds(table)
    ensures UniqueIds(table[1..])
    ensures forall a :: a in table[1..] ==> a.id != table[0].id
  {
    forall a | a in table[1..] ensures a.id != table[0].id {
      var k :| 0 <= k < |table| - 1 && table[1..][k] == a;
      assert table[k + 1] == a;
    }
  }

  /** A row whose id no other row has can be put in front. */
  lemma PrependKeepsIds(r: AttendanceRow, rest: seq<AttendanceRow>)
    requires UniqueIds(rest)
    requires forall a :: a in rest ==> a.id != r.id
    ensures UniqueIds([r] + rest)
  {
    var t := [r] + rest;
    forall i, j | 0 <= i < j < |t| ensures t[i].id != t[j].id {
      assert t[j] == rest[j - 1];
      if i > 0 {
        assert t[i] == rest[i - 1];
      }
    }
  }

  /** A row of the report of `table` carries the id of some row of `table`. */
  lemma RowIdsAmong(table: seq<AttendanceRow>, s: seq<ReportRow>, id: nat)
    requires multiset(s) == multiset(ProjectAll(table))
    requires forall a :: a in table ==> a.id != id
    ensures forall x :: x in s ==> x.attendanceId != id
  {
    forall x | x in s ensures x.attendanceId != id {
      assert x in multiset(ProjectAll(table));
      var k :| 0 <= k < |table| && ProjectAll(table)[k] == x;
      assert table[k] in table;
    }
  }

  /** A stored row shows up in the report with its derived columns. */
  lemma ReportShowsRow(table: seq<AttendanceRow>, k: nat)
    requires k < |table|
    ensures Project(table[k]) in AttendanceReport(table)
  {
    assert ProjectAll(table)[k] == Project(table[k]);
    assert Project(table[k]) in multiset(ProjectAll(table));
  }

  // ---------------------------------------------------------------------
  // PUT /attendance/:id
  // ---------------------------------------------------------------------

  datatype UpdateReply = MissingFields | RecordNotFound | Updated
  {
    function Status(): nat
    {
      match this
      case MissingFields => 400
      case RecordNotFound => 404
      case Updated => 200
    }
  }

  predicate HasRow(table: seq<AttendanceRow>, key: string)
  {
    exists i :: 0 <= i < |table| && KeyMatches(key, table[i].id)
  }

  /** `UPDATE attendance SET time_out = ?, working_hours = ? WHERE id = ?` */
  function CheckedOut(table: seq<AttendanceRow>, key: string, timeOut: Seconds, hours: Option<int>)
    : seq<AttendanceRow>
  {
    seq(|table|, i requires 0 <= i < |table| =>
      if KeyMatches(key, table[i].id) then table[i].(timeOut := Some(timeOut), workingHours := hours)
      else table[i])
  }

  /** The update changes at most the one row with that id, and only its
      time_out and working_hours; the row keeps its id. */
  lemma CheckedOutChangesOneRow(table: seq<AttendanceRow>, key: string, timeOut: Seconds, hours: Option<int>)
    requires UniqueIds(table)
    ensures var t := CheckedOut(table, key, timeOut, hours);
      |t| == |table| && UniqueIds(t) &&
      (forall i :: 0 <= i < |t| && KeyMatches(key, table[i].id) ==>
         t[i] == table[i].(timeOut := Some(timeOut), workingHours := hours)) &&
      (forall i :: 0 <= i < |t| ==>
         (t[i] == table[i] ||
          (KeyMatches(key, table[i].id) &&
           t[i] == table[i].(timeOut := Some(timeOut), workingHours := hours)))) &&
      (forall i, j :: 0 <= i < j < |t| ==> t[i] == table[i] || t[j] == table[j])
  {
    var t := CheckedOut(table, key, timeOut, hours);
    forall i, j | 0 <= i < j < |t| ensures t[i] == table[i] || t[j] == table[j] {
      if KeyMatches(key, table[i].id) && KeyMatches(key, table[j].id) {
        KeyMatchesOne(key, table[i].id, table[j].id);
      }
    }
  }

  lemma CheckedOutMissingKeepsTable(table: seq<AttendanceRow>, key: string, timeOut: Seconds, hours: Option<int>)
    requires !HasRow(table, key)
    ensures CheckedOut(table, key, timeOut, hours) == table
  {
  }

  /** After a check-out the report shows the new out_status and the working
      hours computed from the two times, whatever hours the client sent. */
  lemma ReportAfterCheckOut(table: seq<AttendanceRow>, k: nat, timeOut: Seconds, hours: Option<int>)
    requires k < |table|
    ensures var row := Project(CheckedOut(table, DecimalText(table[k].id), timeOut, hours)[k]);
      row in AttendanceReport(CheckedOut(table, DecimalText(table[k].id), timeOut, hours)) &&
      row.attendanceId == table[k].id &&
      row.outStatus == OutStatus(Some(timeOut)) &&
      row.workingHours == WorkingHours(table[k].timeIn, Some(timeOut))
  {
    ReportShowsRow(CheckedOut(table, DecimalText(table[k].id), timeOut, hours), k);
  }

  /** The `attendance` table as the PUT handler sees it. */
  class AttendanceTable {
    var rows: seq<AttendanceRow>

    ghost predicate Valid()
      reads this
    {
      UniqueIds(rows)
    }

    constructor (initial: seq<AttendanceRow>)
      requires UniqueIds(initial)
      ensures Valid() && rows == initial
    {
      rows := initial;
    }

    /** PUT /attendance/:id with body `{time_out, working_hours}`. A falsy
        time_out is None; working_hours is Undefined when the key is absent. */
    method UpdateCheckOut(key: string, timeOut: Option<Seconds>, workingHours: Given<Option<int>>)
      returns (reply: UpdateReply)
      requires Valid()
      modifies this
      ensures Valid()
      ensures reply == MissingFields <==> timeOut.None? || workingHours.Undefined?
      ensures reply == RecordNotFound <==>
        timeOut.Some? && workingHours.Given? && !HasRow(old(rows), key)
      ensures reply == Updated ==>
        rows == CheckedOut(old(rows), key, timeOut.value, workingHours.value)
      ensures reply != Updated ==> rows == old(rows)
    {
      if timeOut.None? || workingHours.Undefined? {
        return MissingFields;
      }
      // affectedRows counts the rows the WHERE clause matched
      if !HasRow(rows, key) {
        return RecordNotFound;
      }
      var updated := CheckedOut(rows, key, timeOut.value, workingHours.value);
      CheckedOutChangesOneRow(rows, key, timeOut.value, workingHours.value);
      rows := updated;
      reply := Updated;
    }
  }
}
