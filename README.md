# Attendance back end: report, dashboard, roster and admin routes

A model of the four route files of the kennarbackend Express/MySQL attendance
service. Each MySQL table is an in-memory sequence of rows. Each SQL statement
is a function over those rows, or a method on a table class that reassigns them.

- `common.dfy` (module `Common`): the request fields the handlers read.
  - A missing or null field is `None`.
  - JavaScript truthiness of a field is `Truthy`, and `x || null` / `x || "Active"` are `OrNull` / `OrElse`.
  - A path parameter is text. It matches an INT primary key whose decimal text it is (`KeyMatches`).
- `report.dfy` (module `Report`): GET `/attendance` and PUT `/attendance/:id`.
  - The GET projection is a set of pure functions. It uses SQL's three-valued CASE over nullable TIME values, `working_hours` in hundredths of an hour, and `ORDER BY id DESC`.
  - The PUT is `AttendanceTable.UpdateCheckOut`, a method on a class whose field is the `attendance` table.
- `dashboard.dfy` (module `Dashboard`): GET `/dashboard-stats`.
  - `getTodayDate` works on the proleptic Gregorian calendar: a day number goes to a civil date, shifted to UTC+8, then to `YYYY-MM-DD` text.
  - The two `COUNT(*)` queries over `employees` count rows one by one. The two `COUNT(DISTINCT employee_id)` queries are the sizes of sets of employee_ids.
- `employees.dfy` (module `Employees`): POST `/`, PUT `/:employee_id` and DELETE `/:id`, as methods of `EmployeeTable`.
  - The update builds its SET list step by step, as the handler does.
  - The delete cascades into an `AttendanceTable`.
- `users.dfy` (module `Users`): POST `/login`, POST `/admins` and DELETE `/admins/:id`.
  - Login is a pure function.
  - Adding and deleting are methods of `AdminTable`.
  - The MD5 hex digest is an uninterpreted deterministic function `digest: string -> string`.

Times of day are seconds after midnight (0..86399). The model assumes that the
CASE conditions compare TIME values, so that the literals `'08:15'`, `'07:59'`,
`'17:00'` and `'18:00'` stand for HH:MM:00. `ROUND(x / 3600, 2)` is
rounding to the nearest hundredth with halves away from zero. It is written in
integer hundredths: `d / 36` rounded. mysql2 reports `affectedRows` of an UPDATE
as the number of rows matched, so a 404 means no row matched.

## Model

| member | source | states |
|---|---|---|
| Common.ParseDecimalText | kennarbackend-main/routes/report.js:62 | the decimal text of an id reads back as that id, so a path id names one number |
| Common.KeyMatchesOne | kennarbackend-main/routes/user.js:111 | a path id matches at most one primary key value |
| Common.ParseIntText | kennarbackend-main/routes/Dashboard.js:13-16 | `String(year)` (with a minus sign before the digits when negative) reads back as the year |
| Report.Compare | kennarbackend-main/routes/report.js:22-32 | a comparison of a TIME with a literal is Unknown exactly when the time is NULL |
| Report.InStatus | kennarbackend-main/routes/report.js:22-26 | Late iff time_in is after 08:15:00; Early In iff time_in is at or before 07:59:00; On Time iff time_in is NULL or in 07:59:01..08:15:00 |
| Report.OutStatus | kennarbackend-main/routes/report.js:28-32 | Early Out iff time_out is before 17:00:00; Overtime iff after 18:00:00; On Time iff NULL or in 17:00:00..18:00:00 inclusive |
| Report.RoundedHundredths | kennarbackend-main/routes/report.js:34 | the result is the nearest hundredth of an hour to d/3600, with halves rounded away from zero |
| Report.WorkingHours | kennarbackend-main/routes/report.js:34 | NULL iff time_in or time_out is NULL; otherwise within half a hundredth of (time_out - time_in)/3600, halves away from zero |
| Report.WorkingHoursSign | kennarbackend-main/routes/report.js:34 | working hours are non-negative when time_out is not before time_in, and negative when it is at least 18 seconds before |
| Report.NineAndAHalfHours | kennarbackend-main/routes/report.js:34 | 08:00:00 to 17:30:00 gives 9.50 |
| Report.ProjectCopiesStoredFields | kennarbackend-main/routes/report.js:11-34 | a report row carries the stored row's columns unchanged, with the id as attendance_id, plus the three derived columns |
| Report.ProjectAll | kennarbackend-main/routes/report.js:11-35 | the SELECT list yields one output row per stored row, each the projection of that row |
| Report.InsertById | kennarbackend-main/routes/report.js:36 | placing a row into the ordered result adds exactly that row and nothing else |
| Report.InsertByIdOrdered | kennarbackend-main/routes/report.js:36 | placing a row keeps the ids non-increasing, and strictly descending when the new id is fresh |
| Report.AttendanceReport | kennarbackend-main/routes/report.js:11-37 | the result is a permutation of the projected rows, ordered by id descending (strictly, since ids are a primary key) |
| Report.ReportShowsRow | kennarbackend-main/routes/report.js:11-37 | every stored row appears in the report with its derived columns |
| Report.CheckedOutChangesOneRow | kennarbackend-main/routes/report.js:59-63 | the UPDATE keeps the table's length and ids; the row with that id gets the new time_out and working_hours and nothing else of it changes; every other row is unchanged |
| Report.CheckedOutMissingKeepsTable | kennarbackend-main/routes/report.js:59-63 | an UPDATE whose id matches no row leaves the table as it was |
| Report.ReportAfterCheckOut | kennarbackend-main/routes/report.js:59-63 | after a check-out the report shows the new out_status and hours computed from the two times, whatever working_hours the client sent |
| Report.AttendanceTable.UpdateCheckOut | kennarbackend-main/routes/report.js:51-72 | 400 iff time_out is falsy or working_hours is undefined (0 and null are accepted); else 404 iff no row has the id; else the table becomes the checked-out table; the table is unchanged on 400 and 404 |
| Dashboard.YearOf | kennarbackend-main/routes/Dashboard.js:13 | the year and day-of-year found for a day number add back up to that day number |
| Dashboard.MonthOf | kennarbackend-main/routes/Dashboard.js:14-15 | the month and day-of-month found for a day-of-year add back up to it and form a valid date |
| Dashboard.CivilFromDays | kennarbackend-main/routes/Dashboard.js:12-15 | the year, month and day read from an instant form a valid date whose day number is that instant's day |
| Dashboard.DaysFromCivilInjective | kennarbackend-main/routes/Dashboard.js:12-15 | distinct valid dates have distinct day numbers |
| Dashboard.CivilFromDaysOfCivil | kennarbackend-main/routes/Dashboard.js:12-15 | every valid date is the civil date of its own day number, so days and dates correspond one to one |
| Dashboard.TwoDigits | kennarbackend-main/routes/Dashboard.js:14-15 | `padStart(2, '0')` of a month or day number is two digits that read back as the number |
| Dashboard.ParseFormatDate | kennarbackend-main/routes/Dashboard.js:13-16 | the `${year}-${month}-${day}` text of a valid date reads back as that date |
| Dashboard.FormatDateIsExtended | kennarbackend-main/routes/Dashboard.js:13-16 | for four-digit years the text is exactly YYYY-MM-DD, the extended calendar-date form of section 4.1.2.2 of ISO 8601:2004 |
| Dashboard.TodayDate | kennarbackend-main/routes/Dashboard.js:8-17 | when the zone offset is the same at both instants, the text is exactly the `${year}-MM-DD` text of the civil date, in UTC, of now + 8 hours, and it reads back as that date |
| Dashboard.StatsForDate | kennarbackend-main/routes/Dashboard.js:21-66 | without a truthy date query the counts are those of the civil date of now + 8 hours; with one they are those of the query text, whatever the clock |
| Dashboard.DashboardStats | kennarbackend-main/routes/Dashboard.js:29-66 | the four counts of one date satisfy late <= present and absent <= employees |
| Dashboard.LateWithinPresent | kennarbackend-main/routes/Dashboard.js:33-46 | the distinct Late employee_ids of a date are at most the distinct Present-or-Late ones |
| Dashboard.AbsentWithinActive | kennarbackend-main/routes/Dashboard.js:48-56 | the absent count never exceeds the Active count |
| Dashboard.NoneAbsentIff | kennarbackend-main/routes/Dashboard.js:48-56 | absent is 0 exactly when every Active employee has an attendance row that date |
| Dashboard.ActiveCountAsSet | kennarbackend-main/routes/Dashboard.js:30 | with employee_id unique, employees is the number of Active employee_ids |
| Dashboard.AbsentCountAsSet | kennarbackend-main/routes/Dashboard.js:48-56 | with employee_id unique, absent is the size of the Active employee_ids minus those with a row that date |
| Dashboard.PresentPlusAbsent | kennarbackend-main/routes/Dashboard.js:29-66 | when every row of the date is Present or Late and belongs to an Active employee, present + absent = employees |
| Dashboard.PresentMayExceedEmployees | kennarbackend-main/routes/Dashboard.js:33-38 | an Inactive employee with a Present row gives employees 0 and present 1, so present <= employees does not hold |
| Employees.AppendKeepsKeysUnique | kennarbackend-main/routes/employee.js:80-94 | inserting a row with a new employee_id and a fresh id keeps id and employee_id unique |
| Employees.EmployeeTable.Add | kennarbackend-main/routes/employee.js:57-100 | 400 "required" iff employee_id or name is falsy; 400 "exists" iff the employee_id is taken; otherwise exactly the defaulted row is appended; nothing changes on a 400 |
| Employees.SetListEdits | kennarbackend-main/routes/employee.js:117-135 | the SET list the handler assembles, applied to a row, sets the six columns with their defaults and the image only when a file was uploaded |
| Employees.EditedRowsKeepKeys | kennarbackend-main/routes/employee.js:117-141 | the update changes only rows with that employee_id, never their keys, keeps images when no file came, and changes nothing when no row matches |
| Employees.EmployeeTable.Update | kennarbackend-main/routes/employee.js:103-148 | 404 iff no row has the employee_id; the table becomes the edited table, unchanged on 404 |
| Employees.WithoutAttendanceOf | kennarbackend-main/routes/employee.js:156 | exactly the attendance rows with a different employee_id remain, and attendance ids stay unique |
| Employees.WithoutEmployee | kennarbackend-main/routes/employee.js:159 | exactly the rows whose primary key is not the path id remain; the table shrinks iff some row matched, and is unchanged when none did |
| Employees.WithoutEmployeeKeepsKeys | kennarbackend-main/routes/employee.js:159 | deleting keeps id and employee_id unique |
| Employees.EmployeeTable.Delete | kennarbackend-main/routes/employee.js:151-165 | as written: attendance rows whose employee_id is the path value go, then the employee whose primary key is it; 404 iff no employee matched, with the roster unchanged, even though the attendance rows are already gone |
| Employees.DeleteLeavesOrphan | kennarbackend-main/routes/employee.js:156-159 | deleting employee 1 (employee_id "E-1") keeps its attendance row, which then names no employee |
| Employees.DeleteWithAttendanceKeepsReferences | kennarbackend-main/routes/employee.js:156-159 | keying the cascade on the deleted employee's own employee_id leaves every remaining attendance row naming an employee |
| Employees.EmployeeTable.DeleteWithAttendance | kennarbackend-main/routes/employee.js:151-165 | corrected delete: 404 with no change iff no employee has the id; otherwise that employee and its attendance rows go, and attendance keeps referring only to employees |
| Users.FindByUsername | kennarbackend-main/routes/user.js:19-30 | the row found has the username and is in the table; nothing is found iff no admin has it |
| Users.Login | kennarbackend-main/routes/user.js:9-46 | 400 iff username or password is falsy; a success returns the admin_name and employee_id of an admin with that username whose stored password is the digest of the password |
| Users.LoginSucceedsIff | kennarbackend-main/routes/user.js:19-46 | with unique usernames, login succeeds iff some admin has the username and the digest of the password |
| Users.UnknownUserLikeWrongPassword | kennarbackend-main/routes/user.js:24-40 | an unknown username and a wrong password give the same 401 reply |
| Users.FindAfterAppend | kennarbackend-main/routes/user.js:63-81 | after inserting an admin with a new username, the lookup by that username finds it |
| Users.LoginAfterAdd | kennarbackend-main/routes/user.js:73-81 | an admin stored with the digest of a password logs in with that password |
| Users.AdminTable.AddAdmin | kennarbackend-main/routes/user.js:54-88 | 400 iff a field is falsy; 409 iff the username is taken; otherwise the row with the digest is appended, the 201 reply omits the password, and a login with the same username and password succeeds; nothing changes on 400 or 409 |
| Users.WithoutAdmin | kennarbackend-main/routes/user.js:111 | exactly the rows whose id is not the path id remain; the table shrinks iff some row matched, and is unchanged when none did |
| Users.WithoutAdminKeepsKeys | kennarbackend-main/routes/user.js:111 | deleting keeps ids and usernames unique |
| Users.WithoutAdminRemovesOne | kennarbackend-main/routes/user.js:111-114 | with unique ids, deleting an existing id removes exactly one row, and a missing id removes none |
| Users.AdminTable.DeleteAdmin | kennarbackend-main/routes/user.js:107-115 | the table becomes the table without that id; 404 iff no row had it, and then the table is unchanged |

## Left out

- The 500 replies and `console` logging: a failed database call is outside the model.
- The `Promise.all` of the dashboard: the four queries are read from one snapshot of the tables.
- The race between the username check and the INSERT of POST `/admins`: the check and the insert run on one snapshot.
- Multer's disk storage and the generated file name: the uploaded file's name is an optional input.
- The image route of `routes/employee.js` (lines 21-42): it uses an undefined `app`, and its base64 encoding is Node's `Buffer`.
- GET `/` of the roster and GET `/admins`: they return whole tables and state nothing beyond them.
- MD5: it is the parameter `digest`, deterministic and otherwise unconstrained.
- MySQL string comparison: the default collation compares case-insensitively and ignores trailing spaces. The model compares strings exactly.
- MySQL's lenient string-to-number coercion of path ids: a path id matches only the canonical decimal text of a key.
- Text columns compared with NULL: `status`, `date` and `employee_id` are never NULL in the model, so `NOT IN` over a NULL employee_id is not modelled.
- The `|| 0` defaults of the dashboard: `COUNT` never yields NULL, so they change nothing.
- TIME and DATETIME: `time_in` and `time_out` are times of day. Values outside 00:00:00..23:59:59 and date parts are not modelled.
- The content of `time_out`: a truthy time_out is a time of day. A string that is not a time is not modelled.
- The content of `working_hours` in PUT `/attendance/:id`: the handler passes any JSON value to MySQL. The model takes a NULL or a whole number of hundredths of an hour; values with more decimals (9.555), strings and MySQL's conversion of them are not modelled.
- The `date` of the dashboard query is compared as exact text with the stored date. MySQL converts a text such as `2024-5-2` when it compares it with a DATE column; only canonical `YYYY-MM-DD` texts are modelled.
- Employees.EmployeeTable.Add: a rejected INSERT does not advance `nextId`, although InnoDB may leave a gap in the AUTO_INCREMENT counter.
- Dashboard.TodayDate: its contract holds only when the server zone's offset is the same at both instants it reads. The offsets are inputs, not a time-zone database, and across a daylight-saving change the result is computed but not characterised.
- The clock `new Date()` is the input `now`.
- Report.InStatus / Report.OutStatus: the CASE comparisons are read as TIME comparisons against HH:MM:00. `TIME(x)` yields its value as a string, and if the server compared the `HH:MM:SS` text with the five-character literal as text, exactly three times would change branch: time_in 08:15:00 would be Late, time_in 07:59:00 On Time, and time_out 18:00:00 Overtime.
- A NULL time falls through to On Time in both CASE expressions, as the code does; there is no separate "Pending" status.
- The dashboard guarantees late <= present and absent <= employees. present <= employees does not hold, because rows of employees who are not Active count as present (Dashboard.PresentMayExceedEmployees).

## Findings

| source | as written | input that shows it | evidently intended | confidence | as-written member | corrected member |
|---|---|---|---|---|---|---|
| kennarbackend-main/routes/employee.js:156-159 | DELETE `/:id` removes attendance rows whose employee_id equals the path value, then the employee whose primary key equals it | employee with id 1 and employee_id "E-1" and one attendance row for "E-1"; DELETE `/1` removes the employee and keeps the row, which then names no employee | remove the attendance rows of the employee being deleted, i.e. those carrying that employee's employee_id | not executed | Employees.DeleteLeavesOrphan | Employees.EmployeeTable.DeleteWithAttendance |
