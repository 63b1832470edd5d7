/** The roster routes of routes/employee.js: POST / (add), PUT /:employee_id
    (update) and DELETE /:id (delete with its attendance rows). */
module Employees {
  import opened Common
  import Report

  /** One row of `employees`; `id` is the AUTO_INCREMENT primary key and
      `employeeId` the business key, unique in the table. */
  datatype Employee = Employee(
    id: nat,
    employeeId: string,
    name: Option<string>,
    mobilePhone: Option<string>,
    dateOfBirth: Option<string>,
    image: Option<string>,
    faceEmbedding: Option<string>,
    fingerprintId: Option<string>,
    status: string)

  /** The multipart form fields of POST / and PUT /:employee_id; a missing
      field is None. */
  datatype EmployeeForm = EmployeeForm(
    employeeId: Option<string>,
    name: Option<string>,
    mobilePhone: Option<string>,
    dateOfBirth: Option<string>,
    status: Option<string>,
    faceEmbedding: Option<string>,
    fingerprintId: Option<string>)

  datatype EmployeeReply = IdAndNameRequired | IdExists | EmployeeNotFound | Added | Updated | Deleted
  {
    function Status(): nat
    {
      match this
      case IdAndNameRequired => 400
      case IdExists => 400
      case EmployeeNotFound => 404
      case _ => 200
    }

    function Message(): string
    {
      match this
      case IdAndNameRequired => "Employee ID and Name are required"
      case IdExists => "Employee ID already exists"
      case EmployeeNotFound => "Employee not found"
      case Added => "Employee added successfully"
      case Updated => "Employee updated successfully"
      case Deleted => "Employee deleted successfully"
    }
  }

  predicate UniqueIds(rows: seq<Employee>)
  {
    forall i, j :: 0 <= i < j < |rows| ==> rows[i].id != rows[j].id
  }

  predicate UniqueEmployeeIds(rows: seq<Employee>)
  {
    forall i, j :: 0 <= i < j < |rows| ==> rows[i].employeeId != rows[j].employeeId
  }

  predicate HasEmployeeId(rows: seq<Employee>, employeeId: string)
  {
    exists i :: 0 <= i < |rows| && rows[i].employeeId == employeeId
  }

  predicate HasKey(rows: seq<Employee>, key: string)
  {
    exists i :: 0 <= i < |rows| && KeyMatches(key, rows[i].id)
  }

  // ---------------------------------------------------------------------
  // POST /
  // ---------------------------------------------------------------------

  /** The row the INSERT writes: optional fields `|| null`, status `|| "Active"`,
      image the uploaded file's name. */
  function NewEmployee(id: nat, form: EmployeeForm, file: Option<string>): (e: Employee)
    requires Truthy(form.employeeId) && Truthy(form.name)
  {
    Employee(id, form.employeeId.value, form.name, OrNull(form.mobilePhone),
             OrNull(form.dateOfBirth), OrNull(file), OrNull(form.faceEmbedding),
             OrNull(form.fingerprintId), OrElse(form.status, "Active"))
  }

  /** Appending a row with a new employee_id and a fresh id keeps both keys unique. */
  lemma AppendKeepsKeysUnique(rows: seq<Employee>, e: Employee)
    requires UniqueIds(rows) && UniqueEmployeeIds(rows)
    requires !HasEmployeeId(rows, e.employeeId)
    requires forall i :: 0 <= i < |rows| ==> rows[i].id < e.id
    ensures UniqueIds(rows + [e]) && UniqueEmployeeIds(rows + [e])
  {
    var t := rows + [e];
    forall i, j | 0 <= i < j < |t| ensures t[i].employeeId != t[j].employeeId {
      if j == |rows| {
        assert t[i] == rows[i];
      }
    }
  }

  // ---------------------------------------------------------------------
  // PUT /:employee_id
  // ---------------------------------------------------------------------

  /** One `column=?` of the UPDATE's SET list with its parameter. */
  datatype Assignment =
    | SetName(name: Option<string>)
    | SetMobilePhone(mobilePhone: Option<string>)
    | SetDateOfBirth(dateOfBirth: Option<string>)
    | SetStatus(status: string)
    | SetFaceEmbedding(faceEmbedding: Option<string>)
    | SetFingerprintId(fingerprintId: Option<string>)
    | SetImage(image: string)

  function Assign(e: Employee, a: Assignment): Employee
  {
    match a
    case SetName(v) => e.(name := v)
    case SetMobilePhone(v) => e.(mobilePhone := v)
    case SetDateOfBirth(v) => e.(dateOfBirth := v)
    case SetStatus(v) => e.(status := v)
    case SetFaceEmbedding(v) => e.(faceEmbedding := v)
    case SetFingerprintId(v) => e.(fingerprintId := v)
    case SetImage(v) => e.(image := Some(v))
  }

  /** A SET list applied to one row, left to right. */
  function AssignAll(e: Employee, sets: seq<Assignment>): Employee
    decreases sets
  {
    if sets == [] then e else AssignAll(Assign(e, sets[0]), sets[1..])
  }

  /** `UPDATE employees SET <sets> WHERE employee_id = ?` */
  function UpdateWhere(rows: seq<Employee>, employeeId: string, sets: seq<Assignment>): seq<Employee>
  {
    seq(|rows|, i requires 0 <= i < |rows| =>
      if rows[i].employeeId == employeeId then AssignAll(rows[i], sets) else rows[i])
  }

  /** What PUT /:employee_id promises for the matched row: six columns taken
      from the form (with the add route's defaults, except that `name` is
      written as sent), the image only when a file was uploaded, the keys kept. */
  function Edited(e: Employee, form: EmployeeForm, file: Option<string>): Employee
  {
    e.(name := form.name,
       mobilePhone := OrNull(form.mobilePhone),
       dateOfBirth := OrNull(form.dateOfBirth),
       status := OrElse(form.status, "Active"),
       faceEmbedding := OrNull(form.faceEmbedding),
       fingerprintId := OrNull(form.fingerprintId),
       image := if Truthy(file) then file else e.image)
  }

  function EditedRows(rows: seq<Employee>, employeeId: string, form: EmployeeForm, file: Option<string>)
    : seq<Employee>
  {
    seq(|rows|, i requires 0 <= i < |rows| =>
      if rows[i].employeeId == employeeId then Edited(rows[i], form, file) else rows[i])
  }

  /** The SET list the handler builds. */
  function SetList(form: EmployeeForm, file: Option<string>): (sets: seq<Assignment>)
  {
    var base := [SetName(form.name), SetMobilePhone(OrNull(form.mobilePhone)),
                 SetDateOfBirth(OrNull(form.dateOfBirth)), SetStatus(OrElse(form.status, "Active")),
                 SetFaceEmbedding(OrNull(form.faceEmbedding)), SetFingerprintId(OrNull(form.fingerprintId))];
    if Truthy(file) then base + [SetImage(file.value)] else base
  }

  /** The statement the handler assembles does what the route promises. */
  lemma {:induction false} SetListEdits(e: Employee, form: EmployeeForm, file: Option<string>)
    ensures AssignAll(e, SetList(form, file)) == Edited(e, form, file)
  {
    var sets := SetList(form, file);
    var e1 := Assign(e, sets[0]);
    var e2 := Assign(e1, sets[1]);
    var e3 := Assign(e2, sets[2]);
    var e4 := Assign(e3, sets[3]);
    var e5 := Assign(e4, sets[4]);
    var e6 := Assign(e5, sets[5]);
    assert AssignAll(e, sets) == AssignAll(e1, sets[1..]);
    assert AssignAll(e1, sets[1..]) == AssignAll(e2, sets[2..]);
    assert AssignAll(e2, sets[2..]) == AssignAll(e3, sets[3..]);
    assert AssignAll(e3, sets[3..]) == AssignAll(e4, sets[4..]);
    assert AssignAll(e4, sets[4..]) == AssignAll(e5, sets[5..]);
    assert AssignAll(e5, sets[5..]) == AssignAll(e6, sets[6..]);
    if Truthy(file) {
      assert AssignAll(e6, sets[6..]) == AssignAll(Assign(e6, sets[6]), sets[7..]);
      assert sets[7..] == [];
    } else {
      assert sets[6..] == [];
    }
  }

  /** The update changes only the row with that employee_id, never its keys,
      and keeps its image when no file was uploaded. */
  lemma EditedRowsKeepKeys(rows: seq<Employee>, employeeId: string, form: EmployeeForm, file: Option<string>)
    ensures var t := EditedRows(rows, employeeId, form, file);
      |t| == |rows| &&
      (forall i :: 0 <= i < |t| ==> t[i].id == rows[i].id && t[i].employeeId == rows[i].employeeId) &&
      (forall i :: 0 <= i < |t| && rows[i].employeeId != employeeId ==> t[i] == rows[i]) &&
      (!Truthy(file) ==> forall i :: 0 <= i < |t| ==> t[i].image == rows[i].image) &&
      (!HasEmployeeId(rows, employeeId) ==> t == rows)
  {
  }

  // ---------------------------------------------------------------------
  // DELETE /:id
  // ---------------------------------------------------------------------

  /** `DELETE FROM attendance WHERE employee_id = ?` */
  function WithoutAttendanceOf(att: seq<Report.AttendanceRow>, employeeId: string)
    : (r: seq<Report.AttendanceRow>)
    ensures forall a :: a in r <==> a in att && a.employeeId != employeeId
    ensures Report.UniqueIds(att) ==> Report.UniqueIds(r)
  {
    if att == [] then []
    else
      var rest := WithoutAttendanceOf(att[1..], employeeId);
      assert att == [att[0]] + att[1..];
      if att[0].employeeId == employeeId then
        assert Report.UniqueIds(att) ==> Report.UniqueIds(att[1..]);
        rest
      else
        assert Report.UniqueIds(att) ==> Report.UniqueIds([att[0]] + rest) by {
          if Report.UniqueIds(att) {
            Report.HeadIdFresh(att);
            Report.PrependKeepsIds(att[0], rest);
          }
        }
        [att[0]] + rest
  }

  /** `DELETE FROM employees WHERE id = ?`; the row count drops exactly when a
      row matched. */
  function WithoutEmployee(rows: seq<Employee>, key: string): (r: seq<Employee>)
    ensures forall e :: e in r <==> e in rows && !KeyMatches(key, e.id)
    ensures |r| < |rows| <==> HasKey(rows, key)
    ensures |r| <= |rows|
    ensures !HasKey(rows, key) ==> r == rows
  {
    if rows == [] then []
    else
      assert rows == [rows[0]] + rows[1..];
      HasKeySplit(rows, key);
      if KeyMatches(key, rows[0].id) then WithoutEmployee(rows[1..], key)
      else [rows[0]] + WithoutEmployee(rows[1..], key)
  }

  lemma HasKeySplit(rows: seq<Employee>, key: string)
    requires rows != []
    ensures HasKey(rows, key) <==> KeyMatches(key, rows[0].id) || HasKey(rows[1..], key)
  {
    if HasKey(rows, key) && !KeyMatches(key, rows[0].id) {
      var i :| 0 <= i < |rows| && KeyMatches(key, rows[i].id);
      assert rows[1..][i - 1] == rows[i];
    }
    if HasKey(rows[1..], key) {
      var i :| 0 <= i < |rows| - 1 && KeyMatches(key, rows[1..][i].id);
      assert rows[i + 1] == rows[1..][i];
    }
  }

  /** Removing rows keeps both keys unique. */
  lemma {:induction false} WithoutEmployeeKeepsKeys(rows: seq<Employee>, key: string)
    requires UniqueIds(rows) && UniqueEmployeeIds(rows)
    ensures UniqueIds(WithoutEmployee(rows, key)) && UniqueEmployeeIds(WithoutEmployee(rows, key))
  {
    if rows != [] {
      var rest := WithoutEmployee(rows[1..], key);
      assert UniqueIds(rows[1..]) && UniqueEmployeeIds(rows[1..]);
      WithoutEmployeeKeepsKeys(rows[1..], key);
      if !KeyMatches(key, rows[0].id) {
        HeadDistinct(rows);
        assert forall e :: e in rest ==> e in rows[1..];
        PrependKeepsKeys(rows[0], rest);
      }
    }
  }

  /** A row whose two keys no other row has can be put in front. */
  lemma PrependKeepsKeys(e: Employee, rest: seq<Employee>)
    requires UniqueIds(rest) && UniqueEmployeeIds(rest)
    requires forall x :: x in rest ==> x.id != e.id && x.employeeId != e.employeeId
    ensures UniqueIds([e] + rest) && UniqueEmployeeIds([e] + rest)
  {
    var t := [e] + rest;
    forall i, j | 0 <= i < j < |t|
      ensures t[i].id != t[j].id && t[i].employeeId != t[j].employeeId
    {
      assert t[j] == rest[j - 1];
      if i > 0 {
        assert t[i] == rest[i - 1];
      }
    }
  }

  lemma HeadDistinct(rows: seq<Employee>)
    requires rows != []
    ensures UniqueIds(rows) ==> forall e :: e in rows[1..] ==> e.id != rows[0].id
    ensures UniqueEmployeeIds(rows) ==> forall e :: e in rows[1..] ==> e.employeeId != rows[0].employeeId
  {
    forall e | e in rows[1..] ensures UniqueIds(rows) ==> e.id != rows[0].id
      ensures UniqueEmployeeIds(rows) ==> e.employeeId != rows[0].employeeId
    {
      var k :| 0 <= k < |rows| - 1 && rows[1..][k] == e;
      assert rows[k + 1] == e;
    }
  }

  /** Every attendance row names an employee of the roster by employee_id. */
  predicate References(rows: seq<Employee>, att: seq<Report.AttendanceRow>)
  {
    forall a :: a in att ==> HasEmployeeId(rows, a.employeeId)
  }

  /** As written, the cascade removes the attendance rows whose employee_id is
      the path value, while the employee removed is the one whose primary key
      is: deleting employee 1 with employee_id "E-1" leaves its attendance
      row behind, naming an employee that no longer exists. */
  lemma DeleteLeavesOrphan()
    ensures var rows := [Employee(1, "E-1", Some("Ana"), None, None, None, None, None, "Active")];
      var att := [Report.AttendanceRow(7, "E-1", "Ana", "2024-05-02", None, Some(28800), None, "Present", None)];
      References(rows, att) &&
      WithoutEmployee(rows, "1") == [] &&
      WithoutAttendanceOf(att, "1") == att &&
      !References(WithoutEmployee(rows, "1"), WithoutAttendanceOf(att, "1"))
  {
    var rows := [Employee(1, "E-1", Some("Ana"), None, None, None, None, None, "Active")];
    var att := [Report.AttendanceRow(7, "E-1", "Ana", "2024-05-02", None, Some(28800), None, "Present", None)];
    assert DecimalText(1) == "1";
    assert rows[0].employeeId == att[0].employeeId;
    assert References(rows, att);
    var kept := WithoutEmployee(rows, "1");
    assert rows[0] !in kept;
    assert kept == [];
    assert att[0] in WithoutAttendanceOf(att, "1");
    assert WithoutAttendanceOf(att, "1") == att;
  }

  /** With the cascade keyed on the deleted employee's own employee_id, every
      remaining attendance row still names an employee of the roster. */
  lemma DeleteWithAttendanceKeepsReferences(rows: seq<Employee>, att: seq<Report.AttendanceRow>, key: string, i: nat)
    requires UniqueIds(rows) && UniqueEmployeeIds(rows)
    requires References(rows, att)
    requires i < |rows| && KeyMatches(key, rows[i].id)
    ensures References(WithoutEmployee(rows, key), WithoutAttendanceOf(att, rows[i].employeeId))
    ensures forall a :: a in WithoutAttendanceOf(att, rows[i].employeeId) ==> a.employeeId != rows[i].employeeId
  {
    var kept := WithoutEmployee(rows, key);
    forall a | a in WithoutAttendanceOf(att, rows[i].employeeId)
      ensures HasEmployeeId(kept, a.employeeId)
    {
      var j :| 0 <= j < |rows| && rows[j].employeeId == a.employeeId;
      if KeyMatches(key, rows[j].id) {
        KeyMatchesOne(key, rows[i].id, rows[j].id);
        assert false;
      }
      assert rows[j] in kept;
      var k :| 0 <= k < |kept| && kept[k] == rows[j];
    }
  }

  /** The `employees` table, with the AUTO_INCREMENT counter of its primary key. */
  class EmployeeTable {
    var rows: seq<Employee>
    var nextId: nat

    ghost predicate Valid()
      reads this
    {
      UniqueIds(rows) && UniqueEmployeeIds(rows) &&
      (forall i :: 0 <= i < |rows| ==> rows[i].id < nextId)
    }

    constructor ()
      ensures Valid() && rows == [] && nextId == 1
    {
      rows := [];
      nextId := 1;
    }

    /** POST / with the form fields and the uploaded file's name, if any. */
    method Add(form: EmployeeForm, file: Option<string>) returns (reply: EmployeeReply)
      requires Valid()
      modifies this
      ensures Valid()
      ensures reply == IdAndNameRequired <==> !Truthy(form.employeeId) || !Truthy(form.name)
      ensures reply == IdExists <==>
        Truthy(form.employeeId) && Truthy(form.name) && HasEmployeeId(old(rows), form.employeeId.value)
      ensures reply == Added ==>
        rows == old(rows) + [NewEmployee(old(nextId), form, file)] && nextId == old(nextId) + 1
      ensures reply == Added ==> var e := rows[|rows| - 1];
        e.employeeId == form.employeeId.value && e.name == form.name &&
        (e.status == if Truthy(form.status) then form.status.value else "Active") &&
        (e.mobilePhone.None? <==> !Truthy(form.mobilePhone)) &&
        (e.dateOfBirth.None? <==> !Truthy(form.dateOfBirth)) &&
        (e.image.None? <==> !Truthy(file)) &&
        (e.faceEmbedding.None? <==> !Truthy(form.faceEmbedding)) &&
        (e.fingerprintId.None? <==> !Truthy(form.fingerprintId))
      ensures reply != Added ==> rows == old(rows) && nextId == old(nextId)
      ensures reply in {IdAndNameRequired, IdExists, Added}
    {
      if !Truthy(form.employeeId) || !Truthy(form.name) {
        return IdAndNameRequired;
      }
      // the unique key on employee_id rejects the INSERT with ER_DUP_ENTRY
      if exists i :: 0 <= i < |rows| && rows[i].employeeId == form.employeeId.value {
        return IdExists;
      }
      var e := NewEmployee(nextId, form, file);
      AppendKeepsKeysUnique(rows, e);
      rows := rows + [e];
      nextId := nextId + 1;
      reply := Added;
    }

    /** PUT /:employee_id with the form fields and the uploaded file's name, if any. */
    method Update(employeeId: string, form: EmployeeForm, file: Option<string>) returns (reply: EmployeeReply)
      requires Valid()
      modifies this
      ensures Valid() && nextId == old(nextId)
      ensures reply == EmployeeNotFound <==> !HasEmployeeId(old(rows), employeeId)
      ensures reply != EmployeeNotFound ==> reply == Updated
      ensures rows == EditedRows(old(rows), employeeId, form, file)
      ensures reply == EmployeeNotFound ==> rows == old(rows)
    {
      var sets := [SetName(form.name), SetMobilePhone(OrNull(form.mobilePhone)),
                   SetDateOfBirth(OrNull(form.dateOfBirth)), SetStatus(OrElse(form.status, "Active")),
                   SetFaceEmbedding(OrNull(form.faceEmbedding)), SetFingerprintId(OrNull(form.fingerprintId))];
      if Truthy(file) {
        sets := sets + [SetImage(file.value)];
      }
      assert sets == SetList(form, file);
      var matched := exists i :: 0 <= i < |rows| && rows[i].employeeId == employeeId;
      var updated := UpdateWhere(rows, employeeId, sets);
      forall i | 0 <= i < |rows| ensures updated[i] == EditedRows(rows, employeeId, form, file)[i] {
        SetListEdits(rows[i], form, file);
      }
      EditedRowsKeepKeys(rows, employeeId, form, file);
      rows := updated;
      reply := if matched then Updated else EmployeeNotFound;
    }

    /** DELETE /:id as written: attendance rows whose employee_id is the path
        value go first, whether or not an employee with that primary key exists. */
    method Delete(key: string, attendance: Report.AttendanceTable) returns (reply: EmployeeReply)
      requires Valid() && attendance.Valid()
      modifies this, attendance
      ensures Valid() && attendance.Valid() && nextId == old(nextId)
      ensures attendance.rows == WithoutAttendanceOf(old(attendance.rows), key)
      ensures rows == WithoutEmployee(old(rows), key)
      ensures reply == EmployeeNotFound <==> !HasKey(old(rows), key)
      ensures reply == EmployeeNotFound ==> rows == old(rows)
      ensures reply != EmployeeNotFound ==> reply == Deleted
    {
      attendance.rows := WithoutAttendanceOf(attendance.rows, key);
      WithoutEmployeeKeepsKeys(rows, key);
      var before := |rows|;
      rows := WithoutEmployee(rows, key);
      var affectedRows := before - |rows|;
      reply := if affectedRows == 0 then EmployeeNotFound else Deleted;
    }

    /** DELETE /:id with the cascade keyed on the employee_id of the employee
        being deleted; nothing changes when no employee has that primary key. */
    method DeleteWithAttendance(key: string, attendance: Report.AttendanceTable) returns (reply: EmployeeReply)
      requires Valid() && attendance.Valid()
      modifies this, attendance
      ensures Valid() && attendance.Valid() && nextId == old(nextId)
      ensures reply == EmployeeNotFound <==> !HasKey(old(rows), key)
      ensures reply != EmployeeNotFound ==> reply == Deleted
      ensures reply == EmployeeNotFound ==> rows == old(rows) && attendance.rows == old(attendance.rows)
      ensures reply == Deleted ==>
        (exists i :: 0 <= i < |old(rows)| && KeyMatches(key, old(rows)[i].id) &&
           rows == WithoutEmployee(old(rows), key) &&
           attendance.rows == WithoutAttendanceOf(old(attendance.rows), old(rows)[i].employeeId))
      ensures References(old(rows), old(attendance.rows)) ==> References(rows, attendance.rows)
    {
      if !exists i :: 0 <= i < |rows| && KeyMatches(key, rows[i].id) {
        return EmployeeNotFound;
      }
      var i :| 0 <= i < |rows| && KeyMatches(key, rows[i].id);
      var keptRows := WithoutEmployee(rows, key);
      var keptAttendance := WithoutAttendanceOf(attendance.rows, rows[i].employeeId);
      if References(rows, attendance.rows) {
        DeleteWithAttendanceKeepsReferences(rows, attendance.rows, key, i);
      }
      WithoutEmployeeKeepsKeys(rows, key);
      attendance.rows := keptAttendance;
      rows := keptRows;
      reply := Deleted;
    }
  }
}
