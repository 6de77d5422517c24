/**
 * The attendance store of `db.py`: an employee directory and an attendance
 * ledger, each held as a sequence in insertion order, and the operations the
 * bot calls on them. The two autoincrement primary keys are counters in the
 * store; the relational engine, sessions and transactions are not modelled.
 */
module Db {
  import opened Common
  import opened Dates

  /** A row of the `employees` table; `position` is nullable. */
  datatype Employee = Employee(id: int, name: string, position: Option<string>)

  /** A row of the `attendance` table. */
  datatype Attendance = Attendance(id: int, employeeId: int, date: CalendarDate)

  /** One entry of a report or a history: the matching dates as `YYYY-MM-DD` text and their count. */
  datatype Row = Row(name: string, position: Option<string>, days: seq<string>, total: int)

  /** Both tables, in the order the database returns them, and the next key each will hand out. */
  datatype Store = Store(
    employees: seq<Employee>,
    ledger: seq<Attendance>,
    nextEmployeeId: int,
    nextAttendanceId: int)

  function EmployeeKey(e: Employee): int { e.id }

  function RecordKey(a: Attendance): int { a.id }

  /** Primary keys are positive, distinct and below the next key to be handed out. */
  predicate Valid(s: Store) {
    && 1 <= s.nextEmployeeId
    && 1 <= s.nextAttendanceId
    && (forall i :: 0 <= i < |s.employees| ==> 1 <= s.employees[i].id < s.nextEmployeeId)
    && (forall i :: 0 <= i < |s.ledger| ==> 1 <= s.ledger[i].id < s.nextAttendanceId)
    && KeysDistinct(s.employees, EmployeeKey)
    && KeysDistinct(s.ledger, RecordKey)
  }

  /** The freshly created, empty tables. */
  function Empty(): (s: Store)
    ensures Valid(s) && s.employees == [] && s.ledger == []
  {
    Store([], [], 1, 1)
  }

  predicate HasEmployee(s: Store, id: int) {
    exists i :: 0 <= i < |s.employees| && s.employees[i].id == id
  }

  /** `get_employees()`: the directory in the order the table returns it. */
  function ListEmployees(s: Store): seq<Employee> {
    s.employees
  }

  /** `add_employee(name, position)`: one new directory entry under the next primary key. */
  function AddEmployee(s: Store, name: string, position: Option<string>): (r: Store)
    ensures r.ledger == s.ledger
    ensures |r.employees| == |s.employees| + 1 && r.employees[..|s.employees|] == s.employees
    ensures r.employees[|s.employees|].name == name && r.employees[|s.employees|].position == position
    ensures Valid(s) ==> Valid(r) && !HasEmployee(s, r.employees[|s.employees|].id)
  {
    var e := Employee(s.nextEmployeeId, name, position);
    var r := Store(s.employees + [e], s.ledger, s.nextEmployeeId + 1, s.nextAttendanceId);
    assert r.employees[..|s.employees|] == s.employees;
    r
  }

  /** The position of the entry with primary key `id`, as `session.query(Employee).get(id)` finds it. */
  function FindEmployee(employees: seq<Employee>, id: int): (r: Option<nat>)
    ensures r.None? <==> forall i :: 0 <= i < |employees| ==> employees[i].id != id
    ensures r.Some? ==> r.value < |employees| && employees[r.value].id == id
  {
    if |employees| == 0 then None
    else if employees[0].id == id then Some(0)
    else match FindEmployee(employees[1..], id)
      case None => None
      case Some(k) => Some(k + 1)
  }

  /** The directory without the entries keyed `id`. */
  function WithoutEmployee(employees: seq<Employee>, id: int): (r: seq<Employee>)
    ensures forall e :: e in r <==> e in employees && e.id != id
    ensures IsSubsequence(r, employees)
  {
    if |employees| == 0 then []
    else
      var init := employees[..|employees| - 1];
      var last := employees[|employees| - 1];
      assert employees == init + [last];
      var kept := WithoutEmployee(init, id);
      if last.id == id then kept
      else
        assert (kept + [last])[..|kept|] == kept;
        kept + [last]
  }

  /** The ledger without the records of employee `id`: the ORM's cascade on the `attendances` relationship. */
  function WithoutRecordsOf(ledger: seq<Attendance>, id: int): (r: seq<Attendance>)
    ensures forall a :: a in r <==> a in ledger && a.employeeId != id
    ensures IsSubsequence(r, ledger)
  {
    if |ledger| == 0 then []
    else
      var init := ledger[..|ledger| - 1];
      var last := ledger[|ledger| - 1];
      assert ledger == init + [last];
      var kept := WithoutRecordsOf(init, id);
      if last.employeeId == id then kept
      else
        assert (kept + [last])[..|kept|] == kept;
        kept + [last]
  }

  /**
   * `delete_employee(id)`: when the key exists, the entry goes and so does
   * every record that refers to it; an unknown key changes nothing, not even
   * records that carry that key without an entry.
   */
  function DeleteEmployee(s: Store, id: int): (r: Store)
    ensures !HasEmployee(s, id) ==> r == s
    ensures forall e :: e in r.employees <==> e in s.employees && e.id != id
    ensures HasEmployee(s, id) ==> forall a :: a in r.ledger <==> a in s.ledger && a.employeeId != id
    ensures IsSubsequence(r.employees, s.employees) && IsSubsequence(r.ledger, s.ledger)
    ensures Valid(s) ==> Valid(r)
  {
    if !HasEmployee(s, id) then
      SubsequenceReflexive(s.employees);
      SubsequenceReflexive(s.ledger);
      s
    else
      var r := Store(WithoutEmployee(s.employees, id), WithoutRecordsOf(s.ledger, id), s.nextEmployeeId, s.nextAttendanceId);
      assert Valid(s) ==> Valid(r) by {
        if Valid(s) {
          SubsequenceKeysDistinct(r.employees, s.employees, EmployeeKey);
          SubsequenceKeysDistinct(r.ledger, s.ledger, RecordKey);
          SubsequenceMembers(r.employees, s.employees);
          SubsequenceMembers(r.ledger, s.ledger);
          assert forall i :: 0 <= i < |r.employees| ==> r.employees[i] in s.employees;
          assert forall i :: 0 <= i < |r.ledger| ==> r.ledger[i] in s.ledger;
        }
      }
      r
  }

  /**
   * `mark_attendance(employee_id, day)`: one new record, dated `day` or, when
   * no day is given, `today` (the clock read is a parameter). Repeated marks
   * are not merged, and the employee key is not checked.
   */
  function MarkAttendance(s: Store, employeeId: int, day: Option<CalendarDate>, today: CalendarDate): (r: Store)
    ensures r.employees == s.employees
    ensures |r.ledger| == |s.ledger| + 1 && r.ledger[..|s.ledger|] == s.ledger
    ensures r.ledger[|s.ledger|].employeeId == employeeId
    ensures r.ledger[|s.ledger|].date == (if day.Some? then day.value else today)
    ensures Valid(s) ==> Valid(r) && forall i :: 0 <= i < |s.ledger| ==> s.ledger[i].id != r.ledger[|s.ledger|].id
  {
    var a := Attendance(s.nextAttendanceId, employeeId, day.GetOr(today));
    var r := Store(s.employees, s.ledger + [a], s.nextEmployeeId, s.nextAttendanceId + 1);
    assert r.ledger[..|s.ledger|] == s.ledger;
    r
  }

  /** Python truthiness of an optional month or year: `None` and `0` both leave the filter off. */
  predicate IsSet(filter: Option<int>) {
    filter.Some? && filter.value != 0
  }

  /** The `extract('month', ...)` and `extract('year', ...)` conditions, each applied only when set. */
  predicate Matches(d: CalendarDate, month: Option<int>, year: Option<int>) {
    && (!IsSet(month) || d.month == month.value)
    && (!IsSet(year) || d.year == year.value)
  }

  /** The attendance query for one employee under the filter, in ledger order (the query has no `ORDER BY`). */
  function Selected(ledger: seq<Attendance>, employeeId: int, month: Option<int>, year: Option<int>): (r: seq<Attendance>)
    ensures forall a :: a in r <==> a in ledger && a.employeeId == employeeId && Matches(a.date, month, year)
    ensures IsSubsequence(r, ledger)
  {
    if |ledger| == 0 then []
    else
      var init := ledger[..|ledger| - 1];
      var last := ledger[|ledger| - 1];
      assert ledger == init + [last];
      var kept := Selected(init, employeeId, month, year);
      if last.employeeId == employeeId && Matches(last.date, month, year) then
        assert (kept + [last])[..|kept|] == kept;
        kept + [last]
      else kept
  }

  /** `[a.date.strftime("%Y-%m-%d") for a in records]`. */
  function DaysOf(records: seq<Attendance>): seq<string> {
    seq(|records|, i requires 0 <= i < |records| => Format(records[i].date))
  }

  /** The report entry of one employee: name, position, matching days and their count. */
  function RowFor(e: Employee, ledger: seq<Attendance>, month: Option<int>, year: Option<int>): Row {
    var days := DaysOf(Selected(ledger, e.id, month, year));
    Row(e.name, e.position, days, |days|)
  }

  /**
   * `get_attendance_report(month, year)`: one entry per employee in directory
   * order, those without matching records included with no days.
   */
  function Report(s: Store, month: Option<int>, year: Option<int>): (r: seq<Row>)
    ensures |r| == |s.employees|
    ensures forall i :: 0 <= i < |r| ==>
      && r[i].name == s.employees[i].name
      && r[i].position == s.employees[i].position
      && r[i].total == |r[i].days|
      && r[i].days == DaysOf(Selected(s.ledger, s.employees[i].id, month, year))
  {
    seq(|s.employees|, i requires 0 <= i < |s.employees| => RowFor(s.employees[i], s.ledger, month, year))
  }

  /**
   * `get_employee_history(id, month, year)`: `None` for an unknown key,
   * otherwise the entry the report gives that employee under the same filter.
   */
  function History(s: Store, id: int, month: Option<int>, year: Option<int>): (r: Option<Row>)
    ensures r.None? <==> !HasEmployee(s, id)
    ensures r.Some? ==> exists i :: 0 <= i < |s.employees| && s.employees[i].id == id && r.value == Report(s, month, year)[i]
  {
    match FindEmployee(s.employees, id)
    case None => None
    case Some(i) =>
      var e := s.employees[i];
      var days := DaysOf(Selected(s.ledger, id, month, year));
      assert Report(s, month, year)[i] == Row(e.name, e.position, days, |days|);
      Some(Row(e.name, e.position, days, |days|))
  }
}
