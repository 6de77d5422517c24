/**
 * Properties that relate several operations of the attendance store: how a
 * report changes when the directory or the ledger changes, what the month and
 * year filters select, and how a history agrees with the report.
 */
module StoreProperties {
  import opened Common
  import opened Dates
  import opened Db

  /** Appending a record extends a query by that record exactly when it belongs and matches. */
  lemma SelectedSnoc(ledger: seq<Attendance>, a: Attendance, id: int, month: Option<int>, year: Option<int>)
    ensures Selected(ledger + [a], id, month, year) ==
      Selected(ledger, id, month, year) + (if a.employeeId == id && Matches(a.date, month, year) then [a] else [])
  {
    assert (ledger + [a])[..|ledger|] == ledger;
  }

  lemma DaysOfSnoc(records: seq<Attendance>, a: Attendance)
    ensures DaysOf(records + [a]) == DaysOf(records) + [Format(a.date)]
  {
  }

  /** Formatting keeps the subsequence relation between two query results. */
  lemma {:induction false} DaysOfSubsequence(a: seq<Attendance>, b: seq<Attendance>)
    requires IsSubsequence(a, b)
    ensures IsSubsequence(DaysOf(a), DaysOf(b))
    decreases |b|
  {
    if |a| > 0 {
      var a', b' := a[..|a| - 1], b[..|b| - 1];
      assert a == a' + [a[|a| - 1]] && b == b' + [b[|b| - 1]];
      DaysOfSnoc(a', a[|a| - 1]);
      DaysOfSnoc(b', b[|b| - 1]);
      var da, db := DaysOf(a), DaysOf(b);
      assert da[..|da| - 1] == DaysOf(a') && db[..|db| - 1] == DaysOf(b');
      if a[|a| - 1] == b[|b| - 1] && IsSubsequence(a', b') {
        DaysOfSubsequence(a', b');
      } else {
        DaysOfSubsequence(a, b');
      }
    }
  }

  /** A month or year of `None` or `0` selects the same records as no filter at all. */
  lemma {:induction false} UnsetFilterSelectsAll(ledger: seq<Attendance>, id: int, month: Option<int>, year: Option<int>)
    requires !IsSet(month) && !IsSet(year)
    ensures Selected(ledger, id, month, year) == Selected(ledger, id, None, None)
    ensures forall a :: a in Selected(ledger, id, month, year) <==> a in ledger && a.employeeId == id
    decreases |ledger|
  {
    if |ledger| > 0 {
      var init, last := ledger[..|ledger| - 1], ledger[|ledger| - 1];
      assert ledger == init + [last];
      UnsetFilterSelectsAll(init, id, month, year);
      SelectedSnoc(init, last, id, month, year);
      SelectedSnoc(init, last, id, None, None);
    }
  }

  /** A filtered query keeps a subsequence of the unfiltered one: nothing is added or reordered. */
  lemma {:induction false} FilteredIsSubsequence(ledger: seq<Attendance>, id: int, month: Option<int>, year: Option<int>)
    ensures IsSubsequence(Selected(ledger, id, month, year), Selected(ledger, id, None, None))
    decreases |ledger|
  {
    if |ledger| > 0 {
      var init, last := ledger[..|ledger| - 1], ledger[|ledger| - 1];
      assert ledger == init + [last];
      FilteredIsSubsequence(init, id, month, year);
      SelectedSnoc(init, last, id, month, year);
      SelectedSnoc(init, last, id, None, None);
      var f, u := Selected(init, id, month, year), Selected(init, id, None, None);
      if last.employeeId == id {
        if Matches(last.date, month, year) {
          SubsequenceSnocBoth(f, u, last);
        } else {
          SubsequenceSnocRight(f, u, last);
        }
      }
    }
  }

  /**
   * Each entry of a filtered report lists a subsequence of that employee's
   * unfiltered days, and with no filter set it lists all of them.
   */
  lemma ReportFilterSemantics(s: Store, month: Option<int>, year: Option<int>, i: int)
    requires 0 <= i < |s.employees|
    ensures IsSubsequence(Report(s, month, year)[i].days, Report(s, None, None)[i].days)
    ensures !IsSet(month) && !IsSet(year) ==> Report(s, month, year)[i] == Report(s, None, None)[i]
  {
    var id := s.employees[i].id;
    FilteredIsSubsequence(s.ledger, id, month, year);
    DaysOfSubsequence(Selected(s.ledger, id, month, year), Selected(s.ledger, id, None, None));
    if !IsSet(month) && !IsSet(year) {
      UnsetFilterSelectsAll(s.ledger, id, month, year);
    }
  }

  /** With distinct keys, the history of an employee is exactly that employee's report entry. */
  lemma HistoryIsReportEntry(s: Store, i: int, month: Option<int>, year: Option<int>)
    requires Valid(s) && 0 <= i < |s.employees|
    ensures History(s, s.employees[i].id, month, year) == Some(Report(s, month, year)[i])
  {
    var id := s.employees[i].id;
    var h := History(s, id, month, year);
    var j :| 0 <= j < |s.employees| && s.employees[j].id == id && h.value == Report(s, month, year)[j];
    assert EmployeeKey(s.employees[i]) == EmployeeKey(s.employees[j]);
    assert i == j by {
      if i != j {
        DistinctKeysDiffer(s.employees, EmployeeKey, i, j);
      }
    }
  }

  /** Removing one employee's records leaves every other employee's query unchanged. */
  lemma {:induction false} SelectedIgnoresOtherRecords(ledger: seq<Attendance>, removed: int, id: int, month: Option<int>, year: Option<int>)
    requires removed != id
    ensures Selected(WithoutRecordsOf(ledger, removed), id, month, year) == Selected(ledger, id, month, year)
    decreases |ledger|
  {
    if |ledger| > 0 {
      var init, last := ledger[..|ledger| - 1], ledger[|ledger| - 1];
      assert ledger == init + [last];
      SelectedIgnoresOtherRecords(init, removed, id, month, year);
      SelectedSnoc(init, last, id, month, year);
      if last.employeeId != removed {
        SelectedSnoc(WithoutRecordsOf(init, removed), last, id, month, year);
      }
    }
  }

  /** Without an entry keyed `id`, removing that key from the directory changes nothing. */
  lemma {:induction false} WithoutAbsentEmployee(employees: seq<Employee>, id: int)
    requires forall i :: 0 <= i < |employees| ==> employees[i].id != id
    ensures WithoutEmployee(employees, id) == employees
    decreases |employees|
  {
    if |employees| > 0 {
      WithoutAbsentEmployee(employees[..|employees| - 1], id);
      assert employees == employees[..|employees| - 1] + [employees[|employees| - 1]];
    }
  }

  /** Removing a key from a directory with one more entry at the end. */
  lemma WithoutEmployeeSnoc(init: seq<Employee>, last: Employee, id: int)
    ensures WithoutEmployee(init + [last], id) == WithoutEmployee(init, id) + (if last.id == id then [] else [last])
  {
    assert (init + [last])[..|init|] == init;
  }

  /** With distinct keys, removing the key of entry `k` removes entry `k` and nothing else. */
  lemma {:induction false} WithoutUniqueEmployee(employees: seq<Employee>, k: int)
    requires KeysDistinct(employees, EmployeeKey) && 0 <= k < |employees|
    ensures WithoutEmployee(employees, employees[k].id) == employees[..k] + employees[k + 1..]
    decreases |employees|
  {
    var n := |employees|;
    var id := employees[k].id;
    var init, last := employees[..n - 1], employees[n - 1];
    assert employees == init + [last];
    WithoutEmployeeSnoc(init, last, id);
    if k == n - 1 {
      forall i | 0 <= i < |init|
        ensures init[i].id != id
      {
        DistinctKeysDiffer(employees, EmployeeKey, i, k);
      }
      WithoutAbsentEmployee(init, id);
    } else {
      DistinctKeysDiffer(employees, EmployeeKey, k, n - 1);
      DistinctKeysPrefix(employees, EmployeeKey, n - 1);
      assert init[k] == employees[k];
      WithoutUniqueEmployee(init, k);
      DropBeforeLast(employees, k);
    }
  }

  /** With distinct keys, deleting the employee at position `k` drops that entry and that employee's records. */
  lemma DeleteUniqueEmployee(s: Store, k: int)
    requires Valid(s) && 0 <= k < |s.employees|
    ensures DeleteEmployee(s, s.employees[k].id).ledger == WithoutRecordsOf(s.ledger, s.employees[k].id)
    ensures DeleteEmployee(s, s.employees[k].id).employees == s.employees[..k] + s.employees[k + 1..]
  {
    assert HasEmployee(s, s.employees[k].id);
    WithoutUniqueEmployee(s.employees, k);
  }

  /** The report over a directory missing entry `k` and a ledger missing that employee's records. */
  lemma ReportWithoutEntry(s: Store, r: Store, k: int, month: Option<int>, year: Option<int>)
    requires Valid(s) && 0 <= k < |s.employees|
    requires r.ledger == WithoutRecordsOf(s.ledger, s.employees[k].id)
    requires r.employees == s.employees[..k] + s.employees[k + 1..]
    ensures var before := Report(s, month, year);
      Report(r, month, year) == before[..k] + before[k + 1..]
  {
    var before := Report(s, month, year);
    var after := Report(r, month, year);
    var target := before[..k] + before[k + 1..];
    assert |after| == |target|;
    forall j | 0 <= j < |after|
      ensures after[j] == target[j]
    {
      var src := if j < k then j else j + 1;
      assert target[j] == before[src];
      ReportEntryWithoutEntry(s, r, k, j, src, month, year);
    }
  }

  /** One surviving entry of `ReportWithoutEntry`: entry `j` after is entry `src` before. */
  lemma ReportEntryWithoutEntry(s: Store, r: Store, k: int, j: int, src: int, month: Option<int>, year: Option<int>)
    requires Valid(s) && 0 <= k < |s.employees|
    requires r.ledger == WithoutRecordsOf(s.ledger, s.employees[k].id)
    requires r.employees == s.employees[..k] + s.employees[k + 1..]
    requires 0 <= j < |r.employees| && src == (if j < k then j else j + 1)
    ensures Report(r, month, year)[j] == Report(s, month, year)[src]
  {
    assert r.employees[j] == s.employees[src];
    DistinctKeysDiffer(s.employees, EmployeeKey, src, k);
    SelectedIgnoresOtherRecords(s.ledger, s.employees[k].id, s.employees[src].id, month, year);
  }

  /**
   * Deleting the employee at position `k` removes exactly that entry from
   * every report; every other entry, days and totals included, is unchanged.
   */
  lemma DeleteRemovesOneReportEntry(s: Store, k: int, month: Option<int>, year: Option<int>)
    requires Valid(s) && 0 <= k < |s.employees|
    ensures var before := Report(s, month, year);
      Report(DeleteEmployee(s, s.employees[k].id), month, year) == before[..k] + before[k + 1..]
  {
    DeleteUniqueEmployee(s, k);
    ReportWithoutEntry(s, DeleteEmployee(s, s.employees[k].id), k, month, year);
  }

  /** After a delete, the employee is gone from the listing and its history is `None`. */
  lemma DeletedEmployeeIsGone(s: Store, id: int, month: Option<int>, year: Option<int>)
    ensures forall e :: e in ListEmployees(DeleteEmployee(s, id)) ==> e.id != id
    ensures History(DeleteEmployee(s, id), id, month, year).None?
  {
    var r := DeleteEmployee(s, id);
    assert forall i :: 0 <= i < |r.employees| ==> r.employees[i] in r.employees;
  }

  /**
   * A mark adds its date to the entry of the marked employee when the date
   * passes the filter, and leaves every other entry as it was.
   */
  lemma MarkExtendsOneReportEntry(s: Store, id: int, day: Option<CalendarDate>, today: CalendarDate, month: Option<int>, year: Option<int>, i: int)
    requires 0 <= i < |s.employees|
    ensures var d := day.GetOr(today);
      var counted := s.employees[i].id == id && Matches(d, month, year);
      var before := Report(s, month, year)[i];
      var after := Report(MarkAttendance(s, id, day, today), month, year)[i];
      && after.days == before.days + (if counted then [Format(d)] else [])
      && after.total == before.total + (if counted then 1 else 0)
      && after.name == before.name && after.position == before.position
  {
    var r := MarkAttendance(s, id, day, today);
    var a := r.ledger[|s.ledger|];
    assert r.ledger == s.ledger + [a];
    SelectedSnoc(s.ledger, a, s.employees[i].id, month, year);
    DaysOfSnoc(Selected(s.ledger, s.employees[i].id, month, year), a);
  }

  /** Marking the same employee on the same date twice is counted twice. */
  lemma DuplicateMarksCountTwice(s: Store, i: int, d: CalendarDate, today: CalendarDate, month: Option<int>, year: Option<int>)
    requires 0 <= i < |s.employees| && Matches(d, month, year)
    ensures var id := s.employees[i].id;
      var r := MarkAttendance(MarkAttendance(s, id, Some(d), today), id, Some(d), today);
      && |r.ledger| == |s.ledger| + 2
      && Report(r, month, year)[i].days == Report(s, month, year)[i].days + [Format(d), Format(d)]
      && Report(r, month, year)[i].total == Report(s, month, year)[i].total + 2
  {
    var id := s.employees[i].id;
    var once := MarkAttendance(s, id, Some(d), today);
    MarkExtendsOneReportEntry(s, id, Some(d), today, month, year, i);
    MarkExtendsOneReportEntry(once, id, Some(d), today, month, year, i);
  }

  /**
   * Adding an employee appends an entry with no days to every report, the
   * other entries unchanged, provided no record already carries the new key
   * (a mark for a key not yet handed out would be inherited).
   */
  lemma AddAppendsEmptyReportEntry(s: Store, name: string, position: Option<string>, month: Option<int>, year: Option<int>)
    requires forall j :: 0 <= j < |s.ledger| ==> s.ledger[j].employeeId != s.nextEmployeeId
    ensures Report(AddEmployee(s, name, position), month, year) == Report(s, month, year) + [Row(name, position, [], 0)]
  {
    var r := AddEmployee(s, name, position);
    SelectedOfUnknownKey(s.ledger, s.nextEmployeeId, month, year);
    assert r.employees == s.employees + [r.employees[|s.employees|]];
  }

  /** A key no record carries selects nothing. */
  lemma {:induction false} SelectedOfUnknownKey(ledger: seq<Attendance>, id: int, month: Option<int>, year: Option<int>)
    requires forall j :: 0 <= j < |ledger| ==> ledger[j].employeeId != id
    ensures Selected(ledger, id, month, year) == []
    decreases |ledger|
  {
    if |ledger| > 0 {
      SelectedOfUnknownKey(ledger[..|ledger| - 1], id, month, year);
    }
  }

  /** An added employee is listed once, under a key no earlier entry has. */
  lemma AddedEmployeeListedOnce(s: Store, name: string, position: Option<string>)
    requires Valid(s)
    ensures var listed := ListEmployees(AddEmployee(s, name, position));
      exists k :: 0 <= k < |listed| && listed[k].name == name && listed[k].position == position
        && !HasEmployee(s, listed[k].id)
        && listed[..k] + listed[k + 1..] == ListEmployees(s)
  {
    var listed := ListEmployees(AddEmployee(s, name, position));
    var k := |s.employees|;
    assert listed[..k] + listed[k + 1..] == ListEmployees(s);
  }
}
