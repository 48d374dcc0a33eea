/** The backend's route handlers for employees and attendance, as methods of
    one store object that holds the `employees` and `attendance` collections.
    Each handler is one sequential step; request bodies arrive already
    validated (see `Models`). */
module Store {
  import opened Wrappers
  import opened Text
  import opened Dates
  import opened Models
  import opened Ledger
  import opened LedgerInvariants

  /** An attendance document as the API returns it, with the name attached. */
  function Respond(rec: AttendanceRecord, name: string): (r: AttendanceResponse)
    ensures r.employee_id == rec.employee_id && r.date == rec.date
    ensures ParseStatus(r.status) == Some(rec.status)
    ensures r.employee_name == Some(name)
  {
    AttendanceResponse(rec.employee_id, rec.date, StatusValue(rec.status), Some(name))
  }

  /** The name `get_all_attendance` attaches: the employee's, or "Unknown"
      for a record whose employee is gone. */
  function NameOrUnknown(emps: seq<Employee>, employee_id: string): (name: string)
    ensures IdTaken(emps, employee_id) ==> name == FindEmployee(emps, employee_id).value.full_name
    ensures !IdTaken(emps, employee_id) ==> name == "Unknown"
  {
    var e := FindEmployee(emps, employee_id);
    if e.Some? then e.value.full_name else "Unknown"
  }

  /** The response reports a record of the ledger: same employee, date and status. */
  predicate FromLedger(resp: AttendanceResponse, att: seq<AttendanceRecord>) {
    exists x :: x in att && resp.employee_id == x.employee_id && resp.date == x.date
      && resp.status == StatusValue(x.status)
  }

  /** The filter of a per-employee history, with no date condition. */
  function ById(employee_id: string): Filter {
    Filter(Some(employee_id), AnyDate, None)
  }

  /** What `get_attendance` promises of its list for one employee: every
      entry is that employee's, carries the name and lies within the bounds;
      the list is latest first; every ledger record of the employee within
      the bounds is reported; every entry reports a ledger record; and there
      are as many entries as matching records. */
  predicate IsHistory(rs: seq<AttendanceResponse>, att: seq<AttendanceRecord>, employee_id: string,
                      date_from: Option<CalendarDate>, date_to: Option<CalendarDate>, name: string) {
    && (forall i :: 0 <= i < |rs| ==>
          && rs[i].employee_id == employee_id
          && rs[i].employee_name == Some(name)
          && InRange(rs[i].date, date_from, date_to))
    && (forall i, j :: 0 <= i < j < |rs| ==> LexLe(rs[j].date, rs[i].date))
    && (forall x :: x in att && x.employee_id == employee_id && InRange(x.date, date_from, date_to) ==>
          Respond(x, name) in rs)
    && (forall i :: 0 <= i < |rs| ==> FromLedger(rs[i], att))
    && |rs| == |Find(att, RangeFilter(Some(employee_id), date_from, date_to))|
  }

  /** What `get_all_attendance` promises of its list: every entry carries
      its employee's name or "Unknown" and lies within the bounds; the list
      is latest first; every ledger record within the bounds is reported;
      every entry reports a ledger record; and there are as many entries as
      matching records. */
  predicate IsLedgerReport(rs: seq<AttendanceResponse>, att: seq<AttendanceRecord>, emps: seq<Employee>,
                           date_from: Option<CalendarDate>, date_to: Option<CalendarDate>) {
    && (forall i :: 0 <= i < |rs| ==>
          && rs[i].employee_name == Some(NameOrUnknown(emps, rs[i].employee_id))
          && InRange(rs[i].date, date_from, date_to))
    && (forall i, j :: 0 <= i < j < |rs| ==> LexLe(rs[j].date, rs[i].date))
    && (forall x :: x in att && InRange(x.date, date_from, date_to) ==>
          Respond(x, NameOrUnknown(emps, x.employee_id)) in rs)
    && (forall i :: 0 <= i < |rs| ==> FromLedger(rs[i], att))
    && |rs| == |Find(att, RangeFilter(None, date_from, date_to))|
  }

  /** The body of a successful delete. */
  datatype Deleted = Deleted(message: string, attendance_records_deleted: nat)

  class HrStore {
    var employees: seq<Employee>
    var attendance: seq<AttendanceRecord>

    /** What the unique indexes and the handlers keep true of the collections. */
    ghost predicate Valid()
      reads this
    {
      && UniqueIds(employees)
      && UniqueEmails(employees)
      && UniqueKeys(attendance)
      && NoOrphans(employees, attendance)
      && WellFormedDates(attendance)
    }

    constructor ()
      ensures employees == [] && attendance == []
      ensures Valid()
    {
      employees := [];
      attendance := [];
    }

    /** `create_employee`: the insert fails on either unique index, and the
        error names the id when the id is taken, the e-mail otherwise. */
    method CreateEmployee(e: Employee) returns (r: Result<EmployeeResponse, ApiError>)
      requires Valid()
      modifies this
      ensures Valid()
      ensures attendance == old(attendance)
      ensures IdTaken(old(employees), e.employee_id) ==>
        r == Failure(EmployeeIdExists(e.employee_id)) && employees == old(employees)
      ensures !IdTaken(old(employees), e.employee_id) && EmailTaken(old(employees), e.email) ==>
        r == Failure(EmailExists(e.email)) && employees == old(employees)
      ensures !IdTaken(old(employees), e.employee_id) && !EmailTaken(old(employees), e.email) ==>
        && employees == old(employees) + [e]
        && r.Success?
        && r.value == EmployeeResponse(e.employee_id, e.full_name, e.email, e.department)
        && r.value.total_present == CountStatus(attendance, e.employee_id, Present) == 0
        && r.value.total_absent == CountStatus(attendance, e.employee_id, Absent) == 0
    {
      if IdTaken(employees, e.employee_id) || EmailTaken(employees, e.email) {
        // DuplicateKeyError: find out which index refused the insert
        var existing := FindEmployee(employees, e.employee_id);
        if existing.Some? {
          return Failure(EmployeeIdExists(e.employee_id));
        }
        return Failure(EmailExists(e.email));
      }
      UnregisteredHasNoRecords(employees, attendance, e.employee_id, Present);
      UnregisteredHasNoRecords(employees, attendance, e.employee_id, Absent);
      NoOrphansAfterInsert(employees, e, attendance);
      employees := employees + [e];
      r := Success(EmployeeResponse(e.employee_id, e.full_name, e.email, e.department));
    }

    /** `list_employees`: one entry per stored employee, in stored order,
        each with its Present and Absent counts from the ledger. */
    method ListEmployees() returns (r: seq<EmployeeResponse>)
      ensures |r| == |employees|
      ensures forall i :: 0 <= i < |r| ==>
        && r[i].employee_id == employees[i].employee_id
        && r[i].full_name == employees[i].full_name
        && r[i].email == employees[i].email
        && r[i].department == employees[i].department
        && r[i].total_present == CountStatus(attendance, employees[i].employee_id, Present)
        && r[i].total_absent == CountStatus(attendance, employees[i].employee_id, Absent)
    {
      r := [];
      var i := 0;
      while i < |employees|
        invariant 0 <= i <= |employees|
        invariant |r| == i
        invariant forall k :: 0 <= k < i ==>
          && r[k].employee_id == employees[k].employee_id
          && r[k].full_name == employees[k].full_name
          && r[k].email == employees[k].email
          && r[k].department == employees[k].department
          && r[k].total_present == CountStatus(attendance, employees[k].employee_id, Present)
          && r[k].total_absent == CountStatus(attendance, employees[k].employee_id, Absent)
      {
        var emp := employees[i];
        var present := |Find(attendance, Filter(Some(emp.employee_id), AnyDate, Some(Present)))|;
        var absent := |Find(attendance, Filter(Some(emp.employee_id), AnyDate, Some(Absent)))|;
        r := r + [EmployeeResponse(emp.employee_id, emp.full_name, emp.email, emp.department, present, absent)];
        i := i + 1;
      }
    }

    /** `get_employee`: NotFound for an unknown id; otherwise the employee
        with its counts from the ledger. */
    method GetEmployee(employee_id: string) returns (r: Result<EmployeeResponse, ApiError>)
      ensures r.Failure? <==> !IdTaken(employees, employee_id)
      ensures r.Failure? ==> r.error == EmployeeNotFound(employee_id)
      ensures r.Success? ==>
        && r.value.employee_id == employee_id
        && EmployeeWith(r.value, employees)
        && r.value.total_present == CountStatus(attendance, employee_id, Present)
        && r.value.total_absent == CountStatus(attendance, employee_id, Absent)
        && r.value.total_present + r.value.total_absent == |Find(attendance, ById(employee_id))|
    {
      var employee := FindEmployee(employees, employee_id);
      if employee.None? {
        return Failure(EmployeeNotFound(employee_id));
      }
      AggregatesCoverHistory(attendance, employee_id);
      var e := employee.value;
      var present := |Find(attendance, Filter(Some(employee_id), AnyDate, Some(Present)))|;
      var absent := |Find(attendance, Filter(Some(employee_id), AnyDate, Some(Absent)))|;
      r := Success(EmployeeResponse(e.employee_id, e.full_name, e.email, e.department, present, absent));
    }

    /** The response's identity fields are those of a stored employee. */
    ghost predicate EmployeeWith(resp: EmployeeResponse, emps: seq<Employee>) {
      Employee(resp.employee_id, resp.full_name, resp.email, resp.department) in emps
    }

    /** `delete_employee`: NotFound for an unknown id; otherwise the employee
        and every attendance record of that id go, and the number of records
        removed is reported. */
    method DeleteEmployee(employee_id: string) returns (r: Result<Deleted, ApiError>)
      requires Valid()
      modifies this
      ensures Valid()
      ensures !IdTaken(old(employees), employee_id) ==>
        r == Failure(EmployeeNotFound(employee_id)) &&
        employees == old(employees) && attendance == old(attendance)
      ensures IdTaken(old(employees), employee_id) ==>
        && r.Success?
        && employees == DeleteOne(old(employees), employee_id)
        && attendance == DeleteMany(old(attendance), ById(employee_id))
        && |employees| == |old(employees)| - 1
        && !IdTaken(employees, employee_id)
        && (forall x :: x in attendance ==> x.employee_id != employee_id)
        && (forall x :: x in old(attendance) && x.employee_id != employee_id ==> x in attendance)
        && (forall e :: e in old(employees) && e.employee_id != employee_id ==> e in employees)
        && r.value.attendance_records_deleted == |old(attendance)| - |attendance|
        && r.value.attendance_records_deleted == |Find(old(attendance), ById(employee_id))|
    {
      if !IdTaken(employees, employee_id) {
        return Failure(EmployeeNotFound(employee_id));
      }
      DeleteOneUnique(employees, employee_id);
      NoOrphansAfterCascade(employees, attendance, employee_id);
      UniqueKeysAfterDeleteMany(attendance, ById(employee_id));
      WellFormedAfterDeleteMany(attendance, ById(employee_id));
      FindDeleteManySplit(attendance, ById(employee_id));
      employees := DeleteOne(employees, employee_id);
      var before := |attendance|;
      attendance := DeleteMany(attendance, ById(employee_id));
      r := Success(Deleted("Employee '" + employee_id + "' deleted successfully", before - |attendance|));
    }

    /** `mark_attendance`: insert-only. NotFound for an unknown employee,
        Conflict when the (employee, date) key is already in the ledger;
        otherwise exactly one record is appended. */
    method MarkAttendance(a: AttendanceInput) returns (r: Result<AttendanceResponse, ApiError>)
      requires Valid()
      modifies this
      ensures Valid()
      ensures employees == old(employees)
      ensures !IdTaken(employees, a.employee_id) ==>
        r == Failure(EmployeeNotFound(a.employee_id)) && attendance == old(attendance)
      ensures IdTaken(employees, a.employee_id) && KeyTaken(old(attendance), a.employee_id, IsoFormat(a.date)) ==>
        r == Failure(AttendanceExists(a.employee_id, IsoFormat(a.date))) && attendance == old(attendance)
      ensures IdTaken(employees, a.employee_id) && !KeyTaken(old(attendance), a.employee_id, IsoFormat(a.date)) ==>
        && attendance == old(attendance) + [AttendanceRecord(a.employee_id, IsoFormat(a.date), a.status)]
        && r.Success?
        && r.value.employee_id == a.employee_id
        && r.value.date == IsoFormat(a.date)
        && r.value.status == StatusValue(a.status)
        && r.value.employee_name == Some(FindEmployee(employees, a.employee_id).value.full_name)
    {
      var employee := FindEmployee(employees, a.employee_id);
      if employee.None? {
        return Failure(EmployeeNotFound(a.employee_id));
      }
      var rec := AttendanceRecord(a.employee_id, IsoFormat(a.date), a.status);
      if KeyTaken(attendance, rec.employee_id, rec.date) {
        // DuplicateKeyError on the (employee_id, date) index
        return Failure(AttendanceExists(a.employee_id, IsoFormat(a.date)));
      }
      UniqueKeysAfterAppend(attendance, rec);
      ParseIsoFormat(a.date);
      attendance := attendance + [rec];
      r := Success(AttendanceResponse(a.employee_id, IsoFormat(a.date), StatusValue(a.status), Some(employee.value.full_name)));
    }

    /** `get_attendance`: NotFound for an unknown employee; otherwise that
        employee's records within the inclusive bounds, latest first, each
        carrying the employee's name. */
    method GetAttendance(employee_id: string, date_from: Option<CalendarDate>, date_to: Option<CalendarDate>)
      returns (r: Result<seq<AttendanceResponse>, ApiError>)
      ensures r.Failure? <==> !IdTaken(employees, employee_id)
      ensures r.Failure? ==> r.error == EmployeeNotFound(employee_id)
      ensures r.Success? ==>
        IsHistory(r.value, attendance, employee_id, date_from, date_to,
                  FindEmployee(employees, employee_id).value.full_name)
    {
      var employee := FindEmployee(employees, employee_id);
      if employee.None? {
        return Failure(EmployeeNotFound(employee_id));
      }
      var name := employee.value.full_name;
      var ledger := attendance;
      var query := RangeFilter(Some(employee_id), date_from, date_to);
      var cursor := SortByDateDesc(Find(ledger, query));
      var records := [];
      var i := 0;
      while i < |cursor|
        invariant 0 <= i <= |cursor|
        invariant |records| == i
        invariant forall k :: 0 <= k < i ==> records[k] == Respond(cursor[k], name)
      {
        RespondStep(cursor, records, i, k => name);
        records := records + [Respond(cursor[i], name)];
        i := i + 1;
      }
      HistoryResponse(cursor, records, ledger, employee_id, date_from, date_to, name);
      r := Success(records);
    }

    /** `get_all_attendance`: every record within the inclusive bounds,
        latest first; a record whose employee is gone is labelled "Unknown". */
    method GetAllAttendance(date_from: Option<CalendarDate>, date_to: Option<CalendarDate>)
      returns (r: seq<AttendanceResponse>)
      ensures IsLedgerReport(r, attendance, employees, date_from, date_to)
    {
      var emps := employees;
      var ledger := attendance;
      var query := RangeFilter(None, date_from, date_to);
      var cursor := SortByDateDesc(Find(ledger, query));
      var records := [];
      var i := 0;
      while i < |cursor|
        invariant 0 <= i <= |cursor|
        invariant |records| == i
        invariant forall k :: 0 <= k < i ==>
          records[k] == Respond(cursor[k], NameOrUnknown(emps, cursor[k].employee_id))
      {
        var name := NameOrUnknown(emps, cursor[i].employee_id);
        RespondStep(cursor, records, i, id => NameOrUnknown(emps, id));
        records := records + [Respond(cursor[i], name)];
        i := i + 1;
      }
      AllResponse(cursor, records, ledger, emps, date_from, date_to);
      r := records;
    }
  }

  /** The sorted cursor holds exactly the matching records, latest first. */
  lemma CursorFacts(att: seq<AttendanceRecord>, f: Filter, cursor: seq<AttendanceRecord>)
    requires cursor == SortByDateDesc(Find(att, f))
    ensures forall x :: x in cursor <==> x in att && Matches(x, f)
    ensures SortedDesc(cursor)
    ensures |cursor| == |Find(att, f)|
  {
    var found := Find(att, f);
    assert |cursor| == |multiset(cursor)| == |multiset(found)| == |found|;
    forall x ensures x in cursor <==> x in found {
      assert x in cursor <==> x in multiset(cursor);
      assert x in found <==> x in multiset(found);
    }
  }

  /** The loop of `get_attendance`, responding to each record of the sorted
      cursor with the employee's name, yields the method's promised list. */
  lemma HistoryResponse(cursor: seq<AttendanceRecord>, records: seq<AttendanceResponse>,
                        att: seq<AttendanceRecord>, employee_id: string,
                        date_from: Option<CalendarDate>, date_to: Option<CalendarDate>, name: string)
    requires cursor == SortByDateDesc(Find(att, RangeFilter(Some(employee_id), date_from, date_to)))
    requires |records| == |cursor|
    requires forall k :: 0 <= k < |cursor| ==> records[k] == Respond(cursor[k], name)
    ensures IsHistory(records, att, employee_id, date_from, date_to, name)
  {
    var query := RangeFilter(Some(employee_id), date_from, date_to);
    CursorFacts(att, query, cursor);
    forall i | 0 <= i < |records|
      ensures records[i].employee_id == employee_id && InRange(records[i].date, date_from, date_to)
    {
      assert cursor[i] in cursor;
    }
    RespondedCursor(cursor, records, att, query, id => name);
  }

  /** The loop of `get_all_attendance`, responding to each record of the
      sorted cursor with its employee's name, yields the method's promised list. */
  lemma AllResponse(cursor: seq<AttendanceRecord>, records: seq<AttendanceResponse>,
                    att: seq<AttendanceRecord>, emps: seq<Employee>,
                    date_from: Option<CalendarDate>, date_to: Option<CalendarDate>)
    requires cursor == SortByDateDesc(Find(att, RangeFilter(None, date_from, date_to)))
    requires |records| == |cursor|
    requires forall k :: 0 <= k < |cursor| ==>
      records[k] == Respond(cursor[k], NameOrUnknown(emps, cursor[k].employee_id))
    ensures IsLedgerReport(records, att, emps, date_from, date_to)
  {
    var query := RangeFilter(None, date_from, date_to);
    CursorFacts(att, query, cursor);
    forall i | 0 <= i < |records| ensures InRange(records[i].date, date_from, date_to) {
      assert cursor[i] in cursor;
    }
    RespondedCursor(cursor, records, att, query, id => NameOrUnknown(emps, id));
  }

  /** One turn of the response loops: appending the response to the next
      cursor record extends the responses to the first `i` records by one. */
  lemma RespondStep(cursor: seq<AttendanceRecord>, records: seq<AttendanceResponse>, i: int,
                    nameOf: string -> string)
    requires 0 <= i < |cursor| && |records| == i
    requires forall k :: 0 <= k < i ==> records[k] == Respond(cursor[k], nameOf(cursor[k].employee_id))
    ensures forall k :: 0 <= k < i + 1 ==>
      (records + [Respond(cursor[i], nameOf(cursor[i].employee_id))])[k] ==
        Respond(cursor[k], nameOf(cursor[k].employee_id))
  {
  }

  /** Responding to each record of a cursor, in order, keeps the cursor's
      filter, order and completeness. */
  lemma RespondedCursor(cursor: seq<AttendanceRecord>, records: seq<AttendanceResponse>,
                        att: seq<AttendanceRecord>, f: Filter, nameOf: string -> string)
    requires forall x :: x in cursor <==> x in att && Matches(x, f)
    requires SortedDesc(cursor)
    requires |cursor| == |Find(att, f)|
    requires |records| == |cursor|
    requires forall k :: 0 <= k < |cursor| ==> records[k] == Respond(cursor[k], nameOf(cursor[k].employee_id))
    ensures forall i :: 0 <= i < |records| ==> FromLedger(records[i], att)
    ensures forall i, j :: 0 <= i < j < |records| ==> LexLe(records[j].date, records[i].date)
    ensures forall x :: x in att && Matches(x, f) ==> Respond(x, nameOf(x.employee_id)) in records
    ensures |records| == |Find(att, f)|
  {
    forall i | 0 <= i < |records| ensures FromLedger(records[i], att) {
      assert cursor[i] in cursor;
    }
    forall x | x in att && Matches(x, f) ensures Respond(x, nameOf(x.employee_id)) in records {
      var k :| 0 <= k < |cursor| && cursor[k] == x;
      assert records[k] == Respond(x, nameOf(x.employee_id));
    }
  }
}
