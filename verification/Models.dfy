/** The request and response shapes of the API and the validation that runs
    on a request body before a handler sees it: the attendance status enum,
    the field bounds and the whitespace-stripping validators. */
module Models {
  import opened Wrappers
  import opened Text
  import opened Dates

  /** `AttendanceStatus`: exactly two values. */
  datatype Status = Present | Absent

  /** The enum member's string value, as stored and returned. */
  function StatusValue(s: Status): (v: string)
    ensures |v| >= 6 && v[0] in {'P', 'A'}
    ensures v[0] == 'P' <==> s == Present
  {
    match s
    case Present => "Present"
    case Absent => "Absent"
  }

  /** Validation of a status string against the enum. */
  function ParseStatus(v: string): (r: Option<Status>)
    ensures r.Some? <==> v == "Present" || v == "Absent"
    ensures r.Some? ==> StatusValue(r.value) == v
  {
    if v == "Present" then Some(Present)
    else if v == "Absent" then Some(Absent)
    else None
  }

  /** Writing a status and reading it back gives the same status. */
  lemma StatusRoundTrip(s: Status)
    ensures ParseStatus(StatusValue(s)) == Some(s)
  {
  }

  /** A stored employee document. */
  datatype Employee = Employee(employee_id: string, full_name: string, email: string, department: string)

  /** `EmployeeResponse`: the aggregates default to zero. */
  datatype EmployeeResponse = EmployeeResponse(
    employee_id: string, full_name: string, email: string, department: string,
    total_present: int := 0, total_absent: int := 0)

  /** A validated `AttendanceCreate` body. */
  datatype AttendanceInput = AttendanceInput(employee_id: string, date: CalendarDate, status: Status)

  /** `AttendanceResponse`: the employee's name is optional and absent by default. */
  datatype AttendanceResponse = AttendanceResponse(
    employee_id: string, date: string, status: string, employee_name: Option<string> := None)

  /** `DashboardSummary`. */
  datatype DashboardSummary = DashboardSummary(
    total_employees: int, present_today: int, absent_today: int, not_marked_today: int)

  /** A rejected request body (HTTP 422): the names of every field that
      failed, in declaration order. */
  datatype ValidationError = ValidationError(fields: seq<string>)

  /** The errors a handler raises, with their HTTP status codes. */
  datatype ApiError =
    | EmployeeNotFound(employee_id: string)
    | EmployeeIdExists(employee_id: string)
    | EmailExists(email: string)
    | AttendanceExists(employee_id: string, date: string)

  function StatusCode(e: ApiError): (code: int)
    ensures code == 404 <==> e.EmployeeNotFound?
    ensures code == 409 <==> !e.EmployeeNotFound?
  {
    if e.EmployeeNotFound? then 404 else 409
  }

  /** The `detail` text of the error. */
  function Detail(e: ApiError): string {
    match e
    case EmployeeNotFound(id) => "Employee with ID '" + id + "' not found"
    case EmployeeIdExists(id) => "Employee with ID '" + id + "' already exists"
    case EmailExists(email) => "Employee with email '" + email + "' already exists"
    case AttendanceExists(id, date) =>
      "Attendance for employee '" + id + "' on " + date + " is already marked"
  }

  /** `employee_id` of `EmployeeCreate`: raw length 1..20, then stripped, and
      rejected when nothing is left. */
  function EmployeeIdField(raw: string): Option<string> {
    if !(1 <= |raw| <= 20) then None
    else
      var v := Strip(raw);           // strip_whitespace
      if Strip(v) == [] then None    // validate_employee_id
      else Some(Strip(v))
  }

  /** What `EmployeeIdField` accepts, and what it keeps. */
  lemma EmployeeIdFieldSpec(raw: string)
    ensures EmployeeIdField(raw).Some? <==> 1 <= |raw| <= 20 && !IsBlank(raw)
    ensures EmployeeIdField(raw).Some? ==> EmployeeIdField(raw).value == Strip(raw) != []
  {
    StripIdempotent(raw);
    StripEmptyIffBlank(raw);
  }

  /** `full_name`: raw length 2..100, then stripped. */
  function FullNameField(raw: string): Option<string> {
    if 2 <= |raw| <= 100 then Some(Strip(raw)) else None
  }

  /** `department`: raw length 1..50, then stripped. */
  function DepartmentField(raw: string): Option<string> {
    if 1 <= |raw| <= 50 then Some(Strip(raw)) else None
  }

  /** `[field]` when its check failed, `[]` otherwise. */
  function FailedField(field: string, ok: bool): (r: seq<string>)
    ensures field in r <==> !ok
    ensures forall f :: f in r ==> f == field
  {
    if ok then [] else [field]
  }

  /** The failed fields of an employee body, in declaration order. */
  function EmployeeErrors(idOk: bool, nameOk: bool, emailOk: bool, deptOk: bool): (r: seq<string>)
    ensures r == [] <==> idOk && nameOk && emailOk && deptOk
    ensures "employee_id" in r <==> !idOk
    ensures "full_name" in r <==> !nameOk
    ensures "email" in r <==> !emailOk
    ensures "department" in r <==> !deptOk
  {
    var a, b := FailedField("employee_id", idOk), FailedField("full_name", nameOk);
    var c, d := FailedField("email", emailOk), FailedField("department", deptOk);
    assert "employee_id" != "full_name" && "employee_id" != "email" && "employee_id" != "department";
    assert "full_name" != "email" && "full_name" != "department" && "email" != "department";
    assert forall f :: f in a + b + c + d <==> f in a || f in b || f in c || f in d;
    a + b + c + d
  }

  /** `EmployeeCreate`: every field is checked; the e-mail verdict of the
      e-mail validation library is passed in as `emailAccepted`. */
  function ValidateEmployee(employee_id: string, full_name: string, email: string,
                            department: string, emailAccepted: bool): (r: Result<Employee, ValidationError>)
    ensures r.Success? <==>
      1 <= |employee_id| <= 20 && !IsBlank(employee_id) &&
      2 <= |full_name| <= 100 && 1 <= |department| <= 50 && emailAccepted
    ensures r.Success? ==>
      r.value == Employee(Strip(employee_id), Strip(full_name), email, Strip(department))
    ensures r.Success? ==> r.value.employee_id != []
    ensures r.Failure? ==>
      r.error.fields != [] &&
      ("employee_id" in r.error.fields <==> !(1 <= |employee_id| <= 20 && !IsBlank(employee_id))) &&
      ("full_name" in r.error.fields <==> !(2 <= |full_name| <= 100)) &&
      ("email" in r.error.fields <==> !emailAccepted) &&
      ("department" in r.error.fields <==> !(1 <= |department| <= 50))
  {
    EmployeeIdFieldSpec(employee_id);
    var id, name, dept := EmployeeIdField(employee_id), FullNameField(full_name), DepartmentField(department);
    if id.Some? && name.Some? && emailAccepted && dept.Some? then
      Success(Employee(id.value, name.value, email, dept.value))
    else
      Failure(ValidationError(EmployeeErrors(id.Some?, name.Some?, emailAccepted, dept.Some?)))
  }

  /** The stored text fields never carry surrounding whitespace. */
  lemma ValidatedEmployeeStripped(employee_id: string, full_name: string, email: string,
                                  department: string, emailAccepted: bool)
    requires ValidateEmployee(employee_id, full_name, email, department, emailAccepted).Success?
    ensures var e := ValidateEmployee(employee_id, full_name, email, department, emailAccepted).value;
      Strip(e.employee_id) == e.employee_id && Strip(e.full_name) == e.full_name &&
      Strip(e.department) == e.department
  {
    StripIdempotent(employee_id);
    StripIdempotent(full_name);
    StripIdempotent(department);
  }

  /** The length bounds are checked before stripping, so a name of two or
      more blanks passes validation and is stored as the empty string (the
      same holds for a blank department). */
  lemma BlankNameStoredEmpty(employee_id: string, full_name: string, email: string,
                             department: string)
    requires 1 <= |employee_id| <= 20 && !IsBlank(employee_id) && 1 <= |department| <= 50
    requires 2 <= |full_name| <= 100 && IsBlank(full_name)
    ensures ValidateEmployee(employee_id, full_name, email, department, true).Success?
    ensures ValidateEmployee(employee_id, full_name, email, department, true).value.full_name == ""
  {
    StripEmptyIffBlank(full_name);
  }

  /** `AttendanceCreate`: `employee_id` of raw length at least 1, stripped and
      rejected when blank; `date` a `YYYY-MM-DD` calendar date; `status` one
      of the enum's values. */
  function ValidateAttendance(employee_id: string, date: string, status: string): (r: Result<AttendanceInput, ValidationError>)
    ensures r.Success? <==>
      !IsBlank(employee_id) && ParseIsoDate(date).Some? && (status == "Present" || status == "Absent")
    ensures r.Success? ==>
      r.value.employee_id == Strip(employee_id) && r.value.employee_id != [] &&
      IsoFormat(r.value.date) == date && StatusValue(r.value.status) == status
    ensures r.Failure? ==>
      r.error.fields != [] &&
      ("employee_id" in r.error.fields <==> IsBlank(employee_id)) &&
      ("date" in r.error.fields <==> ParseIsoDate(date).None?) &&
      ("status" in r.error.fields <==> !(status == "Present" || status == "Absent"))
  {
    StripEmptyIffBlank(employee_id);
    var id := if 1 <= |employee_id| && Strip(employee_id) != [] then Some(Strip(employee_id)) else None;
    var d, st := ParseIsoDate(date), ParseStatus(status);
    if id.Some? && d.Some? && st.Some? then
      Success(AttendanceInput(id.value, d.value, st.value))
    else
      Failure(ValidationError(
        FailedField("employee_id", id.Some?) + FailedField("date", d.Some?) +
        FailedField("status", st.Some?)))
  }
}
