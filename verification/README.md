# HRMS Lite attendance bookkeeping, modelled in Dafny

HRMS Lite is a small human-resources tool. A FastAPI backend keeps two
MongoDB collections:

- `employees`: an employee directory with unique ids and unique e-mails;
- `attendance`: an attendance ledger with at most one Present/Absent mark per employee and day.

A React frontend lists employees, adds and searches them, marks attendance
and shows a dashboard. This project models the backend's bookkeeping, and two
pieces of frontend logic, and proves what they promise.

- `Text.dfy`: string helpers.
  - `str.strip()` / `trim()`, ASCII lower-casing and `includes`.
  - The binary string order the store uses to compare dates. It is proved a total order.
- `Dates.dfy`: calendar dates (`datetime.date`) and their ISO `YYYY-MM-DD` text (`isoformat`).
  - Parsing that text back, with the round trip proved.
  - A proof that comparing ISO texts as strings is comparing the dates.
- `Models.dfy`: the request and response shapes and the validation of request bodies.
  - The `AttendanceStatus` enum.
  - Length bounds checked on the raw text.
  - The stripping validators and the blank-id rejection.
  - The HTTP error codes.
- `Ledger.dfy`: the two collections as sequences.
  - What `find`, `count_documents`, `delete_one` and `delete_many` with the handlers' filters return.
  - The date-range filter and the descending sort by date.
  - The invariants the three unique indexes enforce, and lemmas that each write keeps them.
- `Store.dfy`: the class `HrStore`. It holds both collections, and its methods are the route handlers:
  - create, list, get and delete employee;
  - mark attendance;
  - per-employee and all-employee attendance queries.

  The handlers that change state carry the store invariant `Valid()`. The
  queries are loops with invariants, like the handlers' `async for` loops.
- `Dashboard.dfy`: the dashboard summary for a given `today`. It proves that
  the "not marked" clamp at zero never fires in a store that keeps its invariants.
- `EmployeeForm.dfy`: the add-employee form's checks and the search filter of the employee page.
  - The e-mail pattern `^[^\s@]+@[^\s@]+\.[^\s@]+$` is read literally.
  - It is proved equivalent to: no whitespace, exactly one '@', something
    before it, and a '.' with text on both sides after it.
- `AttendanceRate.dfy`: the dashboard's per-employee attendance column: total, rounded percentage, colour band and label.

Two behaviours of the code that the model keeps:

- Marking attendance is insert-only. A second mark for the same employee and
  day is refused with 409 and leaves the stored mark as it was
  (`backend/routes/attendance.py:30-36`).
- Attendance queries return records latest first (`sort("date", -1)`,
  `backend/routes/attendance.py:75`).

## Model

| member | source | states |
|---|---|---|
| Text.Strip | backend/models.py:21-24 | the stripped text neither starts nor ends with whitespace (its parts say what was removed: only whitespace, from either end) |
| Text.StripEmptyIffBlank | frontend/src/pages/Employees.jsx:48 | stripping leaves the empty string exactly when the text is all whitespace |
| Text.StripIdempotent | backend/models.py:21-31 | stripping an already stripped value changes nothing, so the second strip in the id validator is harmless |
| Text.Lower | frontend/src/pages/Employees.jsx:89-92 | lower-casing keeps the length and maps each character on its own |
| Text.Includes | frontend/src/pages/Employees.jsx:89-92 | `s.includes(t)` holds exactly when `t` occurs at some position of `s` |
| Text.LexLeTotal | backend/routes/attendance.py:75 | any two date texts are comparable in the store's string order |
| Text.LexLeTransitive | backend/routes/attendance.py:75 | the string order is transitive |
| Text.LexLeAntisymmetric | backend/routes/attendance.py:75 | texts ordered both ways are equal |
| Text.LexLeConcat | backend/routes/attendance.py:69-71 | comparing texts made of equal-width pieces: the first differing piece decides |
| Dates.DaysInMonth | backend/models.py:48 | months have 28 to 31 days, and February has 29 exactly in leap years |
| Dates.ValueOfDigits | backend/routes/attendance.py:26 | the zero-padded digits of a number that fits read back as that number |
| Dates.DigitsOfValue | backend/models.py:48 | every digit string is the zero-padded form of the number it denotes |
| Dates.DigitsOrder | backend/routes/attendance.py:69-71 | equal-width zero-padded numbers compare as strings as the numbers compare |
| Dates.IsoFormat | backend/routes/attendance.py:26 | the ISO text has ten characters, dashes at positions 4 and 7, and digits elsewhere |
| Dates.IsoFormatOrder | backend/routes/attendance.py:66-75 | comparing two ISO texts as strings agrees with calendar order, both ways |
| Dates.ParseIsoDate | backend/models.py:48 | a text is accepted only if it is the ISO text of a real calendar date |
| Dates.ParseIsoFormat | backend/models.py:48 | reading back the ISO text of a date gives the date |
| Dates.IsoFormatInjective | backend/routes/attendance.py:24-28 | different dates have different ISO texts, so the (employee, date) key is a (employee, day) key |
| Models.StatusValue | backend/models.py:7-9 | each status has its own stored text, told apart by its first letter |
| Models.ParseStatus | backend/models.py:7-9 | a status text is accepted exactly when it is "Present" or "Absent", and the status writes back to the same text |
| Models.StatusRoundTrip | backend/models.py:7-9 | writing a status and reading it back gives it again |
| Models.StatusCode | backend/routes/attendance.py:19-36 | NotFound is answered with 404, and each of the three conflicts (taken id, taken e-mail, taken employee-and-date key) with 409 |
| Models.EmployeeIdFieldSpec | backend/models.py:16-31 | an employee id passes exactly when its raw length is 1..20 and it is not all whitespace; the stored id is the stripped text and never empty |
| Models.ValidateEmployee | backend/models.py:15-31 | a body is accepted exactly when every bound holds, the id is not blank and the e-mail passes; then the stored employee has id, name and department stripped; otherwise the error lists exactly the failing fields |
| Models.ValidatedEmployeeStripped | backend/models.py:21-24 | the stored id, name and department carry no surrounding whitespace |
| Models.BlankNameStoredEmpty | backend/models.py:17-24 | bounds are checked before stripping, so a name of two or more blanks passes and is stored empty |
| Models.ValidateAttendance | backend/models.py:46-56 | a body is accepted exactly when the id is not blank, the date is a calendar date and the status is an enum value; then the id is stripped and the date and status read back to the input texts; otherwise the error lists exactly the failing fields |
| Ledger.Find | backend/routes/attendance.py:75 | a query returns exactly the ledger records matching its filter |
| Ledger.DeleteMany | backend/routes/employees.py:92 | `delete_many` leaves exactly the records not matching its filter |
| Ledger.NothingFound | backend/routes/attendance.py:75 | a filter that matches no record finds nothing |
| Ledger.FindDeleteManySplit | backend/routes/employees.py:92-96 | the records found by a filter and those a delete with it keeps add up to the whole ledger |
| Ledger.RangeFilter | backend/routes/attendance.py:63-72 | the built query matches a record exactly when its employee matches (if given) and its date lies between the given bounds, both inclusive |
| Ledger.RangeFilterIsCalendarRange | backend/routes/attendance.py:63-72 | on a stored date, the range filter is the inclusive calendar range |
| Ledger.ReversedRangeIsEmpty | backend/routes/attendance.py:63-72 | with `date_from` later than `date_to` a range query finds nothing |
| Ledger.InsertDesc | backend/routes/attendance.py:75 | insertion adds exactly the one record |
| Ledger.InsertDescSorted | backend/routes/attendance.py:75 | inserting into a latest-first sequence keeps it latest first |
| Ledger.AllBelow | backend/routes/attendance.py:75 | in a latest-first sequence whose head is not later than a record, no element is |
| Ledger.HeadAbove | backend/routes/attendance.py:75 | a record not earlier than every element of a sequence and than an inserted record is not earlier than any element of the result |
| Ledger.SortByDateDesc | backend/routes/attendance.py:75 | the sort returns a permutation of its input, latest date first |
| Ledger.IndexOfId | backend/routes/employees.py:60 | the first position holding the id, or the length when there is none |
| Ledger.FindEmployee | backend/routes/employees.py:60 | `find_one` by id returns a stored employee with that id exactly when the id is taken |
| Ledger.DeleteOne | backend/routes/employees.py:84 | `delete_one` by id removes exactly one employee when the id is taken and keeps every other employee |
| Ledger.DeleteOneUnique | backend/routes/employees.py:84-89 | with unique ids, after the delete no employee has the id, and ids and e-mails stay unique |
| Ledger.AggregatesCoverHistory | backend/routes/employees.py:67-74 | an employee's Present and Absent counts add up to the number of its records |
| Ledger.AtMostOnePerDay | backend/database.py:22 | with unique (employee, date) keys an employee has at most one record per date |
| LedgerInvariants.NoOrphansAfterInsert | backend/routes/employees.py:14-17 | registering an employee leaves no record orphaned |
| LedgerInvariants.UnregisteredHasNoRecords | backend/routes/employees.py:14-31 | an employee not yet registered has no records, so a new employee's counts are zero |
| LedgerInvariants.UniqueKeysAfterAppend | backend/routes/attendance.py:30-31 | appending a record under a fresh key keeps the keys unique |
| LedgerInvariants.UniqueKeysAfterDeleteMany | backend/routes/employees.py:92 | deleting records keeps the keys unique |
| LedgerInvariants.UniqueKeysAfterFind | backend/routes/dashboard.py:18-23 | the records a query finds have unique keys |
| LedgerInvariants.NoOrphansAfterCascade | backend/routes/employees.py:84-92 | deleting an employee with all its records leaves no orphan |
| LedgerInvariants.WellFormedAfterDeleteMany | backend/routes/employees.py:92 | records left after a delete still hold calendar dates |
| Store.Respond | backend/routes/attendance.py:76-77 | a response echoes the record's employee and date, its status text reads back to the record's status, and it carries the given name |
| Store.NameOrUnknown | backend/routes/attendance.py:102-105 | the attached name is the stored employee's name when the id is registered, "Unknown" otherwise |
| Store.HrStore.CreateEmployee | backend/routes/employees.py:9-31 | a taken id gives 409 naming the id; otherwise a taken e-mail gives 409 naming the e-mail; both leave the directory unchanged; else exactly the employee is appended and returned with zero counts; the invariants hold after |
| Store.HrStore.ListEmployees | backend/routes/employees.py:34-52 | one entry per stored employee, in order, each with its identity fields and its Present and Absent counts from the ledger |
| Store.HrStore.GetEmployee | backend/routes/employees.py:55-76 | 404 exactly for an unknown id; otherwise a stored employee with that id, its counts from the ledger, adding up to its whole history |
| Store.HrStore.DeleteEmployee | backend/routes/employees.py:79-97 | 404 and no change for an unknown id; otherwise the employee and all its records go, every other employee and record stays, and the reported count is the number of records removed |
| Store.HrStore.MarkAttendance | backend/routes/attendance.py:11-43 | 404 for an unknown employee and 409 for a taken (employee, date) key, both with the ledger unchanged; otherwise exactly one record is appended and echoed with the employee's name; the directory never changes |
| Store.HrStore.GetAttendance | backend/routes/attendance.py:46-79 | 404 exactly for an unknown id; otherwise the employee's records within the inclusive bounds, latest first, each with the name, all of them and only ledger records |
| Store.HrStore.GetAllAttendance | backend/routes/attendance.py:82-108 | every ledger record within the inclusive bounds, latest first, each with its employee's name or "Unknown", and nothing else |
| Store.CursorFacts | backend/routes/attendance.py:75 | the sorted cursor holds exactly the matching records, latest first, as many as the query finds |
| Store.HistoryResponse | backend/routes/attendance.py:74-79 | the per-employee response loop produces a list meeting `IsHistory` |
| Store.AllResponse | backend/routes/attendance.py:99-107 | the all-employee response loop produces a list meeting `IsLedgerReport` |
| Store.RespondedCursor | backend/routes/attendance.py:99-107 | responding to a sorted cursor in order keeps its order, its completeness and its link to the ledger |
| Dashboard.Summary | backend/routes/dashboard.py:9-31 | the total is the directory size; today's counts are the ledger's Present and Absent records dated today; "not marked" is never negative, is the plain difference when that is not negative and 0 otherwise |
| Dashboard.DayCountsCover | backend/routes/dashboard.py:18-23 | today's Present and Absent counts add up to the number of records dated today |
| Dashboard.DistinctCard | backend/database.py:20 | pairwise distinct ids make a set of as many ids |
| Dashboard.DayRecordsBounded | backend/database.py:20-22 | with unique ids, unique keys and no orphans, a day has no more records than there are employees |
| Dashboard.DayIdsDistinct | backend/database.py:22 | the records of one day carry distinct employee ids |
| Dashboard.DayIdsRegistered | backend/routes/employees.py:84-92 | every id among a day's records is a registered employee's |
| Dashboard.ClampNeverNeeded | backend/routes/dashboard.py:24-30 | in a store that keeps its invariants, Present + Absent today never exceeds the directory size, so "not marked" is the plain difference |
| EmployeeForm.IndexOf | frontend/src/pages/Employees.jsx:53 | the first position of a character, or the length when there is none |
| EmployeeForm.CountOne | frontend/src/pages/Employees.jsx:53 | a character occurs exactly once exactly when it occurs and not after its first occurrence |
| EmployeeForm.CountZero | frontend/src/pages/Employees.jsx:53 | a character is counted zero times exactly when it does not occur |
| EmployeeForm.EmailAcceptedIffPattern | frontend/src/pages/Employees.jsx:53-54 | the address pattern matches exactly the texts with no whitespace, exactly one '@', text before it and a '.' with text on both sides after it |
| EmployeeForm.HandleSubmit | frontend/src/pages/Employees.jsx:43-61 | a create request is sent, with the form as typed, exactly when no field is blank after trimming and the e-mail matches the pattern; a blank field gives "All fields are required"; a filled form whose e-mail does not match gives "Please enter a valid email address"; there is no other refusal |
| EmployeeForm.PatternDecidesFilledForm | frontend/src/pages/Employees.jsx:48-57 | when the other three fields are filled in, the e-mail pattern alone decides whether the form is sent |
| EmployeeForm.FilterEmployees | frontend/src/pages/Employees.jsx:88-93 | the search keeps an employee exactly when the lower-cased term occurs in its lower-cased name, id, department or e-mail, and the result is a subsequence of the list, in order |
| EmployeeForm.EmptySearchKeepsAll | frontend/src/pages/Employees.jsx:88-93 | an empty search term keeps the whole list |
| EmployeeForm.SearchIgnoresTermCase | frontend/src/pages/Employees.jsx:88-93 | the search treats a term and its lower-cased form alike |
| AttendanceRate.Rate | frontend/src/pages/Dashboard.jsx:143 | 0 when nothing is marked; otherwise a whole number in 0..100 within half a point of 100·present/total, halves rounded up |
| AttendanceRate.RateUnique | frontend/src/pages/Dashboard.jsx:143 | the rounding bound admits no other percentage than `Rate` |
| AttendanceRate.RateExtremes | frontend/src/pages/Dashboard.jsx:143 | only present days give 100, no present day gives 0 |
| AttendanceRate.RateMonotone | frontend/src/pages/Dashboard.jsx:143 | for the same total, more present days never lower the rate |
| AttendanceRate.BandOf | frontend/src/pages/Dashboard.jsx:165-170 | green exactly from 75, orange exactly from 50 below 75, red exactly below 50 |
| AttendanceRate.DecimalString | frontend/src/pages/Dashboard.jsx:171 | the decimal text of a number is non-empty digits without a leading zero that read back as the number |
| AttendanceRate.Row | frontend/src/pages/Dashboard.jsx:142-171 | total is present plus absent; the rate and band are as above; the label is "--" (band red) when nothing is marked, else the rate's decimal text followed by '%' |
| AttendanceRate.RowLabelReadsBack | frontend/src/pages/Dashboard.jsx:171 | a marked row's label is decimal digits with no leading zero that read back as the rate, then '%' |

## Left out

- I/O: the MongoDB client and the index creation in `backend/database.py`. The unique indexes appear only as the invariants they enforce (`Valid()`).
- Application wiring: the FastAPI app, CORS and the generic 500 handler in `backend/main.py`.
- The HTTP transport and the Axios client (`frontend/src/api/api.js`).
- `async` scheduling: each handler is one sequential step.
  - Interleaved requests are not modelled.
  - Delete removes the employee and then its records in two writes; that is not atomic, and the gap between the writes is not modelled.
- The clock: `date.today()` is the `today` parameter of `Dashboard.Summary`.
- `EmailStr` checking and normalisation belong to a third-party library. The model takes its verdict as the `emailAccepted` parameter. The model stores the e-mail as typed, whereas the backend stores the normalised address (`backend/models.py:18`). Two e-mails that differ only in the case of the domain therefore conflict on the unique e-mail index in the source (`backend/database.py:21`), but not in the model.
- Models.ValidateAttendance: accepts dates only as `YYYY-MM-DD` text. Other inputs pydantic also turns into a date (timestamps, date-time texts) are not modelled.
- Models.ValidateEmployee: reports failing field names only, not pydantic's error messages. It does not model the order of checks between the e-mail library and the other fields.
- Text.Strip: strips ASCII whitespace only (space, tab, line feed, vertical tab, form feed, carriage return). Python's `str.strip()` also strips the four ASCII separators U+001C to U+001F and other Unicode spaces. JavaScript's `trim()` also strips other Unicode spaces. For example, the backend rejects the employee id "\x1c" as blank (`backend/models.py:29`), but the model accepts it.
- Text.Lower: lower-cases ASCII letters only.
- EmployeeForm.MatchesEmailPattern: the pattern's `\s` is read as the same ASCII whitespace.
- Ledger.SortByDateDesc: keeps records of the same date in ledger order. The store leaves that order unspecified.
- AttendanceRate.Rate: computes the exact rounding `(200·present + total) div (2·total)`. `Math.round(present / total * 100)` in floating point can differ from it when the quotient is within rounding error of a half.
- The user interface: rendering, React state and hooks, toasts and modals, the sidebar, dialogs and empty or error states.
- Dashboard.jsx also fetches the summary and the employee list; that is not modelled.
- Attendance.jsx: its locale date formatting and its client-side Present/Absent tallies are not part of this model. The tallies only repeat the backend's counts.
- Error detail texts: `Models.Detail` builds them but proves nothing about them.
