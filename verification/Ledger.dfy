/** What the handlers ask of the two collections, `employees` and
    `attendance`, stated on sequences: the query filters they build, what a
    `find`, a `count_documents` and a `delete_many` with such a filter
    return, the descending sort by date, and the invariants the unique
    indexes enforce. */
module Ledger {
  import opened Wrappers
  import opened Text
  import opened Dates
  import opened Models

  /** A document of the `attendance` collection; `date` is the ISO text. */
  datatype AttendanceRecord = AttendanceRecord(employee_id: string, date: string, status: Status)

  /** The condition a filter puts on `date`: none, equality, or a
      `$gte` / `$lte` range whose ends are each optional. */
  datatype DateCond = AnyDate | OnDate(day: string) | Within(from: Option<string>, to: Option<string>)

  /** A query document on the `attendance` collection. */
  datatype Filter = Filter(employee_id: Option<string>, date: DateCond, status: Option<Status>)

  predicate Matches(r: AttendanceRecord, f: Filter) {
    && (f.employee_id.None? || r.employee_id == f.employee_id.value)
    && (match f.date
        case AnyDate => true
        case OnDate(day) => r.date == day
        case Within(from, to) =>
          (from.None? || LexLe(from.value, r.date)) && (to.None? || LexLe(r.date, to.value)))
    && (f.status.None? || r.status == f.status.value)
  }

  /** `find(filter)` in natural (insertion) order: exactly the matching records. */
  function Find(att: seq<AttendanceRecord>, f: Filter): (r: seq<AttendanceRecord>)
    ensures |r| <= |att|
    ensures forall x :: x in r <==> x in att && Matches(x, f)
  {
    if att == [] then []
    else
      var rest := Find(att[1..], f);
      assert forall x :: x in att <==> x == att[0] || x in att[1..];
      if Matches(att[0], f) then [att[0]] + rest else rest
  }

  /** What `delete_many(filter)` leaves: exactly the records that do not match. */
  function DeleteMany(att: seq<AttendanceRecord>, f: Filter): (r: seq<AttendanceRecord>)
    ensures |r| <= |att|
    ensures forall x :: x in r <==> x in att && !Matches(x, f)
  {
    if att == [] then []
    else
      var rest := DeleteMany(att[1..], f);
      assert forall x :: x in att <==> x == att[0] || x in att[1..];
      if Matches(att[0], f) then rest else [att[0]] + rest
  }

  /** A filter that matches no record finds nothing. */
  lemma NothingFound(att: seq<AttendanceRecord>, f: Filter)
    requires forall x :: x in att ==> !Matches(x, f)
    ensures Find(att, f) == []
  {
  }

  /** Every record is either found or kept by a delete: the number a
      `delete_many` reports equals what a `count_documents` with the same
      filter counted. */
  lemma {:induction false} FindDeleteManySplit(att: seq<AttendanceRecord>, f: Filter)
    ensures |Find(att, f)| + |DeleteMany(att, f)| == |att|
  {
    if att != [] {
      FindDeleteManySplit(att[1..], f);
    }
  }

  /** The inclusive bounds of a date-range query, on a stored ISO date. */
  predicate InRange(date: string, date_from: Option<CalendarDate>, date_to: Option<CalendarDate>) {
    && (date_from.None? || LexLe(IsoFormat(date_from.value), date))
    && (date_to.None? || LexLe(date, IsoFormat(date_to.value)))
  }

  /** The query the attendance handlers build: the employee when given, then
      `$gte` and `$lte` on the ISO date for whichever bounds are given, and no
      date condition when neither is. */
  function RangeFilter(employee_id: Option<string>, date_from: Option<CalendarDate>,
                       date_to: Option<CalendarDate>): (f: Filter)
    ensures forall r :: Matches(r, f) <==>
      (employee_id.None? || r.employee_id == employee_id.value) && InRange(r.date, date_from, date_to)
  {
    var date :=
      if date_from.Some? || date_to.Some? then
        Within(if date_from.Some? then Some(IsoFormat(date_from.value)) else None,
               if date_to.Some? then Some(IsoFormat(date_to.value)) else None)
      else AnyDate;
    Filter(employee_id, date, None)
  }

  /** On a record whose date is a real calendar date, the range filter keeps
      exactly the days between the bounds, both inclusive, in calendar terms. */
  lemma RangeFilterIsCalendarRange(employee_id: Option<string>, date_from: Option<CalendarDate>,
                                   date_to: Option<CalendarDate>, r: AttendanceRecord, day: CalendarDate)
    requires r.date == IsoFormat(day)
    ensures Matches(r, RangeFilter(employee_id, date_from, date_to)) <==>
      && (employee_id.None? || r.employee_id == employee_id.value)
      && (date_from.None? || DateLe(date_from.value, day))
      && (date_to.None? || DateLe(day, date_to.value))
  {
    if date_from.Some? {
      IsoFormatOrder(date_from.value, day);
    }
    if date_to.Some? {
      IsoFormatOrder(day, date_to.value);
    }
  }

  /** A range whose start lies after its end selects nothing, whatever the
      ledger holds: the answer is empty, not an error. */
  lemma ReversedRangeIsEmpty(att: seq<AttendanceRecord>, employee_id: Option<string>,
                             date_from: CalendarDate, date_to: CalendarDate)
    requires !DateLe(date_from, date_to)
    ensures Find(att, RangeFilter(employee_id, Some(date_from), Some(date_to))) == []
  {
    var f := RangeFilter(employee_id, Some(date_from), Some(date_to));
    IsoFormatOrder(date_from, date_to);
    forall x | x in att
      ensures !Matches(x, f)
    {
      if Matches(x, f) {
        LexLeTransitive(IsoFormat(date_from), x.date, IsoFormat(date_to));
      }
    }
  }

  /** Ordered by date, latest first. */
  predicate SortedDesc(s: seq<AttendanceRecord>) {
    forall i, j :: 0 <= i < j < |s| ==> LexLe(s[j].date, s[i].date)
  }

  /** Places `x` in front of the first record not later than it. */
  function InsertDesc(x: AttendanceRecord, s: seq<AttendanceRecord>): (r: seq<AttendanceRecord>)
    ensures multiset(r) == multiset(s) + multiset{x}
  {
    if s == [] then [x]
    else if LexLe(s[0].date, x.date) then [x] + s
    else
      assert s == [s[0]] + s[1..];
      [s[0]] + InsertDesc(x, s[1..])
  }

  /** Inserting into a sorted sequence keeps it sorted. */
  lemma {:induction false} InsertDescSorted(x: AttendanceRecord, s: seq<AttendanceRecord>)
    requires SortedDesc(s)
    ensures SortedDesc(InsertDesc(x, s))
  {
    if s != [] {
      if LexLe(s[0].date, x.date) {
        AllBelow(x, s);
      } else {
        LexLeTotal(s[0].date, x.date);
        var rest := InsertDesc(x, s[1..]);
        InsertDescSorted(x, s[1..]);
        assert s == [s[0]] + s[1..];
        HeadAbove(s[0], rest, s[1..], x);
        var r := [s[0]] + rest;
        forall i, j | 0 <= i < j < |r| ensures LexLe(r[j].date, r[i].date) {
          if i > 0 {
            assert r[i] == rest[i - 1] && r[j] == rest[j - 1];
          }
        }
      }
    }
  }

  /** In a sorted sequence whose head is not later than `x`, no record is. */
  lemma AllBelow(x: AttendanceRecord, s: seq<AttendanceRecord>)
    requires SortedDesc(s) && s != [] && LexLe(s[0].date, x.date)
    ensures forall j :: 0 <= j < |s| ==> LexLe(s[j].date, x.date)
  {
    forall j | 0 <= j < |s| ensures LexLe(s[j].date, x.date) {
      if j > 0 {
        LexLeTransitive(s[j].date, s[0].date, x.date);
      }
    }
  }

  /** A record not earlier than `x` and than every record of `t` is not
      earlier than any record of a permutation of `t` plus `x`. */
  lemma HeadAbove(h: AttendanceRecord, r: seq<AttendanceRecord>, t: seq<AttendanceRecord>, x: AttendanceRecord)
    requires LexLe(x.date, h.date)
    requires forall j :: 0 <= j < |t| ==> LexLe(t[j].date, h.date)
    requires multiset(r) == multiset(t) + multiset{x}
    ensures forall j :: 0 <= j < |r| ==> LexLe(r[j].date, h.date)
  {
    forall j | 0 <= j < |r| ensures LexLe(r[j].date, h.date) {
      assert r[j] in multiset(r);
      if r[j] != x {
        assert r[j] in multiset(t);
        var k :| 0 <= k < |t| && t[k] == r[j];
      }
    }
  }

  /** `.sort("date", -1)`: latest date first, records of one date in ledger order. */
  function SortByDateDesc(s: seq<AttendanceRecord>): (r: seq<AttendanceRecord>)
    ensures SortedDesc(r)
    ensures multiset(r) == multiset(s)
  {
    if s == [] then []
    else
      assert s == [s[0]] + s[1..];
      InsertDescSorted(s[0], SortByDateDesc(s[1..]));
      InsertDesc(s[0], SortByDateDesc(s[1..]))
  }

  /** The documents of `employees` hold pairwise distinct ids (unique index). */
  predicate UniqueIds(emps: seq<Employee>) {
    forall i, j :: 0 <= i < j < |emps| ==> emps[i].employee_id != emps[j].employee_id
  }

  /** The documents of `employees` hold pairwise distinct e-mails (unique index). */
  predicate UniqueEmails(emps: seq<Employee>) {
    forall i, j :: 0 <= i < j < |emps| ==> emps[i].email != emps[j].email
  }

  /** At most one attendance document per (employee, date) (unique compound index). */
  predicate UniqueKeys(att: seq<AttendanceRecord>) {
    forall i, j :: 0 <= i < j < |att| ==>
      att[i].employee_id != att[j].employee_id || att[i].date != att[j].date
  }

  predicate IdTaken(emps: seq<Employee>, employee_id: string) {
    exists i :: 0 <= i < |emps| && emps[i].employee_id == employee_id
  }

  predicate EmailTaken(emps: seq<Employee>, email: string) {
    exists i :: 0 <= i < |emps| && emps[i].email == email
  }

  predicate KeyTaken(att: seq<AttendanceRecord>, employee_id: string, date: string) {
    exists i :: 0 <= i < |att| && att[i].employee_id == employee_id && att[i].date == date
  }

  /** Every attendance document names a stored employee. */
  predicate NoOrphans(emps: seq<Employee>, att: seq<AttendanceRecord>) {
    forall i :: 0 <= i < |att| ==> IdTaken(emps, att[i].employee_id)
  }

  /** Every stored date is the ISO text of a calendar date. */
  predicate WellFormedDates(att: seq<AttendanceRecord>) {
    forall i :: 0 <= i < |att| ==> ParseIsoDate(att[i].date).Some?
  }

  /** The position of the first employee with the id, `|emps|` when none has it. */
  function IndexOfId(emps: seq<Employee>, employee_id: string): (k: nat)
    ensures k <= |emps|
    ensures forall i :: 0 <= i < k ==> emps[i].employee_id != employee_id
    ensures k < |emps| ==> emps[k].employee_id == employee_id
  {
    if emps == [] then 0
    else if emps[0].employee_id == employee_id then 0
    else 1 + IndexOfId(emps[1..], employee_id)
  }

  /** `find_one({"employee_id": id})`: the first employee with that id. */
  function FindEmployee(emps: seq<Employee>, employee_id: string): (r: Option<Employee>)
    ensures r.Some? <==> IdTaken(emps, employee_id)
    ensures r.Some? ==> r.value in emps && r.value.employee_id == employee_id
  {
    var k := IndexOfId(emps, employee_id);
    if k < |emps| then Some(emps[k]) else None
  }

  /** `delete_one({"employee_id": id})`: removes the first employee with that
      id, if any, and keeps the others in order. */
  function DeleteOne(emps: seq<Employee>, employee_id: string): (r: seq<Employee>)
    ensures !IdTaken(emps, employee_id) ==> r == emps
    ensures IdTaken(emps, employee_id) ==> |r| == |emps| - 1
    ensures forall e :: e in r ==> e in emps
    ensures forall e :: e in emps && e.employee_id != employee_id ==> e in r
  {
    var k := IndexOfId(emps, employee_id);
    if k < |emps| then
      assert emps == emps[..k] + [emps[k]] + emps[k + 1..];
      emps[..k] + emps[k + 1..]
    else emps
  }

  /** With unique ids, deleting one employee by id leaves none with that id,
      and the ids and e-mails stay unique. */
  lemma DeleteOneUnique(emps: seq<Employee>, employee_id: string)
    requires UniqueIds(emps)
    ensures !IdTaken(DeleteOne(emps, employee_id), employee_id)
    ensures UniqueIds(DeleteOne(emps, employee_id))
    ensures UniqueEmails(emps) ==> UniqueEmails(DeleteOne(emps, employee_id))
  {
    var k := IndexOfId(emps, employee_id);
    if k < |emps| {
      var r := DeleteOne(emps, employee_id);
      RemoveAt(emps, k, r);
      forall i, j | 0 <= i < j < |r|
        ensures r[i].employee_id != r[j].employee_id
        ensures UniqueEmails(emps) ==> r[i].email != r[j].email
      {
        var i', j' := if i < k then i else i + 1, if j < k then j else j + 1;
        assert r[i] == emps[i'] && r[j] == emps[j'] && i' < j';
      }
      forall i | 0 <= i < |r| ensures r[i].employee_id != employee_id {
        var i' := if i < k then i else i + 1;
        assert r[i] == emps[i'];
      }
    }
  }

  /** Removing position `k` shifts every later element down by one. */
  lemma RemoveAt(emps: seq<Employee>, k: int, r: seq<Employee>)
    requires 0 <= k < |emps| && r == emps[..k] + emps[k + 1..]
    ensures |r| == |emps| - 1
    ensures forall i :: 0 <= i < |r| ==> r[i] == emps[if i < k then i else i + 1]
  {
  }

  /** `count_documents({"employee_id": id, "status": status})`. */
  function CountStatus(att: seq<AttendanceRecord>, employee_id: string, status: Status): nat {
    |Find(att, Filter(Some(employee_id), AnyDate, Some(status)))|
  }

  /** The two per-employee aggregates add up to the employee's whole
      history: every record is either Present or Absent. */
  lemma {:induction false} AggregatesCoverHistory(att: seq<AttendanceRecord>, employee_id: string)
    ensures CountStatus(att, employee_id, Present) + CountStatus(att, employee_id, Absent)
         == |Find(att, Filter(Some(employee_id), AnyDate, None))|
  {
    if att != [] {
      AggregatesCoverHistory(att[1..], employee_id);
    }
  }

  /** The unique compound index leaves at most one record per employee and date. */
  lemma {:induction false} AtMostOnePerDay(att: seq<AttendanceRecord>, employee_id: string, day: string)
    requires UniqueKeys(att)
    ensures |Find(att, Filter(Some(employee_id), OnDate(day), None))| <= 1
  {
    if att != [] {
      var f := Filter(Some(employee_id), OnDate(day), None);
      assert UniqueKeys(att[1..]);
      AtMostOnePerDay(att[1..], employee_id, day);
      if Matches(att[0], f) {
        forall y | y in att[1..] ensures !Matches(y, f) {
          var k :| 0 <= k < |att[1..]| && att[1..][k] == y;
          assert att[k + 1] == y;
        }
        NothingFound(att[1..], f);
      }
    }
  }
}

module LedgerInvariants {
  import opened Wrappers
  import opened Dates
  import opened Models
  import opened Ledger

  /** Registering a new employee keeps every record's employee registered. */
  lemma NoOrphansAfterInsert(emps: seq<Employee>, e: Employee, att: seq<AttendanceRecord>)
    requires NoOrphans(emps, att)
    ensures NoOrphans(emps + [e], att)
  {
    forall i | 0 <= i < |att| ensures IdTaken(emps + [e], att[i].employee_id) {
      assert IdTaken(emps, att[i].employee_id);
      var j :| 0 <= j < |emps| && emps[j].employee_id == att[i].employee_id;
      assert (emps + [e])[j] == emps[j];
    }
  }

  /** An employee that was never registered has no records, so the zero
      aggregates a create reports are the ledger's. */
  lemma UnregisteredHasNoRecords(emps: seq<Employee>, att: seq<AttendanceRecord>, employee_id: string, status: Status)
    requires NoOrphans(emps, att) && !IdTaken(emps, employee_id)
    ensures CountStatus(att, employee_id, status) == 0
  {
    var f := Filter(Some(employee_id), AnyDate, Some(status));
    forall x | x in att ensures !Matches(x, f) {
      var i :| 0 <= i < |att| && att[i] == x;
    }
    NothingFound(att, f);
  }

  /** Appending a record under a fresh key keeps the keys unique. */
  lemma UniqueKeysAfterAppend(att: seq<AttendanceRecord>, rec: AttendanceRecord)
    requires UniqueKeys(att) && !KeyTaken(att, rec.employee_id, rec.date)
    ensures UniqueKeys(att + [rec])
  {
    var s := att + [rec];
    forall i, j | 0 <= i < j < |s| ensures s[i].employee_id != s[j].employee_id || s[i].date != s[j].date {
      if j == |att| {
        assert s[i] == att[i];
      } else {
        assert s[i] == att[i] && s[j] == att[j];
      }
    }
  }

  /** `delete_many` keeps the surviving records in order, so their keys stay unique. */
  lemma {:induction false} UniqueKeysAfterDeleteMany(att: seq<AttendanceRecord>, f: Filter)
    requires UniqueKeys(att)
    ensures UniqueKeys(DeleteMany(att, f))
  {
    if att != [] {
      var t := att[1..];
      assert UniqueKeys(t);
      UniqueKeysAfterDeleteMany(t, f);
      var rest := DeleteMany(t, f);
      if !Matches(att[0], f) {
        var r := [att[0]] + rest;
        forall j | 0 <= j < |rest|
          ensures att[0].employee_id != rest[j].employee_id || att[0].date != rest[j].date
        {
          assert rest[j] in t;
          var k :| 0 <= k < |t| && t[k] == rest[j];
          assert att[k + 1] == t[k];
        }
        forall i, j | 0 <= i < j < |r|
          ensures r[i].employee_id != r[j].employee_id || r[i].date != r[j].date
        {
          if i > 0 {
            assert r[i] == rest[i - 1] && r[j] == rest[j - 1];
          } else {
            assert r[j] == rest[j - 1];
          }
        }
      }
    }
  }

  /** `find` keeps the matching records in order, so their keys stay unique. */
  lemma {:induction false} UniqueKeysAfterFind(att: seq<AttendanceRecord>, f: Filter)
    requires UniqueKeys(att)
    ensures UniqueKeys(Find(att, f))
  {
    if att != [] {
      var t := att[1..];
      assert UniqueKeys(t);
      UniqueKeysAfterFind(t, f);
      var rest := Find(t, f);
      if Matches(att[0], f) {
        var r := [att[0]] + rest;
        forall j | 0 <= j < |rest|
          ensures att[0].employee_id != rest[j].employee_id || att[0].date != rest[j].date
        {
          assert rest[j] in t;
          var k :| 0 <= k < |t| && t[k] == rest[j];
          assert att[k + 1] == t[k];
        }
        forall i, j | 0 <= i < j < |r|
          ensures r[i].employee_id != r[j].employee_id || r[i].date != r[j].date
        {
          if i > 0 {
            assert r[i] == rest[i - 1] && r[j] == rest[j - 1];
          } else {
            assert r[j] == rest[j - 1];
          }
        }
      }
    }
  }

  /** Deleting an employee together with all its records leaves no orphan. */
  lemma NoOrphansAfterCascade(emps: seq<Employee>, att: seq<AttendanceRecord>, employee_id: string)
    requires NoOrphans(emps, att)
    ensures NoOrphans(DeleteOne(emps, employee_id),
                      DeleteMany(att, Filter(Some(employee_id), AnyDate, None)))
  {
    var emps', att' := DeleteOne(emps, employee_id), DeleteMany(att, Filter(Some(employee_id), AnyDate, None));
    forall i | 0 <= i < |att'| ensures IdTaken(emps', att'[i].employee_id) {
      var x := att'[i];
      assert x in att;
      var k :| 0 <= k < |att| && att[k] == x;
      var j :| 0 <= j < |emps| && emps[j].employee_id == x.employee_id;
      assert emps[j] in emps';
      var j' :| 0 <= j' < |emps'| && emps'[j'] == emps[j];
    }
  }

  /** Every record a `delete_many` or `find` keeps was in the ledger, so the
      stored dates stay well formed. */
  lemma WellFormedAfterDeleteMany(att: seq<AttendanceRecord>, f: Filter)
    requires WellFormedDates(att)
    ensures WellFormedDates(DeleteMany(att, f))
  {
    var r := DeleteMany(att, f);
    forall i | 0 <= i < |r| ensures ParseIsoDate(r[i].date).Some? {
      assert r[i] in att;
      var k :| 0 <= k < |att| && att[k] == r[i];
    }
  }
}
