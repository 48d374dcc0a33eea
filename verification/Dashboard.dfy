/** The dashboard summary: the directory's size, today's Present and Absent
    counts, and how many employees are not marked today, clamped at zero.
    `today` is a parameter instead of the clock. */
module Dashboard {
  import opened Wrappers
  import opened Dates
  import opened Models
  import opened Ledger
  import opened LedgerInvariants

  /** `count_documents({"date": today, "status": status})`. */
  function CountOnDay(att: seq<AttendanceRecord>, day: string, status: Status): nat {
    |Find(att, Filter(None, OnDate(day), Some(status)))|
  }

  /** `get_dashboard_summary`. */
  function Summary(employees: seq<Employee>, attendance: seq<AttendanceRecord>, today: CalendarDate): (s: DashboardSummary)
    ensures s.total_employees == |employees|
    ensures s.present_today == CountOnDay(attendance, IsoFormat(today), Present)
    ensures s.absent_today == CountOnDay(attendance, IsoFormat(today), Absent)
    ensures s.not_marked_today >= 0
    ensures s.not_marked_today >= s.total_employees - s.present_today - s.absent_today
    ensures s.present_today + s.absent_today <= s.total_employees ==>
      s.not_marked_today == s.total_employees - s.present_today - s.absent_today
    ensures s.present_today + s.absent_today >= s.total_employees ==> s.not_marked_today == 0
  {
    var total := |employees|;
    var day := IsoFormat(today);
    var present := |Find(attendance, Filter(None, OnDate(day), Some(Present)))|;
    var absent := |Find(attendance, Filter(None, OnDate(day), Some(Absent)))|;
    var notMarked := total - present - absent;
    DashboardSummary(total, present, absent, if 0 >= notMarked then 0 else notMarked)
  }

  /** Today's Present and Absent counts add up to the number of records of the day. */
  lemma {:induction false} DayCountsCover(att: seq<AttendanceRecord>, day: string)
    ensures CountOnDay(att, day, Present) + CountOnDay(att, day, Absent)
         == |Find(att, Filter(None, OnDate(day), None))|
  {
    if att != [] {
      DayCountsCover(att[1..], day);
    }
  }

  /** A sequence of pairwise distinct values has as many values as elements. */
  lemma {:induction false} DistinctCard(s: seq<string>)
    requires forall i, j :: 0 <= i < j < |s| ==> s[i] != s[j]
    ensures |set x | x in s| == |s|
  {
    if s != [] {
      DistinctCard(s[1..]);
      assert (set x | x in s) == {s[0]} + (set x | x in s[1..]);
      assert s[0] !in s[1..];
    }
  }

  /** With one record per employee and day and no orphan, no more employees
      are marked on a day than are registered. */
  lemma DayRecordsBounded(emps: seq<Employee>, att: seq<AttendanceRecord>, day: string)
    requires UniqueIds(emps) && UniqueKeys(att) && NoOrphans(emps, att)
    ensures |Find(att, Filter(None, OnDate(day), None))| <= |emps|
  {
    var t := Find(att, Filter(None, OnDate(day), None));
    var tIds := seq(|t|, i requires 0 <= i < |t| => t[i].employee_id);
    var eIds := seq(|emps|, i requires 0 <= i < |emps| => emps[i].employee_id);
    DayIdsDistinct(att, day, t, tIds);
    DistinctCard(tIds);
    DistinctCard(eIds);
    var a, b := set x | x in tIds, set x | x in eIds;
    DayIdsRegistered(emps, att, t, tIds, eIds);
    assert b == a + (b - a);
  }

  /** The records of one day carry pairwise distinct employee ids. */
  lemma DayIdsDistinct(att: seq<AttendanceRecord>, day: string, t: seq<AttendanceRecord>, tIds: seq<string>)
    requires UniqueKeys(att) && t == Find(att, Filter(None, OnDate(day), None))
    requires |tIds| == |t| && forall i :: 0 <= i < |t| ==> tIds[i] == t[i].employee_id
    ensures forall i, j :: 0 <= i < j < |tIds| ==> tIds[i] != tIds[j]
  {
    UniqueKeysAfterFind(att, Filter(None, OnDate(day), None));
    forall i | 0 <= i < |t| ensures t[i].date == day {
      assert t[i] in t;
    }
  }

  /** Every id among a day's records belongs to a registered employee. */
  lemma DayIdsRegistered(emps: seq<Employee>, att: seq<AttendanceRecord>, t: seq<AttendanceRecord>,
                         tIds: seq<string>, eIds: seq<string>)
    requires NoOrphans(emps, att) && forall x :: x in t ==> x in att
    requires |tIds| == |t| && forall i :: 0 <= i < |t| ==> tIds[i] == t[i].employee_id
    requires |eIds| == |emps| && forall i :: 0 <= i < |emps| ==> eIds[i] == emps[i].employee_id
    ensures (set x | x in tIds) <= (set x | x in eIds)
  {
    forall x | x in tIds ensures x in eIds {
      var i :| 0 <= i < |tIds| && tIds[i] == x;
      assert t[i] in att;
      var k :| 0 <= k < |att| && att[k] == t[i];
      assert IdTaken(emps, att[k].employee_id);
      var j :| 0 <= j < |emps| && emps[j].employee_id == x;
      assert eIds[j] == x;
    }
  }

  /** In a store that keeps its invariants the clamp never fires: today's
      Present and Absent counts never exceed the number of employees, and
      `not_marked_today` is the plain difference. */
  lemma ClampNeverNeeded(emps: seq<Employee>, att: seq<AttendanceRecord>, today: CalendarDate)
    requires UniqueIds(emps) && UniqueKeys(att) && NoOrphans(emps, att)
    ensures var s := Summary(emps, att, today);
      s.present_today + s.absent_today <= s.total_employees &&
      s.not_marked_today == s.total_employees - s.present_today - s.absent_today
  {
    DayCountsCover(att, IsoFormat(today));
    DayRecordsBounded(emps, att, IsoFormat(today));
  }
}
