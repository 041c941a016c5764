/** The attendance anomaly flagger of routes/gia.py (`check_attendance_flags`). */
module Gia {
  import opened Base
  import opened Calendar
  import opened Models

  datatype IssueType = Late | EarlyOut | Overtime

  /** An AttendanceInconsistency row (the class is used but not defined in the code shown;
      the free-text details are not modelled). */
  datatype Inconsistency = Inconsistency(userId: string, date: int, issueType: IssueType)

  /** Grace after the scheduled start, fixed at zero minutes. */
  const AllowedLateMinutes: int := 0
  /** Work beyond the scheduled length plus this buffer is overtime. */
  const OvertimeBuffer: int := 4 * SecondsPerHour

  predicate IsLate(clockIn: int, scheduleStart: int) {
    clockIn > scheduleStart + AllowedLateMinutes * SecondsPerMinute
  }

  predicate IsEarlyOut(clockOut: Option<int>, scheduleEnd: int) {
    clockOut.Some? && clockOut.value < scheduleEnd
  }

  predicate IsOvertime(clockIn: int, clockOut: Option<int>, scheduleStart: int, scheduleEnd: int) {
    clockOut.Some? && clockOut.value - clockIn > (scheduleEnd - scheduleStart) + OvertimeBuffer
  }

  /** The guards before the schedule lookup all pass: strict mode is on, the entry exists with a
      clock-in, and that clock-in falls on a weekday (Monday to Friday). */
  predicate Screened(settings: Option<GlobalSettings>, entry: Option<Attendance>) {
    && settings.Some? && settings.value.enableStrictSchedule
    && entry.Some? && entry.value.clockIn.Some?
    && !IsWeekend(DayOf(entry.value.clockIn.value))
  }

  /** The persisted schedule row the flagger compares against, when the guards pass. */
  function ScheduleFor(schedules: seq<Schedule>, entry: Attendance): Option<Schedule>
    requires entry.clockIn.Some?
  {
    FindSchedule(schedules, entry.userId, DayName(DayOf(entry.clockIn.value)))
  }

  /** The weekday guard and the lookup agree: a screened entry is compared only against a
      Monday-to-Friday schedule row of its own user, never against a weekend one. */
  lemma ScreenedLooksUpWorkday(settings: Option<GlobalSettings>, schedules: seq<Schedule>, entry: Option<Attendance>)
    requires Screened(settings, entry)
    ensures var row := ScheduleFor(schedules, entry.value);
      row.Some? ==> row.value.userId == entry.value.userId && row.value.day in DayNames[..5]
  {
  }

  /** Flags that `check_attendance_flags` adds for one entry, in order. `None` means the call
      raises: `datetime.combine` is given a schedule time that is NULL. */
  function CheckFlags(settings: Option<GlobalSettings>, schedules: seq<Schedule>,
                      entry: Option<Attendance>): (r: Option<seq<Inconsistency>>)
    ensures !Screened(settings, entry) ==> r == Some([])
    ensures Screened(settings, entry) && ScheduleFor(schedules, entry.value).None? ==> r == Some([])
    ensures r.None? <==>
      Screened(settings, entry) && ScheduleFor(schedules, entry.value).Some?
      && (ScheduleFor(schedules, entry.value).value.startTime.None?
          || ScheduleFor(schedules, entry.value).value.endTime.None?)
    ensures r.Some? ==> |r.value| <= 3
    ensures r.Some? ==> forall k :: 0 <= k < |r.value| ==>
      r.value[k].userId == entry.value.userId && r.value[k].date == DayOf(entry.value.clockIn.value)
    ensures r.Some? ==> forall i, j :: 0 <= i < j < |r.value| ==>
      Rank(r.value[i].issueType) < Rank(r.value[j].issueType)
  {
    if !Screened(settings, entry) then Some([])
    else
      var e := entry.value;
      var clockIn := e.clockIn.value;
      var today := DayOf(clockIn);
      match ScheduleFor(schedules, e)
      case None => Some([])
      case Some(s) =>
        if s.startTime.None? || s.endTime.None? then None
        else
          var start := Combine(today, s.startTime.value);
          var end := Combine(today, s.endTime.value);
          Some((if IsLate(clockIn, start) then [Inconsistency(e.userId, today, Late)] else [])
             + (if IsEarlyOut(e.clockOut, end) then [Inconsistency(e.userId, today, EarlyOut)] else [])
             + (if IsOvertime(clockIn, e.clockOut, start, end) then [Inconsistency(e.userId, today, Overtime)] else []))
  }

  /** The order in which the three checks run. */
  function Rank(t: IssueType): int {
    match t
    case Late => 0
    case EarlyOut => 1
    case Overtime => 2
  }

  predicate Flagged(flags: seq<Inconsistency>, t: IssueType) {
    exists k :: 0 <= k < |flags| && flags[k].issueType == t
  }

  /** Each flag is emitted exactly when its own condition holds against the persisted schedule. */
  lemma FlagConditions(settings: Option<GlobalSettings>, schedules: seq<Schedule>, entry: Option<Attendance>)
    requires Screened(settings, entry)
    requires ScheduleFor(schedules, entry.value).Some?
    requires ScheduleFor(schedules, entry.value).value.startTime.Some?
    requires ScheduleFor(schedules, entry.value).value.endTime.Some?
    ensures CheckFlags(settings, schedules, entry).Some?
    ensures
      var e := entry.value;
      var s := ScheduleFor(schedules, e).value;
      var day := DayOf(e.clockIn.value);
      var start := Combine(day, s.startTime.value);
      var end := Combine(day, s.endTime.value);
      var flags := CheckFlags(settings, schedules, entry).value;
      && (Flagged(flags, Late) <==> e.clockIn.value > start)
      && (Flagged(flags, EarlyOut) <==> e.clockOut.Some? && e.clockOut.value < end)
      && (Flagged(flags, Overtime) <==>
            e.clockOut.Some? && e.clockOut.value - e.clockIn.value > (end - start) + 4 * 3600)
  {
    var e := entry.value;
    var s := ScheduleFor(schedules, e).value;
    var day := DayOf(e.clockIn.value);
    var start := Combine(day, s.startTime.value);
    var end := Combine(day, s.endTime.value);
    var a := if IsLate(e.clockIn.value, start) then [Inconsistency(e.userId, day, Late)] else [];
    var b := if IsEarlyOut(e.clockOut, end) then [Inconsistency(e.userId, day, EarlyOut)] else [];
    var c := if IsOvertime(e.clockIn.value, e.clockOut, start, end) then [Inconsistency(e.userId, day, Overtime)] else [];
    var flags := CheckFlags(settings, schedules, entry).value;
    assert flags == a + b + c;
    SingleFlag(a, e.userId, day, Late, IsLate(e.clockIn.value, start));
    SingleFlag(b, e.userId, day, EarlyOut, IsEarlyOut(e.clockOut, end));
    SingleFlag(c, e.userId, day, Overtime, IsOvertime(e.clockIn.value, e.clockOut, start, end));
    FlaggedConcat(a, b, c);
  }

  lemma SingleFlag(flags: seq<Inconsistency>, userId: string, day: int, t: IssueType, cond: bool)
    requires flags == if cond then [Inconsistency(userId, day, t)] else []
    ensures forall u :: Flagged(flags, u) <==> cond && u == t
  {
    if cond {
      assert flags[0].issueType == t;
    }
  }

  lemma FlaggedConcat(a: seq<Inconsistency>, b: seq<Inconsistency>, c: seq<Inconsistency>)
    ensures forall t :: Flagged(a + b + c, t) <==> Flagged(a, t) || Flagged(b, t) || Flagged(c, t)
  {
    var flags := a + b + c;
    forall t | true
      ensures Flagged(flags, t) <==> Flagged(a, t) || Flagged(b, t) || Flagged(c, t)
    {
      if Flagged(flags, t) {
        var k :| 0 <= k < |flags| && flags[k].issueType == t;
        if k < |a| {
          assert a[k] == flags[k];
        } else if k < |a| + |b| {
          assert b[k - |a|] == flags[k];
        } else {
          assert c[k - |a| - |b|] == flags[k];
        }
      }
      if Flagged(a, t) {
        var k :| 0 <= k < |a| && a[k].issueType == t;
        assert flags[k] == a[k];
      }
      if Flagged(b, t) {
        var k :| 0 <= k < |b| && b[k].issueType == t;
        assert flags[|a| + k] == b[k];
      }
      if Flagged(c, t) {
        var k :| 0 <= k < |c| && c[k].issueType == t;
        assert flags[|a| + |b| + k] == c[k];
      }
    }
  }

  /** A fresh settings row has strict mode off, so it never produces a flag. */
  lemma DefaultSettingsNeverFlag(schedules: seq<Schedule>, entry: Option<Attendance>)
    ensures CheckFlags(Some(DefaultSettings()), schedules, entry) == Some([])
  {
  }

  /** The AttendanceInconsistency table, which only ever grows. */
  class InconsistencyTable {
    var rows: seq<Inconsistency>

    constructor ()
      ensures rows == []
    {
      rows := [];
    }
  }

  /** `check_attendance_flags(entry)`: reads the first settings row and the schedules, and adds
      the flags to the table; when the call raises, nothing is added. */
  method CheckAttendanceFlags(db: Database, table: InconsistencyTable, entry: Option<Attendance>)
    returns (raised: bool)
    modifies table
    ensures var r := CheckFlags(First(db.settings), db.schedules, entry);
      && raised == r.None?
      && table.rows == if r.None? then old(table.rows) else old(table.rows) + r.value
  {
    var r := CheckFlags(First(db.settings), db.schedules, entry);
    raised := r.None?;
    if !raised {
      table.rows := table.rows + r.value;
    }
  }
}
