/** The tables of models/models.py and the constraints the schema puts on them. */
module Models {
  import opened Base

  // ---------------------------------------------------------------------------
  // User
  // ---------------------------------------------------------------------------

  /** A row of the `user` table. `id` is the integer primary key, `userId` the login name. */
  datatype User = User(
    id: int,
    userId: string,
    firstName: string,
    lastName: string,
    middleName: Option<string>,
    password: string,
    role: string,
    status: string)

  const DefaultRole: string := "employee"
  const DefaultStatus: string := "active"

  /** A user as the ORM inserts it: a role left unset (or None) takes the column default,
      and the status, which the constructor is never given, is always the default. */
  function NewUser(id: int, userId: string, firstName: string, lastName: string,
                   middleName: Option<string>, password: string, role: Option<string>): (u: User)
    ensures u.id == id && u.userId == userId && u.password == password
    ensures u.firstName == firstName && u.lastName == lastName && u.middleName == middleName
    ensures role.None? ==> u.role == DefaultRole
    ensures role.Some? ==> u.role == role.value
    ensures u.status == DefaultStatus
  {
    User(id, userId, firstName, lastName, middleName, password, role.GetOr(DefaultRole), DefaultStatus)
  }

  /** The `unique=True` constraint on `user.user_id`. */
  predicate UniqueUserIds(users: seq<User>) {
    forall i, j :: 0 <= i < j < |users| ==> users[i].userId != users[j].userId
  }

  /** The primary-key constraint on `user.id`. */
  predicate UniqueKeys(users: seq<User>) {
    forall i, j :: 0 <= i < j < |users| ==> users[i].id != users[j].id
  }

  predicate HasUserId(users: seq<User>, userId: string) {
    exists i :: 0 <= i < |users| && users[i].userId == userId
  }

  /** `User.query.filter_by(user_id=...).first()`: the index of the first row with that user_id. */
  function FindUserIndex(users: seq<User>, userId: string): (r: Option<nat>)
    ensures r.None? <==> !HasUserId(users, userId)
    ensures r.Some? ==> r.value < |users| && users[r.value].userId == userId
    ensures r.Some? ==> forall i :: 0 <= i < r.value ==> users[i].userId != userId
  {
    if |users| == 0 then None
    else if users[0].userId == userId then Some(0)
    else
      match FindUserIndex(users[1..], userId)
      case None => None
      case Some(k) => Some(k + 1)
  }

  /** The first row with that user_id, as a value. */
  function FindUser(users: seq<User>, userId: string): (r: Option<User>)
    ensures r.None? <==> !HasUserId(users, userId)
    ensures r.Some? ==> r.value in users && r.value.userId == userId
  {
    match FindUserIndex(users, userId)
    case None => None
    case Some(k) => Some(users[k])
  }

  const Superadmin: string := "superadmin"

  /** `User.query.filter(User.role != "superadmin")`: every other user, in table order. */
  function NonSuperadmins(users: seq<User>): (r: seq<User>)
    ensures |r| <= |users|
    ensures forall k :: 0 <= k < |r| ==> r[k] in users && r[k].role != Superadmin
    ensures forall u :: u in users && u.role != Superadmin ==> u in r
    ensures forall u :: multiset(r)[u] == if u.role != Superadmin then multiset(users)[u] else 0
    ensures Subsequence(r, users)
  {
    var keep := (u: User) => u.role != Superadmin;
    FilterCounts(users, keep);
    FilterMembers(users, keep);
    FilterOrder(users, keep);
    Filter(users, keep)
  }

  /** Under the uniqueness constraint the first match is the only one. */
  lemma FindUserUnique(users: seq<User>, userId: string, i: nat)
    requires UniqueUserIds(users)
    requires i < |users| && users[i].userId == userId
    ensures FindUserIndex(users, userId) == Some(i)
  {
  }

  // ---------------------------------------------------------------------------
  // Attendance
  // ---------------------------------------------------------------------------

  /** A row of the `attendance` table. `userId` and `date` (a day ordinal) are NOT NULL;
      `clockIn` and `clockOut` are nullable instants in seconds. */
  datatype Attendance = Attendance(
    id: int,
    userId: string,
    date: int,
    clockIn: Option<int>,
    clockOut: Option<int>,
    hasIssue: bool)

  predicate IsOpen(a: Attendance) {
    a.clockOut.None?
  }

  // ---------------------------------------------------------------------------
  // Schedule
  // ---------------------------------------------------------------------------

  /** A row of the `schedule` table; `day` is a weekday name and the times are seconds after
      midnight. */
  datatype Schedule = Schedule(
    id: int,
    userId: string,
    day: string,
    startTime: Option<int>,
    endTime: Option<int>,
    isSplitShift: bool,
    splitStartTime: Option<int>,
    splitEndTime: Option<int>)

  /** `UniqueConstraint('user_id', 'day')`. */
  predicate UniqueScheduleKeys(rows: seq<Schedule>) {
    forall i, j :: 0 <= i < j < |rows| ==> rows[i].userId != rows[j].userId || rows[i].day != rows[j].day
  }

  predicate HasSchedule(rows: seq<Schedule>, userId: string, day: string) {
    exists i :: 0 <= i < |rows| && rows[i].userId == userId && rows[i].day == day
  }

  /** Inserting a row: the database refuses a second row for the same (user_id, day). */
  function InsertSchedule(rows: seq<Schedule>, s: Schedule): (r: Option<seq<Schedule>>)
    ensures r.None? <==> HasSchedule(rows, s.userId, s.day)
    ensures r.Some? ==> r.value == rows + [s]
    ensures UniqueScheduleKeys(rows) && r.Some? ==> UniqueScheduleKeys(r.value)
  {
    if HasSchedule(rows, s.userId, s.day) then None else Some(rows + [s])
  }

  /** `Schedule.query.filter_by(user_id=..., day=...).first()`. */
  function FindSchedule(rows: seq<Schedule>, userId: string, day: string): (r: Option<Schedule>)
    ensures r.None? <==> !HasSchedule(rows, userId, day)
    ensures r.Some? ==> r.value in rows && r.value.userId == userId && r.value.day == day
  {
    if |rows| == 0 then None
    else if rows[0].userId == userId && rows[0].day == day then Some(rows[0])
    else
      var r := FindSchedule(rows[1..], userId, day);
      assert HasSchedule(rows, userId, day) <==> HasSchedule(rows[1..], userId, day) by {
        if HasSchedule(rows, userId, day) {
          var i :| 0 <= i < |rows| && rows[i].userId == userId && rows[i].day == day;
          assert rows[1..][i - 1] == rows[i];
        }
      }
      r
  }

  /** Once the constraint holds, a lookup finds the one row its key names. */
  lemma FindScheduleUnique(rows: seq<Schedule>, i: nat)
    requires UniqueScheduleKeys(rows) && i < |rows|
    ensures FindSchedule(rows, rows[i].userId, rows[i].day) == Some(rows[i])
  {
    if i > 0 {
      assert rows[0].userId != rows[i].userId || rows[0].day != rows[i].day;
      assert UniqueScheduleKeys(rows[1..]);
      FindScheduleUnique(rows[1..], i - 1);
    }
  }

  // ---------------------------------------------------------------------------
  // GlobalSettings
  // ---------------------------------------------------------------------------

  /** The settings row. `strictDuration` (a day ordinal) is read by update_strict_mode but is
      not a column of the model; it is carried here as an optional extra field. */
  datatype GlobalSettings = GlobalSettings(
    id: int,
    enableStrictSchedule: bool,
    autoClockOutHours: Option<int>,
    allowEarlyOut: bool,
    allowOvertime: bool,
    defaultStart: Option<int>,
    defaultEnd: Option<int>,
    allowedEarlyInMins: int,
    strictDuration: Option<int>)

  /** A freshly inserted settings row: every column at its declared default. */
  function DefaultSettings(): (s: GlobalSettings)
    ensures s.id == 1
    ensures !s.enableStrictSchedule
    ensures s.autoClockOutHours == Some(10)
    ensures s.allowEarlyOut && !s.allowOvertime
    ensures s.defaultStart == Some(8 * SecondsPerHour) && s.defaultEnd == Some(17 * SecondsPerHour)
    ensures s.allowedEarlyInMins == 5
    ensures s.strictDuration.None?
  {
    GlobalSettings(1, false, Some(10), true, false, Some(8 * SecondsPerHour), Some(17 * SecondsPerHour), 5, None)
  }

  /** `GlobalSettings.get()`: the singleton, looked up by primary key 1. */
  function Get(rows: seq<GlobalSettings>): (r: Option<GlobalSettings>)
    ensures r.None? <==> forall i :: 0 <= i < |rows| ==> rows[i].id != 1
    ensures r.Some? ==> r.value.id == 1 && r.value in rows
  {
    if |rows| == 0 then None
    else if rows[0].id == 1 then Some(rows[0])
    else
      var r := Get(rows[1..]);
      assert forall i :: 1 <= i < |rows| ==> rows[i] == rows[1..][i - 1];
      r
  }

  /** `GlobalSettings.query.first()`: the first row in table order, whatever its id. */
  function First(rows: seq<GlobalSettings>): (r: Option<GlobalSettings>)
    ensures r.None? <==> rows == []
    ensures r.Some? ==> r.value == rows[0]
  {
    if rows == [] then None else Some(rows[0])
  }

  /** The synthetic, never persisted schedule built from the default window. */
  datatype DefaultScheduleView = DefaultScheduleView(startTime: Option<int>, endTime: Option<int>)

  function DefaultSchedule(s: GlobalSettings): (d: DefaultScheduleView)
    ensures d.startTime == s.defaultStart && d.endTime == s.defaultEnd
  {
    DefaultScheduleView(s.defaultStart, s.defaultEnd)
  }

  // ---------------------------------------------------------------------------
  // Logs
  // ---------------------------------------------------------------------------

  /** A row of `system_logs` (the free-text details are not modelled). */
  datatype LogEntry = LogEntry(userId: Option<string>, action: string, timestamp: int)

  // ---------------------------------------------------------------------------
  // The database
  // ---------------------------------------------------------------------------

  /** The tables the routes read and write, in table (insertion) order. */
  class Database {
    var users: seq<User>
    var attendance: seq<Attendance>
    var schedules: seq<Schedule>
    var settings: seq<GlobalSettings>
    var logs: seq<LogEntry>

    /** The schema's constraints. */
    ghost predicate Valid()
      reads this
    {
      UniqueUserIds(users) && UniqueKeys(users) && UniqueScheduleKeys(schedules)
    }

    constructor ()
      ensures Valid()
      ensures users == [] && attendance == [] && schedules == [] && settings == [] && logs == []
    {
      users, attendance, schedules, settings, logs := [], [], [], [], [];
    }
  }
}
