/** The dashboard statistics, the password change and the strict-mode expiry of
    routes/admin.py. */
module Admin {
  import opened Base
  import opened Text
  import opened Models
  import Calendar
  import Gia

  // ---------------------------------------------------------------------------
  // Dashboard statistics (`dashboard`)
  // ---------------------------------------------------------------------------

  /** A shift up to this long is compliant. */
  const ComplianceLimit: int := 4 * SecondsPerHour
  /** Time worked beyond this counts as overtime. */
  const OvertimeThreshold: int := 4 * SecondsPerHour

  /** The records of `today` that have a clock-out, in table order. */
  function CompletedOn(attendance: seq<Attendance>, today: int): (r: seq<Attendance>)
    ensures |r| <= |attendance|
    ensures forall k :: 0 <= k < |r| ==> r[k] in attendance && r[k].date == today && r[k].clockOut.Some?
    ensures forall a :: a in attendance && a.date == today && a.clockOut.Some? ==> a in r
    ensures forall a :: multiset(r)[a] == if a.date == today && a.clockOut.Some? then multiset(attendance)[a] else 0
    ensures Subsequence(r, attendance)
  {
    var keep := (a: Attendance) => a.date == today && a.clockOut.Some?;
    FilterCounts(attendance, keep);
    FilterMembers(attendance, keep);
    FilterOrder(attendance, keep);
    Filter(attendance, keep)
  }

  /** Every record has both times, so `datetime.combine` does not raise. */
  predicate Readable(records: seq<Attendance>) {
    forall k :: 0 <= k < |records| ==> records[k].clockIn.Some? && records[k].clockOut.Some?
  }

  /** `combine(today, clock_out) - combine(record.date, clock_in)`; there is no correction for
      a shift that crosses midnight. */
  function Duration(r: Attendance, today: int): int
    requires r.clockIn.Some? && r.clockOut.Some?
  {
    Combine(today, TimeOf(r.clockOut.value)) - Combine(r.date, TimeOf(r.clockIn.value))
  }

  function TotalSeconds(records: seq<Attendance>, today: int): int
    requires Readable(records)
    decreases |records|
  {
    if records == [] then 0
    else TotalSeconds(records[..|records| - 1], today) + Duration(records[|records| - 1], today)
  }

  function OvertimeSeconds(records: seq<Attendance>, today: int): int
    requires Readable(records)
    decreases |records|
  {
    if records == [] then 0
    else
      var d := Duration(records[|records| - 1], today);
      OvertimeSeconds(records[..|records| - 1], today) + (if d > OvertimeThreshold then d - OvertimeThreshold else 0)
  }

  function CompliantCount(records: seq<Attendance>, today: int): int
    requires Readable(records)
    decreases |records|
  {
    if records == [] then 0
    else
      CompliantCount(records[..|records| - 1], today)
      + (if Duration(records[|records| - 1], today) <= ComplianceLimit then 1 else 0)
  }

  datatype DashboardStats = DashboardStats(
    totalEmployees: int,
    totalSeconds: int,
    overtimeSeconds: int,
    compliantShifts: int,
    completedShifts: int)

  /** `dashboard()` for an authorised caller on day `today`: the counters accumulated over
      today's completed records. `None` is the TypeError `datetime.combine` raises on a
      completed record without a clock-in. */
  method Dashboard(db: Database, today: int) returns (stats: Option<DashboardStats>)
    ensures var records := CompletedOn(db.attendance, today);
      && (!Readable(records) ==> stats.None?)
      && (Readable(records) ==>
            stats == Some(DashboardStats(|NonSuperadmins(db.users)|, TotalSeconds(records, today),
                                         OvertimeSeconds(records, today), CompliantCount(records, today), |records|)))
  {
    var records := CompletedOn(db.attendance, today);
    var sums := SumShifts(records, today);
    if sums.Some? {
      var (totalSeconds, overtimeSeconds, compliant) := sums.value;
      stats := Some(DashboardStats(|NonSuperadmins(db.users)|, totalSeconds, overtimeSeconds, compliant, |records|));
    } else {
      stats := None;
    }
  }

  /** The loop of `dashboard()` over today's completed records: total, overtime and
      compliant counts, or `None` at the first record without a clock-in. */
  method SumShifts(records: seq<Attendance>, today: int) returns (sums: Option<(int, int, int)>)
    requires forall k :: 0 <= k < |records| ==> records[k].clockOut.Some?
    ensures !Readable(records) ==> sums.None?
    ensures Readable(records) ==>
      sums == Some((TotalSeconds(records, today), OvertimeSeconds(records, today), CompliantCount(records, today)))
  {
    var totalSeconds, overtimeSeconds, compliant := 0, 0, 0;
    var i := 0;
    while i < |records|
      invariant 0 <= i <= |records|
      invariant Readable(records[..i])
      invariant totalSeconds == TotalSeconds(records[..i], today)
      invariant overtimeSeconds == OvertimeSeconds(records[..i], today)
      invariant compliant == CompliantCount(records[..i], today)
    {
      var record := records[i];
      if record.clockIn.None? {
        return None;
      }
      var duration := Duration(record, today);
      totalSeconds := totalSeconds + duration;
      if duration > OvertimeThreshold {
        overtimeSeconds := overtimeSeconds + (duration - OvertimeThreshold);
      }
      if duration <= ComplianceLimit {
        compliant := compliant + 1;
      }
      DashboardStep(records, i, today);
      i := i + 1;
    }
    assert records[..|records|] == records;
    sums := Some((totalSeconds, overtimeSeconds, compliant));
  }

  /** Adding one readable record to the counters adds its duration to each of them. */
  lemma DashboardStep(records: seq<Attendance>, i: nat, today: int)
    requires i < |records| && Readable(records[..i])
    requires records[i].clockIn.Some? && records[i].clockOut.Some?
    ensures Readable(records[..i + 1])
    ensures var d := Duration(records[i], today);
      && TotalSeconds(records[..i + 1], today) == TotalSeconds(records[..i], today) + d
      && OvertimeSeconds(records[..i + 1], today)
         == OvertimeSeconds(records[..i], today) + (if d > OvertimeThreshold then d - OvertimeThreshold else 0)
      && CompliantCount(records[..i + 1], today)
         == CompliantCount(records[..i], today) + (if d <= ComplianceLimit then 1 else 0)
  {
    var p := records[..i + 1];
    assert p[..i] == records[..i];
    assert p[i] == records[i];
    assert Readable(p) by {
      forall k | 0 <= k < |p| ensures p[k].clockIn.Some? && p[k].clockOut.Some? {
        if k < i {
          assert p[k] == records[..i][k];
        }
      }
    }
  }

  /** `average_hours_worked` before rounding: hours per completed shift, 0 with none. */
  function AverageHours(stats: DashboardStats): (avg: real)
    ensures stats.completedShifts <= 0 ==> avg == 0.0
    ensures stats.completedShifts > 0 ==> avg * (stats.completedShifts as real) * 3600.0 == stats.totalSeconds as real
  {
    if stats.completedShifts > 0 then (stats.totalSeconds as real / 3600.0) / (stats.completedShifts as real) else 0.0
  }

  /** Overtime is never negative, is at least the time beyond four hours a shift summed over
      all shifts, and is zero exactly when every shift is compliant. */
  lemma {:induction false} OvertimeFacts(records: seq<Attendance>, today: int)
    requires Readable(records)
    ensures 0 <= OvertimeSeconds(records, today)
    ensures OvertimeSeconds(records, today) >= TotalSeconds(records, today) - OvertimeThreshold * |records|
    ensures 0 <= CompliantCount(records, today) <= |records|
    ensures OvertimeSeconds(records, today) == 0 <==> CompliantCount(records, today) == |records|
    decreases |records|
  {
    if records != [] {
      OvertimeFacts(records[..|records| - 1], today);
    }
  }

  /** On the dashboard a shift of today that crosses midnight counts as negative time (and is
      compliant), where the monthly report adds a day. */
  lemma CrossMidnightIsNegative(r: Attendance, today: int)
    requires r.date == today && r.clockIn.Some? && r.clockOut.Some?
    requires TimeOf(r.clockOut.value) < TimeOf(r.clockIn.value)
    ensures Duration(r, today) < 0
    ensures Readable([r]) && CompliantCount([r], today) == 1
  {
    assert [r][..0] == [];
  }

  // ---------------------------------------------------------------------------
  // Password change (`account_settings`)
  // ---------------------------------------------------------------------------

  /** `any(char.isdigit() for char in p)`, for ASCII digits. */
  predicate HasDigit(p: string) {
    exists k :: 0 <= k < |p| && IsDigit(p[k])
  }

  /** The strength rule: at least eight characters and a digit. */
  predicate StrongEnough(p: string) {
    |p| >= 8 && HasDigit(p)
  }

  datatype PasswordChange =
    | CurrentIncorrect
    | NoMatch
    | TooWeak
      /** `len(None)` raised: both new-password fields were missing from the form. */
    | Raised
    | Changed(newHash: string)

  /** The checks of `account_settings`, in their order. `checkHash` and `hash` stand for
      Werkzeug's password hashing. */
  function PasswordChangeOutcome(checkHash: (string, Option<string>) -> bool, stored: string,
                                 current: Option<string>, newPassword: Option<string>,
                                 confirm: Option<string>, hash: string -> string): (out: PasswordChange)
    ensures out.Changed? ==>
      && checkHash(stored, current) && newPassword == confirm && newPassword.Some?
      && StrongEnough(newPassword.value) && out.newHash == hash(newPassword.value)
  {
    if !checkHash(stored, current) then CurrentIncorrect
    else if newPassword != confirm then NoMatch
    else if newPassword.None? then Raised
    else if !StrongEnough(newPassword.value) then TooWeak
    else Changed(hash(newPassword.value))
  }

  /** The password changes exactly when all three checks pass; a wrong current password is
      reported first, then a mismatch, then weakness. */
  lemma PasswordChangeOrder(checkHash: (string, Option<string>) -> bool, stored: string,
                            current: Option<string>, newPassword: Option<string>,
                            confirm: Option<string>, hash: string -> string)
    ensures var out := PasswordChangeOutcome(checkHash, stored, current, newPassword, confirm, hash);
      && (out.Changed? <==>
            checkHash(stored, current) && newPassword == confirm && newPassword.Some? && StrongEnough(newPassword.value))
      && (out.Changed? ==> out.newHash == hash(newPassword.value))
      && (!checkHash(stored, current) ==> out == CurrentIncorrect)
      && (checkHash(stored, current) && newPassword != confirm ==> out == NoMatch)
      && (out == TooWeak <==>
            checkHash(stored, current) && newPassword == confirm && newPassword.Some? && !StrongEnough(newPassword.value))
  {
  }

  /** "password1" is accepted and "password" is not: the digit is required. */
  lemma DigitRequired()
    ensures StrongEnough("password1")
    ensures !StrongEnough("password")
  {
    assert IsDigit("password1"[8]);
  }

  /** `account_settings` as written: the new hash is committed, then building the log entry
      with a keyword the Logs model does not have raises TypeError, which the handler catches.
      No log entry is written and the message shown is the error one. Returns whether the
      success message is shown. */
  method AccountSettings(db: Database, index: nat, checkHash: (string, Option<string>) -> bool,
                         current: Option<string>, newPassword: Option<string>, confirm: Option<string>,
                         hash: string -> string)
    returns (outcome: PasswordChange, successShown: bool)
    requires index < |db.users| && db.Valid()
    modifies db
    ensures db.Valid()
    ensures outcome == PasswordChangeOutcome(checkHash, old(db.users[index].password), current, newPassword, confirm, hash)
    ensures db.users == if outcome.Changed? then old(db.users)[index := old(db.users[index]).(password := outcome.newHash)] else old(db.users)
    ensures !successShown
    ensures db.logs == old(db.logs)
    ensures db.attendance == old(db.attendance) && db.schedules == old(db.schedules) && db.settings == old(db.settings)
  {
    outcome := PasswordChangeOutcome(checkHash, db.users[index].password, current, newPassword, confirm, hash);
    successShown := false;
    if outcome.Changed? {
      db.users := db.users[index := db.users[index].(password := outcome.newHash)];
    }
  }

  /** `account_settings` as evidently intended: the password change is logged against the
      user and the success message is shown. */
  method AccountSettingsIntended(db: Database, index: nat, checkHash: (string, Option<string>) -> bool,
                                 current: Option<string>, newPassword: Option<string>, confirm: Option<string>,
                                 hash: string -> string, now: int)
    returns (outcome: PasswordChange, successShown: bool)
    requires index < |db.users| && db.Valid()
    modifies db
    ensures db.Valid()
    ensures outcome == PasswordChangeOutcome(checkHash, old(db.users[index].password), current, newPassword, confirm, hash)
    ensures db.users == if outcome.Changed? then old(db.users)[index := old(db.users[index]).(password := outcome.newHash)] else old(db.users)
    ensures successShown <==> outcome.Changed?
    ensures db.logs == if outcome.Changed?
      then old(db.logs) + [LogEntry(Some(old(db.users[index].userId)), "Updated Account Password", now)]
      else old(db.logs)
    ensures db.attendance == old(db.attendance) && db.schedules == old(db.schedules) && db.settings == old(db.settings)
  {
    outcome := PasswordChangeOutcome(checkHash, db.users[index].password, current, newPassword, confirm, hash);
    successShown := false;
    if outcome.Changed? {
      var userId := db.users[index].userId;
      db.users := db.users[index := db.users[index].(password := outcome.newHash)];
      db.logs := db.logs + [LogEntry(Some(userId), "Updated Account Password", now)];
      successShown := true;
    }
  }

  /** A valid change as written: `account_settings` replaces the password with the new hash,
      yet writes no log entry and does not show the success message. */
  method ValidChangeIsNotReported(db: Database, index: nat, checkHash: (string, Option<string>) -> bool,
                                  current: Option<string>, hash: string -> string)
    returns (successShown: bool)
    requires index < |db.users| && db.Valid() && checkHash(db.users[index].password, current)
    modifies db
    ensures db.Valid()
    ensures db.users == old(db.users)[index := old(db.users[index]).(password := hash("password1"))]
    ensures !successShown
    ensures db.logs == old(db.logs)
  {
    DigitRequired();
    var outcome;
    outcome, successShown := AccountSettings(db, index, checkHash, current, Some("password1"), Some("password1"), hash);
    assert outcome == Changed(hash("password1"));
  }

  // ---------------------------------------------------------------------------
  // Strict-mode expiry (`update_strict_mode`)
  // ---------------------------------------------------------------------------

  /** The guards of `update_strict_mode`: a settings row in strict mode whose duration date
      is set and has been reached. */
  predicate Expires(settings: Option<GlobalSettings>, today: int) {
    && settings.Some? && settings.value.enableStrictSchedule
    && settings.value.strictDuration.Some? && today >= settings.value.strictDuration.value
  }

  /** The settings row after the expiry as written: the duration is cleared and strict
      mode is set to True again, that is, left on. */
  function ExpireStrictMode(row: GlobalSettings): (r: GlobalSettings)
    ensures r.enableStrictSchedule && r.strictDuration.None?
    ensures r.(enableStrictSchedule := row.enableStrictSchedule, strictDuration := row.strictDuration) == row
  {
    row.(enableStrictSchedule := true, strictDuration := None)
  }

  /** The expiry as the function's own heading describes it: strict mode is disabled once
      its date is reached. */
  function ExpireStrictModeIntended(row: GlobalSettings): (r: GlobalSettings)
    ensures !r.enableStrictSchedule && r.strictDuration.None?
    ensures r.(enableStrictSchedule := row.enableStrictSchedule, strictDuration := row.strictDuration) == row
  {
    row.(enableStrictSchedule := false, strictDuration := None)
  }

  /** `update_strict_mode()` at instant `now`; it only ever looks at the first settings row. */
  method UpdateStrictMode(db: Database, now: int)
    requires db.Valid()
    modifies db
    ensures db.Valid()
    ensures Expires(First(old(db.settings)), DayOf(now)) ==>
      && db.settings == old(db.settings)[0 := ExpireStrictMode(old(db.settings[0]))]
      && db.logs == old(db.logs) + [LogEntry(None, "Update", now)]
    ensures !Expires(First(old(db.settings)), DayOf(now)) ==> db.settings == old(db.settings) && db.logs == old(db.logs)
    ensures db.users == old(db.users) && db.attendance == old(db.attendance) && db.schedules == old(db.schedules)
  {
    var settings := First(db.settings);
    if settings.None? || !settings.value.enableStrictSchedule || settings.value.strictDuration.None? {
      return;
    }
    if DayOf(now) >= settings.value.strictDuration.value {
      var row := settings.value.(enableStrictSchedule := true);
      row := row.(strictDuration := None);
      db.settings := db.settings[0 := row];
      db.logs := db.logs + [LogEntry(None, "Update", now)];
    }
  }

  /** As written, strict mode survives its expiry: a late clock-in on the expiry day itself,
      a Monday, is still flagged. */
  lemma ExpiredStrictModeStillFlags()
    ensures var row := DefaultSettings().(enableStrictSchedule := true, strictDuration := Some(1));
      var after := ExpireStrictMode(row);
      var schedule := Schedule(1, "u1", "Monday", Some(8 * SecondsPerHour), Some(17 * SecondsPerHour), false, None, None);
      var entry := Attendance(1, "u1", 1, Some(Combine(1, 9 * SecondsPerHour)), None, false);
      && Expires(Some(row), 1)
      && Gia.CheckFlags(Some(after), [schedule], Some(entry)) == Some([Gia.Inconsistency("u1", 1, Gia.Late)])
  {
    var schedule := Schedule(1, "u1", "Monday", Some(8 * SecondsPerHour), Some(17 * SecondsPerHour), false, None, None);
    var row := DefaultSettings().(enableStrictSchedule := true, strictDuration := Some(1));
    var entry := Attendance(1, "u1", 1, Some(Combine(1, 9 * SecondsPerHour)), None, false);
    assert DayOf(Combine(1, 9 * SecondsPerHour)) == 1;
    assert Calendar.Weekday(1) == 0;
    assert !Calendar.IsWeekend(1);
    assert Calendar.DayName(1) == "Monday";
    assert Gia.Screened(Some(ExpireStrictMode(row)), Some(entry));
    assert Gia.ScheduleFor([schedule], entry) == Some(schedule);
    assert Gia.IsLate(Combine(1, 9 * SecondsPerHour), Combine(1, 8 * SecondsPerHour));
    var flags := Gia.CheckFlags(Some(ExpireStrictMode(row)), [schedule], Some(entry));
    assert flags == Some([Gia.Inconsistency("u1", 1, Gia.Late)] + [] + []);
    assert [Gia.Inconsistency("u1", 1, Gia.Late)] + [] + [] == [Gia.Inconsistency("u1", 1, Gia.Late)];
    assert Expires(Some(row), 1);
  }

  /** As written, the expiry is invisible to the flagger: it reads the same flags from the row
      before and after. */
  lemma ExpiryKeepsFlagging(row: GlobalSettings, today: int, schedules: seq<Schedule>, entry: Option<Attendance>)
    requires Expires(Some(row), today)
    ensures Gia.CheckFlags(Some(ExpireStrictMode(row)), schedules, entry) == Gia.CheckFlags(Some(row), schedules, entry)
  {
  }

  /** The intended expiry turns the flagger off for every entry and schedule table. */
  lemma IntendedExpiryStopsFlags(row: GlobalSettings, schedules: seq<Schedule>, entry: Option<Attendance>)
    ensures Gia.CheckFlags(Some(ExpireStrictModeIntended(row)), schedules, entry) == Some([])
  {
  }
}
