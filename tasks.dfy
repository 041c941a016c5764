/** The periodic auto-clock-out sweep of tasks.py (`auto_clock_out`). */
module Tasks {
  import opened Base
  import opened Models

  /** The cut-off instant, or `None` when the sweep does nothing: no settings row, or
      `auto_clock_out_hours` unset or zero. */
  function Threshold(settings: Option<GlobalSettings>, now: int): (t: Option<int>)
    ensures t.None? <==>
      settings.None? || settings.value.autoClockOutHours.None? || settings.value.autoClockOutHours.value == 0
    ensures t.Some? ==> t.value == now - settings.value.autoClockOutHours.value * SecondsPerHour
  {
    if settings.None? then None
    else
      match settings.value.autoClockOutHours
      case None => None
      case Some(h) => if h == 0 then None else Some(now - h * SecondsPerHour)
  }

  /** An open record that started strictly before the cut-off. */
  predicate Stale(r: Attendance, t: int) {
    IsOpen(r) && r.clockIn.Some? && r.clockIn.value < t
  }

  /** An open record without a clock-in: comparing its `None` with the cut-off raises. */
  predicate Unreadable(r: Attendance) {
    IsOpen(r) && r.clockIn.None?
  }

  /** One record after the sweep has looked at it. */
  function Close(r: Attendance, t: int): (c: Attendance)
    ensures Stale(r, t) ==> c == r.(clockOut := Some(t))
    ensures !Stale(r, t) ==> c == r
  {
    if Stale(r, t) then r.(clockOut := Some(t)) else r
  }

  /** Every record of the table after the sweep has looked at it. */
  function SweepAll(rows: seq<Attendance>, t: int): (swept: seq<Attendance>)
    ensures |swept| == |rows|
    ensures forall i :: 0 <= i < |rows| ==> swept[i] == Close(rows[i], t)
  {
    if rows == [] then [] else [Close(rows[0], t)] + SweepAll(rows[1..], t)
  }

  /** Where the sweep stops with an error: the first open record lacking a clock-in, or the end. */
  function CrashIndex(rows: seq<Attendance>): (k: nat)
    ensures k <= |rows|
    ensures forall i :: 0 <= i < k ==> !Unreadable(rows[i])
    ensures k < |rows| ==> Unreadable(rows[k])
  {
    if rows == [] then 0
    else if Unreadable(rows[0]) then 0
    else CrashIndex(rows[1..]) + 1
  }

  /** The table after `auto_clock_out` with settings row `settings` at instant `now`. Each
      record is committed as soon as it is closed, so an error keeps the records before it. */
  function AfterSweep(rows: seq<Attendance>, settings: Option<GlobalSettings>, now: int): seq<Attendance> {
    match Threshold(settings, now)
    case None => rows
    case Some(t) =>
      var k := CrashIndex(rows);
      SweepAll(rows[..k], t) + rows[k..]
  }

  /** `auto_clock_out()` against the database at instant `now` (the clock is a parameter).
      `crashed` reports the TypeError raised by an open record without a clock-in. */
  method AutoClockOut(db: Database, now: int) returns (crashed: bool)
    requires db.Valid()
    modifies db
    ensures db.Valid()
    ensures db.attendance == AfterSweep(old(db.attendance), First(old(db.settings)), now)
    ensures crashed <==> Threshold(First(old(db.settings)), now).Some? && CrashIndex(old(db.attendance)) < |old(db.attendance)|
    ensures db.users == old(db.users) && db.schedules == old(db.schedules)
    ensures db.settings == old(db.settings) && db.logs == old(db.logs)
  {
    crashed := false;
    var threshold := Threshold(First(db.settings), now);
    if threshold.None? {
      return;
    }
    var t := threshold.value;
    var rows := db.attendance;
    var cur := rows;
    var i := 0;
    while i < |rows|
      invariant 0 <= i <= |rows| && i <= CrashIndex(rows)
      invariant |cur| == |rows|
      invariant forall k :: 0 <= k < i ==> cur[k] == Close(rows[k], t)
      invariant forall k :: i <= k < |rows| ==> cur[k] == rows[k]
      invariant unchanged(db)
    {
      var r := rows[i];
      if IsOpen(r) {
        if r.clockIn.None? {
          crashed := true;
          SweptUpTo(rows, cur, i, t);
          AfterSweepIs(rows, First(db.settings), now, i);
          db.attendance := cur;
          return;
        }
        if r.clockIn.value < t {
          cur := cur[i := r.(clockOut := Some(t))];
        }
      }
      i := i + 1;
    }
    SweptUpTo(rows, cur, |rows|, t);
    AfterSweepIs(rows, First(db.settings), now, |rows|);
    db.attendance := cur;
  }

  /** A table whose first `k` records are closed and whose others are untouched is the
      sweep of the first `k` followed by the rest. */
  lemma SweptUpTo(rows: seq<Attendance>, cur: seq<Attendance>, k: nat, t: int)
    requires k <= |rows| == |cur|
    requires forall j :: 0 <= j < k ==> cur[j] == Close(rows[j], t)
    requires forall j :: k <= j < |rows| ==> cur[j] == rows[j]
    ensures cur == SweepAll(rows[..k], t) + rows[k..]
  {
    var s := SweepAll(rows[..k], t) + rows[k..];
    forall j | 0 <= j < |rows|
      ensures cur[j] == s[j]
    {
      if j < k {
        assert s[j] == Close(rows[..k][j], t);
      } else {
        assert s[j] == rows[k..][j - k];
      }
    }
  }

  /** The table after a sweep that stops at record `k`. */
  lemma AfterSweepIs(rows: seq<Attendance>, settings: Option<GlobalSettings>, now: int, k: nat)
    requires Threshold(settings, now).Some? && CrashIndex(rows) == k
    ensures AfterSweep(rows, settings, now) == SweepAll(rows[..k], Threshold(settings, now).value) + rows[k..]
  {
  }

  /** The crash index is the first unreadable record. */
  lemma {:induction false} CrashIndexAt(rows: seq<Attendance>, i: nat)
    requires i <= |rows|
    requires forall j :: 0 <= j < i ==> !Unreadable(rows[j])
    requires i < |rows| ==> Unreadable(rows[i])
    ensures CrashIndex(rows) == i
  {
    if i > 0 {
      CrashIndexAt(rows[1..], i - 1);
    }
  }

  // ---------------------------------------------------------------------------
  // Properties of the sweep
  // ---------------------------------------------------------------------------

  /** With no settings row, or a zero or unset hour count, the table is unchanged. */
  lemma DisabledSweepChangesNothing(rows: seq<Attendance>, settings: Option<GlobalSettings>, now: int)
    requires settings.None? || settings.value.autoClockOutHours.None? || settings.value.autoClockOutHours == Some(0)
    ensures AfterSweep(rows, settings, now) == rows
  {
  }

  /** Record by record: a stale record is closed at the cut-off instant itself (not at `now`),
      and any other record, closed or still inside the window, is left exactly as it was. */
  lemma SweepRecordwise(rows: seq<Attendance>, settings: Option<GlobalSettings>, now: int, i: nat)
    requires Threshold(settings, now).Some? && CrashIndex(rows) == |rows| && i < |rows|
    ensures var t := Threshold(settings, now).value;
      var after := AfterSweep(rows, settings, now);
      && |after| == |rows|
      && (Stale(rows[i], t) ==> after[i].clockOut == Some(t))
      && (!IsOpen(rows[i]) ==> after[i] == rows[i])
      && (rows[i].clockIn.Some? && rows[i].clockIn.value >= t ==> after[i] == rows[i])
      && after[i].id == rows[i].id && after[i].userId == rows[i].userId
      && after[i].date == rows[i].date && after[i].clockIn == rows[i].clockIn
  {
    assert rows[..|rows|] == rows;
  }

  /** Whatever happens, the sweep only ever fills in clock-outs: every other field of every
      record, and every record that was already closed, is kept. */
  lemma SweepOnlyCloses(rows: seq<Attendance>, settings: Option<GlobalSettings>, now: int)
    ensures var after := AfterSweep(rows, settings, now);
      && |after| == |rows|
      && forall i :: 0 <= i < |rows| ==>
           && after[i].(clockOut := rows[i].clockOut) == rows[i]
           && (!IsOpen(rows[i]) ==> after[i] == rows[i])
  {
    var after := AfterSweep(rows, settings, now);
    if Threshold(settings, now).Some? {
      var t := Threshold(settings, now).value;
      var k := CrashIndex(rows);
      forall i | 0 <= i < |rows|
        ensures after[i].(clockOut := rows[i].clockOut) == rows[i]
        ensures !IsOpen(rows[i]) ==> after[i] == rows[i]
      {
        if i < k {
          assert after[i] == Close(rows[..k][i], t);
        } else {
          assert after[i] == rows[k..][i - k];
        }
      }
    }
  }

  /** After a completed sweep no open record is older than the cut-off. */
  lemma NoStaleAfterSweep(rows: seq<Attendance>, settings: Option<GlobalSettings>, now: int)
    requires Threshold(settings, now).Some? && CrashIndex(rows) == |rows|
    ensures forall i :: 0 <= i < |rows| ==> !Stale(AfterSweep(rows, settings, now)[i], Threshold(settings, now).value)
  {
    assert rows[..|rows|] == rows;
  }

  /** Running the sweep again with the same settings and the same `now` changes nothing. */
  lemma {:induction false} SweepIdempotent(rows: seq<Attendance>, settings: Option<GlobalSettings>, now: int)
    ensures AfterSweep(AfterSweep(rows, settings, now), settings, now) == AfterSweep(rows, settings, now)
  {
    var after := AfterSweep(rows, settings, now);
    if Threshold(settings, now).Some? {
      var t := Threshold(settings, now).value;
      var k := CrashIndex(rows);
      assert |after| == |rows|;
      forall j | 0 <= j < k
        ensures !Unreadable(after[j])
      {
        assert after[j] == Close(rows[..k][j], t);
      }
      if k < |rows| {
        assert after[k] == rows[k..][0];
      }
      CrashIndexAt(after, k);
      var again := AfterSweep(after, settings, now);
      assert again == SweepAll(after[..k], t) + after[k..];
      assert after[..k] == SweepAll(rows[..k], t);
      assert after[k..] == rows[k..];
      forall j | 0 <= j < k
        ensures SweepAll(after[..k], t)[j] == after[..k][j]
      {
        var r := rows[..k][j];
        assert after[..k][j] == Close(r, t);
        assert Close(Close(r, t), t) == Close(r, t);
      }
      assert SweepAll(after[..k], t) == after[..k];
      assert again == after[..k] + after[k..];
      assert after[..k] + after[k..] == after;
    }
  }
}
