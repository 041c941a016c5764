/** The monthly time record report of routes/admin.py (`export_pdf`): the month argument,
    the month's bounds, the two shift slots of each user and day, the per-user totals and
    the pairing of users for the two-column layout. */
module AdminReport {
  import opened Base
  import opened Text
  import opened Calendar
  import opened Models
  import opened Sorting

  // ---------------------------------------------------------------------------
  // The month argument
  // ---------------------------------------------------------------------------

  /** `strftime('%Y-%m')`. */
  function MonthArg(d: Date): (s: string)
    requires ValidDate(d)
  {
    NatToString(d.year) + "-" + Pad2(d.month)
  }

  /** `request.args.get('month', '').strip() or <this month>`. */
  function SelectedMonth(arg: Option<string>, today: Date): (s: string)
    requires ValidDate(today)
    ensures Strip(arg.GetOr("")) != "" ==> s == Strip(arg.GetOr(""))
    ensures Strip(arg.GetOr("")) == "" ==> s == MonthArg(today)
  {
    var given := Strip(arg.GetOr(""));
    if given == "" then MonthArg(today) else given
  }

  /** `year, month = map(int, selected_month.split('-'))`; `None` is the ValueError, raised
      when there are not exactly two parts or a part is not an integer. */
  function ParseMonthArg(s: string): (r: Option<(int, int)>)
    ensures r.Some? <==>
      |Split(s, '-')| == 2 && PyInt(Split(s, '-')[0]).Some? && PyInt(Split(s, '-')[1]).Some?
    ensures r.Some? ==> r.value == (PyInt(Split(s, '-')[0]).value, PyInt(Split(s, '-')[1]).value)
  {
    var parts := Split(s, '-');
    if |parts| != 2 then None
    else
      match (PyInt(parts[0]), PyInt(parts[1]))
      case (Some(y), Some(m)) => Some((y, m))
      case _ => None
  }

  /** The default month, and the month of the redirect after a bad argument, parses back
      to the year and month it was rendered from. */
  lemma MonthArgRoundTrip(d: Date)
    requires ValidDate(d)
    ensures ParseMonthArg(MonthArg(d)) == Some((d.year, d.month))
  {
    var y, m := NatToString(d.year), Pad2(d.month);
    DigitsExclude(y, '-');
    DigitsExclude(m, '-');
    SplitAfter(y, '-', m);
    SplitNone(m, '-');
    var parts := Split(MonthArg(d), '-');
    assert parts == [y, m];
    PyIntOfDigits(y);
    PyIntOfDigits(m);
    NatToStringRoundTrip(d.year);
    assert PyInt(parts[0]) == Some(d.year) && PyInt(parts[1]) == Some(d.month);
  }

  // ---------------------------------------------------------------------------
  // Bounds of the month
  // ---------------------------------------------------------------------------

  datatype MonthBounds =
    | Bounds(first: Date, last: Date, totalDays: int)
      /** `datetime(year, month, 1)` raised ValueError, or `first_day + timedelta(days=32)`
          raised OverflowError. */
    | DateRejected

  /** `first_day`, `last_day` (the first of the month after `first + 32 days`, minus a day)
      and `total_days` as routes/admin.py computes them. */
  function MonthBoundsOf(year: int, month: int): (b: MonthBounds)
    ensures b.Bounds? ==> ValidDate(b.first) && ValidDate(b.last) && b.first == Date(year, month, 1)
  {
    if !(MinYear <= year <= MaxYear && 1 <= month <= 12) then DateRejected
    else
      var first := Date(year, month, 1);
      match AddDays(first, 32)
      case None => DateRejected
      case Some(later) =>
        match PrevDay(later.(day := 1))
        case None => DateRejected
        case Some(last) => Bounds(first, last, ToOrdinal(last) - ToOrdinal(first) + 1)
  }

  /** The first day of the month after (year, month). */
  function NextMonthStart(year: int, month: int): Date {
    if month < 12 then Date(year, month + 1, 1) else Date(year + 1, 1, 1)
  }

  /** For every month Python can represent except December 9999, the bounds are the first and
      the last day of that month and the day count is the month's length. */
  lemma MonthBoundsCorrect(year: int, month: int)
    requires MinYear <= year <= MaxYear && 1 <= month <= 12
    requires !(year == MaxYear && month == 12)
    ensures var n := DaysInMonth(year, month);
      MonthBoundsOf(year, month) == Bounds(Date(year, month, 1), Date(year, month, n), n)
  {
    var n := DaysInMonth(year, month);
    var next := NextMonthStart(year, month);
    AddThirtyTwoDays(year, month);
    assert PrevDay(next) == Some(Date(year, month, n)) by {
      PrevOfNextMonthStart(year, month);
    }
  }

  /** A month's length in days after its first day is the first day of the next month. */
  lemma StepToNextMonth(year: int, month: int)
    requires MinYear <= year <= MaxYear && 1 <= month <= 12
    requires !(year == MaxYear && month == 12)
    ensures ValidDate(NextMonthStart(year, month))
    ensures AddDays(Date(year, month, 1), DaysInMonth(year, month)) == Some(NextMonthStart(year, month))
  {
    var first := Date(year, month, 1);
    var n := DaysInMonth(year, month);
    var lastDay := Date(year, month, n);
    AddDaysInMonth(first, n - 1);
    assert first.(day := first.day + (n - 1)) == lastDay;
    AddDaysSplit(first, n - 1, 1);
    MonthEndNextDay(year, month);
    assert AddDays(lastDay, 1) == NextDay(lastDay);
  }

  lemma MonthEndNextDay(year: int, month: int)
    requires MinYear <= year <= MaxYear && 1 <= month <= 12
    requires !(year == MaxYear && month == 12)
    ensures ValidDate(NextMonthStart(year, month))
    ensures NextDay(Date(year, month, DaysInMonth(year, month))) == Some(NextMonthStart(year, month))
  {
  }

  /** `first_day + timedelta(days=32)` lands in the next month, on day 33 minus the month's length. */
  lemma AddThirtyTwoDays(year: int, month: int)
    requires MinYear <= year <= MaxYear && 1 <= month <= 12
    requires !(year == MaxYear && month == 12)
    ensures var next := NextMonthStart(year, month);
      AddDays(Date(year, month, 1), 32) == Some(next.(day := 33 - DaysInMonth(year, month)))
  {
    var n := DaysInMonth(year, month);
    var next := NextMonthStart(year, month);
    StepToNextMonth(year, month);
    assert DaysInMonth(next.year, next.month) >= 28;
    AddDaysInMonth(next, 32 - n);
    AddDaysSplit(Date(year, month, 1), n, 32 - n);
  }

  lemma PrevOfNextMonthStart(year: int, month: int)
    requires MinYear <= year <= MaxYear && 1 <= month <= 12
    requires !(year == MaxYear && month == 12)
    ensures ValidDate(NextMonthStart(year, month))
    ensures PrevDay(NextMonthStart(year, month)) == Some(Date(year, month, DaysInMonth(year, month)))
  {
  }

  /** December 9999: adding 32 days leaves the calendar, so the report fails. */
  lemma LastMonthOverflows()
    ensures MonthBoundsOf(MaxYear, 12) == DateRejected
  {
    var first := Date(MaxYear, 12, 1);
    AddDaysInMonth(first, 30);
    AddDaysSplit(first, 30, 2);
    assert NextDay(Date(MaxYear, 12, 31)).None?;
  }

  /** The month's length as the report sees it: 28 to 31 days, 29 in a leap February. */
  lemma TotalDaysIsMonthLength(year: int, month: int)
    requires MinYear <= year <= MaxYear && 1 <= month <= 12 && !(year == MaxYear && month == 12)
    ensures MonthBoundsOf(year, month).Bounds?
    ensures 28 <= MonthBoundsOf(year, month).totalDays <= 31
    ensures month == 2 ==> (MonthBoundsOf(year, month).totalDays == 29 <==> IsLeap(year))
  {
    MonthBoundsCorrect(year, month);
  }

  // ---------------------------------------------------------------------------
  // Shift slots
  // ---------------------------------------------------------------------------

  datatype Shift = Shift(clockIn: Option<int>, clockOut: Option<int>)
  datatype DaySlots = DaySlots(shift1: Shift, shift2: Shift)

  const EmptyShift: Shift := Shift(None, None)
  const EmptySlots: DaySlots := DaySlots(EmptyShift, EmptyShift)

  /** `to_datetime`: a Time value placed on the record's date. */
  function ReadTime(value: Option<int>, date: int): (r: Option<int>)
    ensures r.None? <==> value.None?
    ensures r.Some? ==> Combine(date, 0) <= r.value < Combine(date + 1, 0)
  {
    match value
    case None => None
    case Some(x) => Some(Combine(date, TimeOf(x)))
  }

  /** The slot assignment for one record with times `cin` and `cout`. The middle branch is
      kept although shift 1 always receives both of its times at once. */
  function Place(slot: DaySlots, cin: Option<int>, cout: Option<int>): DaySlots {
    if cin.Some? && cout.Some? then
      if slot.shift1.clockIn.None? then slot.(shift1 := Shift(cin, cout))
      else if slot.shift1.clockOut.None? then slot.(shift1 := slot.shift1.(clockOut := cout))
      else slot.(shift2 := Shift(cin, cout))
    else slot
  }

  /** The slots one day ends with, starting empty, after the records in the given order. */
  function PlaceAll(records: seq<Attendance>): DaySlots
    decreases |records|
  {
    if records == [] then EmptySlots
    else
      var r := records[|records| - 1];
      Place(PlaceAll(records[..|records| - 1]), ReadTime(r.clockIn, r.date), ReadTime(r.clockOut, r.date))
  }

  // Independent description of the slots: the complete (clock-in, clock-out) pairs of a day,
  // the first of them in shift 1 and, when there are several, the last of them in shift 2.

  function CompletePairs(records: seq<Attendance>): (ps: seq<(int, int)>)
    ensures |ps| <= |records|
    decreases |records|
  {
    if records == [] then []
    else
      var r := records[|records| - 1];
      var init := CompletePairs(records[..|records| - 1]);
      if r.clockIn.Some? && r.clockOut.Some? then
        init + [(Combine(r.date, TimeOf(r.clockIn.value)), Combine(r.date, TimeOf(r.clockOut.value)))]
      else init
  }

  function Filled(p: (int, int)): Shift {
    Shift(Some(p.0), Some(p.1))
  }

  function Expected(ps: seq<(int, int)>): DaySlots {
    if |ps| == 0 then EmptySlots
    else if |ps| == 1 then DaySlots(Filled(ps[0]), EmptyShift)
    else DaySlots(Filled(ps[0]), Filled(ps[|ps| - 1]))
  }

  /** Shift 1 holds the first complete pair, shift 2 the last one when there are at least two,
      so a third pair overwrites the second; records missing a time fill nothing. */
  lemma {:induction false} PlaceAllExpected(records: seq<Attendance>)
    ensures PlaceAll(records) == Expected(CompletePairs(records))
    decreases |records|
  {
    if records != [] {
      var init := records[..|records| - 1];
      PlaceAllExpected(init);
      var ps := CompletePairs(init);
      var r := records[|records| - 1];
      if r.clockIn.Some? && r.clockOut.Some? {
        var p := (Combine(r.date, TimeOf(r.clockIn.value)), Combine(r.date, TimeOf(r.clockOut.value)));
        assert CompletePairs(records) == ps + [p];
        assert (ps + [p])[0] == if ps == [] then p else ps[0];
      }
    }
  }

  /** Three complete records on one day: the third replaces the second in shift 2. */
  lemma ThirdPairOverwritesSecond(a: Attendance, b: Attendance, c: Attendance)
    requires a.clockIn.Some? && a.clockOut.Some? && b.clockIn.Some? && b.clockOut.Some?
    requires c.clockIn.Some? && c.clockOut.Some?
    ensures PlaceAll([a, b, c]).shift1 == Shift(ReadTime(a.clockIn, a.date), ReadTime(a.clockOut, a.date))
    ensures PlaceAll([a, b, c]).shift2 == Shift(ReadTime(c.clockIn, c.date), ReadTime(c.clockOut, c.date))
  {
    assert [a, b, c][..2] == [a, b];
    assert [a, b][..1] == [a];
    assert [a][..0] == [];
    var one := PlaceAll([a]);
    assert one == Place(PlaceAll([a][..0]), ReadTime(a.clockIn, a.date), ReadTime(a.clockOut, a.date));
    assert one == Place(EmptySlots, ReadTime(a.clockIn, a.date), ReadTime(a.clockOut, a.date));
    var two := PlaceAll([a, b]);
    assert two == Place(one, ReadTime(b.clockIn, b.date), ReadTime(b.clockOut, b.date));
    assert two.shift1 == one.shift1;
    assert PlaceAll([a, b, c]) == Place(two, ReadTime(c.clockIn, c.date), ReadTime(c.clockOut, c.date));
  }

  // ---------------------------------------------------------------------------
  // The report dictionary
  // ---------------------------------------------------------------------------

  datatype DayEntry = DayEntry(date: int, slots: DaySlots)

  /** `attendance_dict`: per user key, the days in insertion order (the date key is the date). */
  type Dict = map<string, seq<DayEntry>>

  function FindDay(days: seq<DayEntry>, date: int): (r: Option<nat>)
    ensures r.None? <==> forall k :: 0 <= k < |days| ==> days[k].date != date
    ensures r.Some? ==> r.value < |days| && days[r.value].date == date
    ensures r.Some? ==> forall k :: 0 <= k < r.value ==> days[k].date != date
  {
    if |days| == 0 then None
    else if days[0].date == date then Some(0)
    else
      match FindDay(days[1..], date)
      case None => None
      case Some(k) => Some(k + 1)
  }

  /** The first-match characterisation determines FindDay. */
  lemma FindDayIs(days: seq<DayEntry>, date: int, r: Option<nat>)
    requires r.None? ==> forall k :: 0 <= k < |days| ==> days[k].date != date
    requires r.Some? ==> r.value < |days| && days[r.value].date == date
    requires r.Some? ==> forall k :: 0 <= k < r.value ==> days[k].date != date
    ensures FindDay(days, date) == r
  {
  }

  function DaysOf(dict: Dict, userId: string): seq<DayEntry> {
    if userId in dict then dict[userId] else []
  }

  /** `setdefault` of the date, then the slot assignment. */
  function UpdateDay(days: seq<DayEntry>, date: int, cin: Option<int>, cout: Option<int>): seq<DayEntry> {
    match FindDay(days, date)
    case None => days + [DayEntry(date, Place(EmptySlots, cin, cout))]
    case Some(k) => days[k := DayEntry(date, Place(days[k].slots, cin, cout))]
  }

  /** One iteration of the loop over the month's records. */
  function Enter(dict: Dict, r: Attendance): Dict {
    dict[r.userId := UpdateDay(DaysOf(dict, r.userId), r.date, ReadTime(r.clockIn, r.date), ReadTime(r.clockOut, r.date))]
  }

  /** The dictionary after the loop has seen `records` in order. */
  function BuildDict(records: seq<Attendance>): Dict
    decreases |records|
  {
    if records == [] then map[] else Enter(BuildDict(records[..|records| - 1]), records[|records| - 1])
  }

  /** `attendance_dict[user][date]`, when present. */
  function SlotsOf(dict: Dict, userId: string, date: int): Option<DaySlots> {
    match FindDay(DaysOf(dict, userId), date)
    case None => None
    case Some(k) => Some(DaysOf(dict, userId)[k].slots)
  }

  /** The records of one user and one date, in processing order. */
  function Matching(records: seq<Attendance>, userId: string, date: int): (rs: seq<Attendance>)
    ensures forall k :: 0 <= k < |rs| ==> rs[k] in records && rs[k].userId == userId && rs[k].date == date
    decreases |records|
  {
    if records == [] then []
    else
      var r := records[|records| - 1];
      var init := Matching(records[..|records| - 1], userId, date);
      if r.userId == userId && r.date == date then init + [r] else init
  }

  lemma UpdateDayLookup(days: seq<DayEntry>, date: int, cin: Option<int>, cout: Option<int>, d: int)
    ensures var after := UpdateDay(days, date, cin, cout);
      var before := match FindDay(days, d) case None => None case Some(k) => Some(days[k].slots);
      var now := match FindDay(after, d) case None => None case Some(k) => Some(after[k].slots);
      now == if date == d then Some(Place(before.GetOr(EmptySlots), cin, cout)) else before
  {
    var after := UpdateDay(days, date, cin, cout);
    match FindDay(days, date)
    case None =>
      assert after[|days|].date == date;
      if date == d {
        FindDayIs(after, d, Some(|days|));
      } else {
        FindDayIs(after, d, FindDay(days, d));
      }
    case Some(k) =>
      assert forall j :: 0 <= j < |days| ==> after[j].date == days[j].date;
      FindDayIs(after, d, FindDay(days, d));
  }

  /** One step of the loop changes the slots of the record's own user and date only. */
  lemma EnterLookup(dict: Dict, r: Attendance, userId: string, date: int)
    ensures SlotsOf(Enter(dict, r), userId, date) ==
      if r.userId == userId && r.date == date
      then Some(Place(SlotsOf(dict, userId, date).GetOr(EmptySlots), ReadTime(r.clockIn, r.date), ReadTime(r.clockOut, r.date)))
      else SlotsOf(dict, userId, date)
  {
    if r.userId == userId {
      UpdateDayLookup(DaysOf(dict, userId), r.date, ReadTime(r.clockIn, r.date), ReadTime(r.clockOut, r.date), date);
    }
  }

  /** The slots of a user and a date are those of that user's records of that date alone,
      taken in processing order; the entry exists once any such record, complete or not, is seen. */
  lemma {:induction false} BuildDictSlots(records: seq<Attendance>, userId: string, date: int)
    ensures var rs := Matching(records, userId, date);
      SlotsOf(BuildDict(records), userId, date) == if rs == [] then None else Some(PlaceAll(rs))
    decreases |records|
  {
    if records != [] {
      var init := records[..|records| - 1];
      var r := records[|records| - 1];
      BuildDictSlots(init, userId, date);
      EnterLookup(BuildDict(init), r, userId, date);
      var rs := Matching(init, userId, date);
      if r.userId == userId && r.date == date {
        assert (rs + [r])[..|rs + [r]| - 1] == rs;
        if rs == [] {
          assert PlaceAll([r]) == Place(EmptySlots, ReadTime(r.clockIn, r.date), ReadTime(r.clockOut, r.date)) by {
            assert [r][..0] == [];
          }
        }
      }
    }
  }

  /** The report's view of one day, combining the two lemmas above. */
  lemma SlotsAreFirstAndLastPair(records: seq<Attendance>, userId: string, date: int)
    requires Matching(records, userId, date) != []
    ensures SlotsOf(BuildDict(records), userId, date) == Some(Expected(CompletePairs(Matching(records, userId, date))))
  {
    BuildDictSlots(records, userId, date);
    PlaceAllExpected(Matching(records, userId, date));
  }

  /** `for record in attendance_records`: builds the dictionary with `setdefault` and the slot
      assignment, in place. */
  method BuildAttendanceDict(records: seq<Attendance>) returns (dict: Dict)
    ensures dict == BuildDict(records)
  {
    dict := map[];
    var i := 0;
    while i < |records|
      invariant 0 <= i <= |records|
      invariant dict == BuildDict(records[..i])
    {
      BuildDictStep(records, i);
      dict := EnterRecord(dict, records[i]);
      i := i + 1;
    }
    assert records[..|records|] == records;
  }

  /** The loop body for one record: `setdefault` of the user and of the date, then the slot
      assignment. */
  method EnterRecord(dict: Dict, r: Attendance) returns (after: Dict)
    ensures after == Enter(dict, r)
  {
    var days := if r.userId in dict then dict[r.userId] else [];
    ghost var before := days;
    var k := FindDay(days, r.date);
    if k.None? {
      days := days + [DayEntry(r.date, EmptySlots)];
      k := Some(|days| - 1);
    }
    var slot := days[k.value].slots;
    ghost var start := slot;
    var cin := ReadTime(r.clockIn, r.date);
    var cout := ReadTime(r.clockOut, r.date);
    if cin.Some? && cout.Some? {
      if slot.shift1.clockIn.None? {
        slot := slot.(shift1 := Shift(cin, cout));
      } else if slot.shift1.clockOut.None? {
        slot := slot.(shift1 := slot.shift1.(clockOut := cout));
      } else {
        slot := slot.(shift2 := Shift(cin, cout));
      }
    }
    assert slot == Place(start, cin, cout);
    days := days[k.value := DayEntry(r.date, slot)];
    assert days == UpdateDay(before, r.date, cin, cout);
    after := dict[r.userId := days];
  }

  /** The loop's step: one more record enters the dictionary. */
  lemma BuildDictStep(records: seq<Attendance>, i: nat)
    requires i < |records|
    ensures BuildDict(records[..i + 1]) == Enter(BuildDict(records[..i]), records[i])
  {
    assert records[..i + 1][..i] == records[..i];
  }

  // ---------------------------------------------------------------------------
  // Durations and totals
  // ---------------------------------------------------------------------------

  /** One slot's contribution: out - in, plus a day when the shift crosses midnight; an empty
      or half-filled slot adds nothing. */
  function ShiftSeconds(s: Shift): int {
    if s.clockIn.None? || s.clockOut.None? then 0
    else
      var start := s.clockIn.value;
      var end := if s.clockOut.value < start then s.clockOut.value + SecondsPerDay else s.clockOut.value;
      end - start
  }

  function DaySeconds(slots: DaySlots): int {
    ShiftSeconds(slots.shift1) + ShiftSeconds(slots.shift2)
  }

  /** The seconds of one user over the days of the dictionary. */
  function UserSeconds(days: seq<DayEntry>): int
    decreases |days|
  {
    if days == [] then 0 else UserSeconds(days[..|days| - 1]) + DaySeconds(days[|days| - 1].slots)
  }

  predicate InDay(instant: int, date: int) {
    Combine(date, 0) <= instant < Combine(date + 1, 0)
  }

  predicate ShiftWithin(s: Shift, date: int) {
    (s.clockIn.Some? ==> InDay(s.clockIn.value, date)) && (s.clockOut.Some? ==> InDay(s.clockOut.value, date))
  }

  predicate SlotsWithin(slots: DaySlots, date: int) {
    ShiftWithin(slots.shift1, date) && ShiftWithin(slots.shift2, date)
  }

  /** Every time in the dictionary lies on the date it is filed under. */
  predicate DictWithin(dict: Dict) {
    forall u, k :: u in dict && 0 <= k < |dict[u]| ==> SlotsWithin(dict[u][k].slots, dict[u][k].date)
  }

  /** A slot whose times lie on one date contributes between 0 and 24 hours. */
  lemma ShiftSecondsBound(s: Shift, date: int)
    requires ShiftWithin(s, date)
    ensures 0 <= ShiftSeconds(s) < SecondsPerDay
  {
  }

  lemma PlaceWithin(slot: DaySlots, date: int, cin: Option<int>, cout: Option<int>)
    requires SlotsWithin(slot, date)
    requires cin.Some? ==> InDay(cin.value, date)
    requires cout.Some? ==> InDay(cout.value, date)
    ensures SlotsWithin(Place(slot, cin, cout), date)
  {
  }

  lemma {:induction false} BuildDictWithin(records: seq<Attendance>)
    ensures DictWithin(BuildDict(records))
    decreases |records|
  {
    if records != [] {
      var init := records[..|records| - 1];
      var r := records[|records| - 1];
      BuildDictWithin(init);
      var dict := BuildDict(init);
      var days := DaysOf(dict, r.userId);
      var cin, cout := ReadTime(r.clockIn, r.date), ReadTime(r.clockOut, r.date);
      var after := UpdateDay(days, r.date, cin, cout);
      assert SlotsWithin(EmptySlots, r.date);
      match FindDay(days, r.date)
      case None =>
        PlaceWithin(EmptySlots, r.date, cin, cout);
      case Some(k) =>
        PlaceWithin(days[k].slots, r.date, cin, cout);
      assert forall k :: 0 <= k < |after| ==> SlotsWithin(after[k].slots, after[k].date);
    }
  }

  lemma {:induction false} UserSecondsBound(days: seq<DayEntry>)
    requires forall k :: 0 <= k < |days| ==> SlotsWithin(days[k].slots, days[k].date)
    ensures 0 <= UserSeconds(days) < 2 * SecondsPerDay * |days| || (days == [] && UserSeconds(days) == 0)
    decreases |days|
  {
    if days != [] {
      var last := days[|days| - 1];
      UserSecondsBound(days[..|days| - 1]);
      ShiftSecondsBound(last.slots.shift1, last.date);
      ShiftSecondsBound(last.slots.shift2, last.date);
    }
  }

  /** Every user's total from the report's dictionary is non-negative and under 48 hours per
      day on file. */
  lemma ReportTotalBound(records: seq<Attendance>, userId: string)
    ensures var days := DaysOf(BuildDict(records), userId);
      0 <= UserSeconds(days) && (days != [] ==> UserSeconds(days) < 2 * SecondsPerDay * |days|)
  {
    BuildDictWithin(records);
    UserSecondsBound(DaysOf(BuildDict(records), userId));
  }

  /** A cell of `total_hours_dict`: the initial "0:00" text, or a number of seconds (the
      source divides by 3600 and rounds to two decimals). */
  datatype HoursCell = Placeholder | Hours(seconds: int)

  /** The keys of `total_hours_dict`: the listed users' `user_id`s. */
  function UserKeys(users: seq<User>): (keys: set<string>)
    ensures forall k :: 0 <= k < |users| ==> users[k].userId in keys
    ensures forall key :: key in keys ==> exists k :: 0 <= k < |users| && users[k].userId == key
  {
    set k | 0 <= k < |users| :: users[k].userId
  }

  /** `total_hours_dict` once the totals loop is done: one cell per listed user key. */
  function TotalsOf(users: seq<User>, dict: Dict): (totals: map<string, HoursCell>)
    ensures totals.Keys == UserKeys(users)
  {
    map key | key in UserKeys(users) :: Hours(UserSeconds(DaysOf(dict, key)))
  }

  /** Every listed user ends with the sum of their slot durations, and no "0:00" placeholder
      survives; a user the dictionary does not mention gets 0. */
  lemma TotalsOfListedUsers(users: seq<User>, dict: Dict)
    ensures forall k :: 0 <= k < |users| ==>
      TotalsOf(users, dict)[users[k].userId] == Hours(UserSeconds(DaysOf(dict, users[k].userId)))
    ensures forall key :: key in TotalsOf(users, dict) ==> TotalsOf(users, dict)[key].Hours?
    ensures forall k :: 0 <= k < |users| && users[k].userId !in dict ==> TotalsOf(users, dict)[users[k].userId] == Hours(0)
  {
    assert forall k :: 0 <= k < |users| ==> users[k].userId in UserKeys(users);
  }

  /** `{user.user_id: "0:00" for user in users}`. */
  function Placeholders(users: seq<User>): (m: map<string, HoursCell>)
    ensures m.Keys == UserKeys(users)
    ensures forall key :: key in m ==> m[key] == Placeholder
  {
    map key | key in UserKeys(users) :: Placeholder
  }

  /** `total_hours_dict` after the totals loop has handled the first `i` users: "0:00" for
      every listed user, then each handled user's cell overwritten in turn. */
  function PartialTotals(users: seq<User>, dict: Dict, i: nat): map<string, HoursCell>
    requires i <= |users|
  {
    if i == 0 then Placeholders(users)
    else PartialTotals(users, dict, i - 1)[users[i - 1].userId := Hours(UserSeconds(DaysOf(dict, users[i - 1].userId)))]
  }

  /** After `i` users the map still has exactly the listed keys, and every handled user's
      cell holds that user's sum. */
  lemma {:induction false} PartialTotalsAre(users: seq<User>, dict: Dict, i: nat)
    requires i <= |users|
    ensures PartialTotals(users, dict, i).Keys == UserKeys(users)
    ensures forall k :: 0 <= k < i ==>
      PartialTotals(users, dict, i)[users[k].userId] == Hours(UserSeconds(DaysOf(dict, users[k].userId)))
  {
    if i > 0 {
      PartialTotalsAre(users, dict, i - 1);
      var before, u := PartialTotals(users, dict, i - 1), users[i - 1].userId;
      assert u in UserKeys(users);
      forall k | 0 <= k < i - 1 && users[k].userId != u
        ensures PartialTotals(users, dict, i)[users[k].userId] == before[users[k].userId]
      {
      }
    }
  }

  lemma TotalsComplete(users: seq<User>, dict: Dict)
    ensures PartialTotals(users, dict, |users|) == TotalsOf(users, dict)
  {
    PartialTotalsAre(users, dict, |users|);
    var a, b := PartialTotals(users, dict, |users|), TotalsOf(users, dict);
    forall key | key in a
      ensures a[key] == b[key]
    {
      var k :| 0 <= k < |users| && users[k].userId == key;
    }
  }

  /** The totals loop: starts from "0:00" for every listed user and overwrites each with the
      sum of that user's slot durations, in nested loops over the users and their days. */
  method ComputeTotals(users: seq<User>, dict: Dict) returns (totals: map<string, HoursCell>)
    ensures totals == TotalsOf(users, dict)
  {
    totals := Placeholders(users);
    var i := 0;
    while i < |users|
      invariant 0 <= i <= |users|
      invariant totals == PartialTotals(users, dict, i)
    {
      var key := users[i].userId;
      var total := SumDays(DaysOf(dict, key));
      totals := totals[key := Hours(total)];
      i := i + 1;
    }
    TotalsComplete(users, dict);
  }

  /** The inner loops of the totals: over a user's days, then over the two shifts of each. */
  method SumDays(days: seq<DayEntry>) returns (total: int)
    ensures total == UserSeconds(days)
  {
    total := 0;
    var j := 0;
    while j < |days|
      invariant 0 <= j <= |days|
      invariant total == UserSeconds(days[..j])
    {
      total := total + ShiftSeconds(days[j].slots.shift1);
      total := total + ShiftSeconds(days[j].slots.shift2);
      assert days[..j + 1][..j] == days[..j];
      j := j + 1;
    }
    assert days[..|days|] == days;
  }

  // ---------------------------------------------------------------------------
  // Users of the report and their pairing
  // ---------------------------------------------------------------------------

  /** `User.role.notin_(["superadmin", "admin"])`, in table order. */
  function ReportUsers(users: seq<User>): (r: seq<User>)
    ensures forall k :: 0 <= k < |r| ==> r[k] in users && r[k].role != "superadmin" && r[k].role != "admin"
    ensures forall u :: u in users && u.role != "superadmin" && u.role != "admin" ==> u in r
    ensures forall u :: multiset(r)[u] == if u.role != "superadmin" && u.role != "admin" then multiset(users)[u] else 0
    ensures Subsequence(r, users)
  {
    var keep := (u: User) => u.role != "superadmin" && u.role != "admin";
    FilterCounts(users, keep);
    FilterMembers(users, keep);
    FilterOrder(users, keep);
    Filter(users, keep)
  }

  /** `[users[i:i + 2] for i in range(0, len(users), 2)]`. */
  function Pairs(users: seq<User>): (pairs: seq<seq<User>>)
    ensures |pairs| == (|users| + 1) / 2
    ensures forall k :: 0 <= k < |pairs| ==> 1 <= |pairs[k]| <= 2
    ensures forall k :: 0 <= k < |pairs| - 1 ==> |pairs[k]| == 2
    decreases |users|
  {
    if users == [] then []
    else if |users| <= 2 then [users]
    else [users[..2]] + Pairs(users[2..])
  }

  function Flatten(pairs: seq<seq<User>>): seq<User> {
    if pairs == [] then [] else pairs[0] + Flatten(pairs[1..])
  }

  /** The pairing keeps every user, in order. */
  lemma {:induction false} PairsFlatten(users: seq<User>)
    ensures Flatten(Pairs(users)) == users
    decreases |users|
  {
    if |users| > 2 {
      PairsFlatten(users[2..]);
      assert Pairs(users)[1..] == Pairs(users[2..]);
      assert users[..2] + users[2..] == users;
    }
  }

  // ---------------------------------------------------------------------------
  // The two orderings of the queries
  // ---------------------------------------------------------------------------

  /** `order_by(User.last_name)`. */
  predicate LastNameLess(a: User, b: User) {
    StrLess(a.lastName, b.lastName)
  }

  /** `order_by(Attendance.date, Attendance.id)`. */
  predicate DateIdLess(a: Attendance, b: Attendance) {
    a.date < b.date || (a.date == b.date && a.id < b.id)
  }

  lemma LastNameOrder()
    ensures StrictWeakOrder(LastNameLess)
  {
    forall a: User, b: User | LastNameLess(a, b)
      ensures !LastNameLess(b, a)
    {
      if StrLess(b.lastName, a.lastName) {
        StrLessTransitive(a.lastName, b.lastName, a.lastName);
        StrLessIrreflexive(a.lastName);
      }
    }
    forall a: User, b: User, c: User | !LastNameLess(b, a) && !LastNameLess(c, b)
      ensures !LastNameLess(c, a)
    {
      StrLessTotal(a.lastName, b.lastName);
      StrLessTotal(b.lastName, c.lastName);
      if StrLess(c.lastName, a.lastName) {
        if StrLess(a.lastName, b.lastName) {
          StrLessTransitive(c.lastName, a.lastName, b.lastName);
        }
      }
    }
  }

  lemma DateIdOrder()
    ensures StrictWeakOrder(DateIdLess)
  {
  }

  // ---------------------------------------------------------------------------
  // The route
  // ---------------------------------------------------------------------------

  /** The records whose date lies in [first, last], in table order. */
  function MonthRecords(attendance: seq<Attendance>, first: int, last: int): (r: seq<Attendance>)
    ensures forall k :: 0 <= k < |r| ==> r[k] in attendance && first <= r[k].date <= last
    ensures forall a :: a in attendance && first <= a.date <= last ==> a in r
    ensures forall a :: multiset(r)[a] == if first <= a.date <= last then multiset(attendance)[a] else 0
    ensures Subsequence(r, attendance)
  {
    var keep := (a: Attendance) => first <= a.date <= last;
    FilterCounts(attendance, keep);
    FilterMembers(attendance, keep);
    FilterOrder(attendance, keep);
    Filter(attendance, keep)
  }

  datatype ExportOutcome =
    | RedirectTo(targetMonth: string)
    | DateError
    | Report(year: int, month: int, totalDays: int, pairs: seq<seq<User>>,
             dict: Dict, totals: map<string, HoursCell>)

  /** What `export_pdf` renders for an authorised caller, given the tables, the `month`
      argument and today's date. */
  function ExportSpec(users: seq<User>, attendance: seq<Attendance>, arg: Option<string>, today: Date): ExportOutcome
    requires ValidDate(today)
  {
    match ParseMonthArg(SelectedMonth(arg, today))
    case None => RedirectTo(MonthArg(today))
    case Some((y, m)) =>
      match MonthBoundsOf(y, m)
      case DateRejected => DateError
      case Bounds(first, last, n) =>
        var listed := SortBy(ReportUsers(users), LastNameLess);
        var dict := BuildDict(SortBy(MonthRecords(attendance, ToOrdinal(first), ToOrdinal(last)), DateIdLess));
        Report(y, m, n, Pairs(listed), dict, TotalsOf(listed, dict))
  }

  /** `export_pdf` for an authorised caller; `today` is the date the clock gives. */
  method ExportPdf(db: Database, arg: Option<string>, today: Date) returns (out: ExportOutcome)
    requires ValidDate(today)
    ensures out == ExportSpec(db.users, db.attendance, arg, today)
  {
    var selected := SelectedMonth(arg, today);
    var parsed := ParseMonthArg(selected);
    if parsed.None? {
      return RedirectTo(MonthArg(today));
    }
    var (y, m) := parsed.value;
    var bounds := MonthBoundsOf(y, m);
    if bounds.DateRejected? {
      return DateError;
    }
    var users := SortBy(ReportUsers(db.users), LastNameLess);
    var records := SortBy(MonthRecords(db.attendance, ToOrdinal(bounds.first), ToOrdinal(bounds.last)), DateIdLess);
    var dict := BuildAttendanceDict(records);
    var totals := ComputeTotals(users, dict);
    out := Report(y, m, bounds.totalDays, Pairs(users), dict, totals);
  }

  /** A malformed month argument redirects to the current month. */
  lemma BadMonthRedirects(users: seq<User>, attendance: seq<Attendance>, arg: Option<string>, today: Date)
    requires ValidDate(today)
    requires ParseMonthArg(SelectedMonth(arg, today)).None?
    ensures ExportSpec(users, attendance, arg, today) == RedirectTo(MonthArg(today))
    ensures ParseMonthArg(ExportSpec(users, attendance, arg, today).targetMonth) == Some((today.year, today.month))
  {
    MonthArgRoundTrip(today);
  }

  /** Without an argument the report covers the current month, with its true length. */
  lemma DefaultMonthReport(users: seq<User>, attendance: seq<Attendance>, today: Date)
    requires ValidDate(today) && !(today.year == MaxYear && today.month == 12)
    ensures var out := ExportSpec(users, attendance, None, today);
      && out.Report? && out.year == today.year && out.month == today.month
      && out.totalDays == DaysInMonth(today.year, today.month)
      && out.pairs == Pairs(SortBy(ReportUsers(users), LastNameLess))
  {
    assert Strip("") == "";
    MonthArgRoundTrip(today);
    MonthBoundsCorrect(today.year, today.month);
  }

  /** The report's columns, read pair by pair, list every user who is neither a superadmin nor
      an admin, each as often as they have rows, ordered by last name. */
  lemma ReportListsUsersByLastName(users: seq<User>, attendance: seq<Attendance>, arg: Option<string>, today: Date)
    requires ValidDate(today)
    requires ExportSpec(users, attendance, arg, today).Report?
    ensures var listed := Flatten(ExportSpec(users, attendance, arg, today).pairs);
      && SortedBy(listed, LastNameLess)
      && multiset(listed) == multiset(ReportUsers(users))
      && (forall u :: u in listed <==> u in users && u.role != "superadmin" && u.role != "admin")
  {
    ReportPairs(users, attendance, arg, today);
    PairsFlatten(SortBy(ReportUsers(users), LastNameLess));
    ReportOrder(users);
  }

  /** The report's users sorted by last name: ordered, and a permutation of the non-admin users. */
  lemma ReportOrder(users: seq<User>)
    ensures var sorted := SortBy(ReportUsers(users), LastNameLess);
      && SortedBy(sorted, LastNameLess)
      && multiset(sorted) == multiset(ReportUsers(users))
      && (forall u :: u in sorted <==> u in users && u.role != "superadmin" && u.role != "admin")
  {
    var kept := ReportUsers(users);
    LastNameOrder();
    SortBySorted(kept, LastNameLess);
  }

  lemma ReportPairs(users: seq<User>, attendance: seq<Attendance>, arg: Option<string>, today: Date)
    requires ValidDate(today)
    requires ExportSpec(users, attendance, arg, today).Report?
    ensures ExportSpec(users, attendance, arg, today).pairs == Pairs(SortBy(ReportUsers(users), LastNameLess))
  {
  }
}
