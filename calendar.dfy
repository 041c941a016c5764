/** Python's proleptic Gregorian `date` arithmetic, as the report and the flagger use it. */
module Calendar {
  import opened Base

  const MinYear: int := 1
  const MaxYear: int := 9999

  predicate IsLeap(y: int) {
    y % 4 == 0 && (y % 100 != 0 || y % 400 == 0)
  }

  function DaysInMonth(y: int, m: int): (n: int)
    requires 1 <= m <= 12
    ensures 28 <= n <= 31
    ensures m == 2 ==> (n == 29 <==> IsLeap(y))
  {
    if m == 2 then (if IsLeap(y) then 29 else 28)
    else if m == 4 || m == 6 || m == 9 || m == 11 then 30
    else 31
  }

  datatype Date = Date(year: int, month: int, day: int)

  /** What `datetime.date` accepts: years 1..9999 and a day that exists in its month. */
  predicate ValidDate(d: Date) {
    MinYear <= d.year <= MaxYear && 1 <= d.month <= 12 && 1 <= d.day <= DaysInMonth(d.year, d.month)
  }

  /** The following day; `None` past 9999-12-31, where Python raises OverflowError. */
  function NextDay(d: Date): (r: Option<Date>)
    requires ValidDate(d)
    ensures r.Some? ==> ValidDate(r.value)
    ensures r.None? <==> d == Date(MaxYear, 12, 31)
  {
    if d.day < DaysInMonth(d.year, d.month) then Some(d.(day := d.day + 1))
    else if d.month < 12 then Some(Date(d.year, d.month + 1, 1))
    else if d.year < MaxYear then Some(Date(d.year + 1, 1, 1))
    else None
  }

  /** The preceding day; `None` before 0001-01-01. */
  function PrevDay(d: Date): (r: Option<Date>)
    requires ValidDate(d)
    ensures r.Some? ==> ValidDate(r.value)
    ensures r.None? <==> d == Date(MinYear, 1, 1)
  {
    if d.day > 1 then Some(d.(day := d.day - 1))
    else if d.month > 1 then Some(Date(d.year, d.month - 1, DaysInMonth(d.year, d.month - 1)))
    else if d.year > MinYear then Some(Date(d.year - 1, 12, 31))
    else None
  }

  /** `d + timedelta(days=n)`; `None` when the result leaves the supported range. */
  function AddDays(d: Date, n: nat): (r: Option<Date>)
    requires ValidDate(d)
    ensures r.Some? ==> ValidDate(r.value)
    decreases n
  {
    if n == 0 then Some(d)
    else
      match NextDay(d)
      case None => None
      case Some(e) => AddDays(e, n - 1)
  }

  // ---------------------------------------------------------------------------
  // Ordinals and weekdays (`date.toordinal()`, `date.weekday()`, `strftime('%A')`)
  // ---------------------------------------------------------------------------

  function DaysBeforeYear(y: int): int
    requires y >= 1
  {
    var p := y - 1;
    p * 365 + p / 4 - p / 100 + p / 400
  }

  function DaysBeforeMonth(y: int, m: int): int
    requires 1 <= m <= 12
  {
    var cumulative := [0, 31, 59, 90, 120, 151, 181, 212, 243, 273, 304, 334];
    cumulative[m - 1] + (if m > 2 && IsLeap(y) then 1 else 0)
  }

  /** Day number with 0001-01-01 as day 1. */
  function ToOrdinal(d: Date): int
    requires ValidDate(d)
  {
    DaysBeforeYear(d.year) + DaysBeforeMonth(d.year, d.month) + d.day
  }

  /** Monday is 0 and Sunday is 6; day 1 of the ordinal count is a Monday. */
  function Weekday(ordinal: int): (w: int)
    ensures 0 <= w < 7
  {
    (ordinal + 6) % 7
  }

  predicate IsWeekend(ordinal: int) {
    Weekday(ordinal) == 5 || Weekday(ordinal) == 6
  }

  const DayNames: seq<string> :=
    ["Monday", "Tuesday", "Wednesday", "Thursday", "Friday", "Saturday", "Sunday"]

  /** `strftime('%A')`, the key under which schedules are stored. */
  function DayName(ordinal: int): (name: string)
    ensures name in DayNames
    ensures IsWeekend(ordinal) <==> name == "Saturday" || name == "Sunday"
    ensures !IsWeekend(ordinal) <==> name in DayNames[..5]
  {
    DayNames[Weekday(ordinal)]
  }

  /** Two days carry the same name exactly when they lie a whole number of weeks apart. */
  lemma DayNameWeekly(a: int, b: int)
    ensures DayName(a) == DayName(b) <==> (a - b) % 7 == 0
  {
    assert forall i, j :: 0 <= i < j < 7 ==> DayNames[i] != DayNames[j];
    var qa, qb := (a + 6) / 7, (b + 6) / 7;
    assert a - b == 7 * (qa - qb) + (Weekday(a) - Weekday(b));
    assert -7 < Weekday(a) - Weekday(b) < 7;
    WholeWeeks(a - b, qa - qb, Weekday(a) - Weekday(b));
  }

  lemma WholeWeeks(n: int, q: int, r: int)
    requires n == 7 * q + r && -7 < r < 7
    ensures n % 7 == 0 <==> r == 0
  {
    if r == 0 {
      assert n == 7 * q + 0;
    } else if r > 0 {
      assert n % 7 == r;
    } else {
      assert n == 7 * (q - 1) + (r + 7);
    }
  }

  /** Day 1 of the count, 0001-01-01, is a Monday. */
  lemma DayOneIsMonday()
    ensures ToOrdinal(Date(1, 1, 1)) == 1 && DayName(1) == "Monday"
  {
    assert DaysBeforeYear(1) == 0;
    assert DaysBeforeMonth(1, 1) == 0;
    assert Weekday(1) == 0;
    assert DayName(1) == DayNames[0];
  }

  /** 2024-01-01, ordinal 738886, is a Monday. */
  lemma NewYear2024IsMonday()
    ensures ToOrdinal(Date(2024, 1, 1)) == 738886 && DayName(738886) == "Monday"
  {
    assert DaysBeforeYear(2024) == 738885;
    assert DaysBeforeMonth(2024, 1) == 0;
    assert Weekday(738886) == 0;
    assert DayName(738886) == DayNames[0];
  }

  // ---------------------------------------------------------------------------
  // Properties
  // ---------------------------------------------------------------------------

  lemma DivStep(y: int, k: int)
    requires k == 4 || k == 100 || k == 400
    ensures y / k - (y - 1) / k == if y % k == 0 then 1 else 0
  {
    var q, r := y / k, y % k;
    assert y == k * q + r && 0 <= r < k;
    if r == 0 {
      assert y - 1 == k * (q - 1) + (k - 1);
    } else {
      assert y - 1 == k * q + (r - 1);
    }
  }

  lemma DivisibleBy400(y: int)
    requires y % 400 == 0
    ensures y % 100 == 0 && y % 4 == 0
  {
    var q := y / 400;
    assert y == 100 * (4 * q);
    assert y == 4 * (100 * q);
  }

  lemma DivisibleBy100(y: int)
    requires y % 100 == 0
    ensures y % 4 == 0
  {
    var q := y / 100;
    assert y == 4 * (25 * q);
  }

  /** The days of a year add up to 365, plus one in a leap year. */
  lemma YearLength(y: int)
    requires y >= 1
    ensures DaysBeforeYear(y + 1) == DaysBeforeYear(y) + (if IsLeap(y) then 366 else 365)
  {
    DivStep(y, 4);
    DivStep(y, 100);
    DivStep(y, 400);
    var leapDays := (y / 4 - (y - 1) / 4) - (y / 100 - (y - 1) / 100) + (y / 400 - (y - 1) / 400);
    assert DaysBeforeYear(y + 1) == DaysBeforeYear(y) + 365 + leapDays;
    if y % 400 == 0 {
      DivisibleBy400(y);
    } else if y % 100 == 0 {
      DivisibleBy100(y);
    }
  }

  /** NextDay moves the ordinal forward by exactly one, as `date + timedelta(days=1)` does. */
  lemma NextDayOrdinal(d: Date)
    requires ValidDate(d) && NextDay(d).Some?
    ensures ToOrdinal(NextDay(d).value) == ToOrdinal(d) + 1
  {
    if d.day == DaysInMonth(d.year, d.month) && d.month == 12 {
      YearLength(d.year);
    }
  }

  /** Adding days that stay inside the month only moves the day of the month. */
  lemma {:induction false} AddDaysInMonth(d: Date, n: nat)
    requires ValidDate(d) && d.day + n <= DaysInMonth(d.year, d.month)
    ensures AddDays(d, n) == Some(d.(day := d.day + n))
    decreases n
  {
    if n > 0 {
      AddDaysInMonth(d.(day := d.day + 1), n - 1);
    }
  }

  /** Adding a + b days is adding a days, then b more. */
  lemma {:induction false} AddDaysSplit(d: Date, a: nat, b: nat)
    requires ValidDate(d)
    ensures AddDays(d, a + b) == match AddDays(d, a) case None => None case Some(e) => AddDays(e, b)
    decreases a
  {
    if a > 0 {
      match NextDay(d)
      case None =>
      case Some(e) =>
        AddDaysSplit(e, a - 1, b);
    }
  }
}
