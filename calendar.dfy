/** Whole-day calendar arithmetic of the host `Date` type, and the `Date.prototype`
    helpers `addTime`, `addDays`, `addWeeks`, `addMonths` and `addYears` of index.js.

    A date is a day number: days since 1970-01-01 in the local calendar, the
    ECMAScript time value divided by the number of milliseconds in a day. The calendar
    fields and `MakeDay` follow the formulas of section 21.4.1 of ECMA-262 (the
    proleptic Gregorian calendar), so a day-of-month or month that is out of range
    rolls over into the following months and years. */
module Calendar {

  type Day = int

  /** A date split into its fields as `getFullYear`, `getMonth` (0 = January) and
      `getDate` report them. */
  datatype CivilDate = CivilDate(year: int, month: int, date: int)

  /** Day `t` has the fields `c`. */
  predicate HasFields(t: Day, c: CivilDate) {
    YearFromDay(t) == c.year && MonthFromDay(t) == c.month && DateFromDay(t) == c.date
  }

  predicate IsLeapYear(y: int) {
    y % 4 == 0 && (y % 100 != 0 || y % 400 == 0)
  }

  function DaysInYear(y: int): int {
    if IsLeapYear(y) then 366 else 365
  }

  /** `DayFromYear(y)` of ECMA-262: the day number of January 1 of year `y`, counted
      year by year from 1970. */
  function DayFromYear(y: int): Day
    decreases if y < 1970 then 1970 - y else y - 1970
  {
    if y == 1970 then 0
    else if y > 1970 then DayFromYear(y - 1) + DaysInYear(y - 1)
    else DayFromYear(y + 1) - DaysInYear(y)
  }

  /** Days of year `y` before the first day of month `m` (0 = January); month 12
      gives the length of the year. */
  function DaysBeforeMonth(y: int, m: int): int
    requires 0 <= m <= 12
  {
    var common := [0, 31, 59, 90, 120, 151, 181, 212, 243, 273, 304, 334, 365];
    common[m] + (if m >= 2 && IsLeapYear(y) then 1 else 0)
  }

  function DaysInMonth(y: int, m: int): int
    requires 0 <= m <= 11
  {
    DaysBeforeMonth(y, m + 1) - DaysBeforeMonth(y, m)
  }

  /** Going from `x` to `x + 1`, `floor(x / 4)` grows by one exactly when 4 divides `x + 1`;
      likewise for 100 and 400. */
  lemma FloorStep4(x: int)
    ensures (x + 1) / 4 - x / 4 == if (x + 1) % 4 == 0 then 1 else 0
  {
  }

  lemma FloorStep100(x: int)
    ensures (x + 1) / 100 - x / 100 == if (x + 1) % 100 == 0 then 1 else 0
  {
  }

  lemma FloorStep400(x: int)
    ensures (x + 1) / 400 - x / 400 == if (x + 1) % 400 == 0 then 1 else 0
  {
  }

  lemma YearLength(y: int)
    ensures DayFromYear(y + 1) == DayFromYear(y) + DaysInYear(y)
  {
  }

  /** The closed form of `DayFromYear` in section 21.4.1.3 of ECMA-262, with Dafny's
      `/` as the standard's `floor`. */
  function DayFromYearClosed(y: int): int {
    365 * (y - 1970) + (y - 1969) / 4 - (y - 1901) / 100 + (y - 1601) / 400
  }

  lemma ClosedYearLength(y: int)
    ensures DayFromYearClosed(y + 1) == DayFromYearClosed(y) + DaysInYear(y)
  {
    FloorStep4(y - 1969);
    FloorStep100(y - 1901);
    FloorStep400(y - 1601);
    ModShift(y);
    DivisorsOfCentury(y);
  }

  /** The year-by-year count agrees with the closed form. */
  lemma {:induction false} DayFromYearIsClosed(y: int)
    ensures DayFromYear(y) == DayFromYearClosed(y)
    decreases if y < 1970 then 1970 - y else y - 1970
  {
    if y > 1970 {
      DayFromYearIsClosed(y - 1);
      ClosedYearLength(y - 1);
    } else if y < 1970 {
      DayFromYearIsClosed(y + 1);
      ClosedYearLength(y);
    }
  }

  /** A multiple of 400 is a multiple of 100, and a multiple of 100 one of 4. */
  lemma DivisorsOfCentury(y: int)
    ensures y % 400 == 0 ==> y % 100 == 0
    ensures y % 100 == 0 ==> y % 4 == 0
  {
    if y % 400 == 0 {
      CenturyOf400(y);
    }
    if y % 100 == 0 {
      FourOfCentury(y);
    }
  }

  lemma CenturyOf400(y: int)
    requires y % 400 == 0
    ensures y % 100 == 0
  {
    assert y == 100 * (4 * (y / 400));
  }

  lemma FourOfCentury(y: int)
    requires y % 100 == 0
    ensures y % 4 == 0
  {
    assert y == 4 * (25 * (y / 100));
  }

  lemma ModShift(y: int)
    ensures (y - 1968) % 4 == y % 4
    ensures (y - 1900) % 100 == y % 100
    ensures (y - 1600) % 400 == y % 400
  {
    assert y - 1968 == 4 * (y / 4 - 492) + y % 4;
    assert y - 1900 == 100 * (y / 100 - 19) + y % 100;
    assert y - 1600 == 400 * (y / 400 - 4) + y % 400;
  }

  lemma {:induction false} DayFromYearMonotone(a: int, b: int)
    requires a <= b
    ensures DayFromYear(a) + 365 * (b - a) <= DayFromYear(b)
    decreases b - a
  {
    if a < b {
      DayFromYearMonotone(a, b - 1);
      YearLength(b - 1);
    }
  }

  lemma MonthStep(y: int, m: int)
    requires 0 <= m <= 11
    ensures 28 <= DaysInMonth(y, m) <= 31
  {
  }

  lemma {:induction false} DaysBeforeMonthMonotone(y: int, a: int, b: int)
    requires 0 <= a <= b <= 12
    ensures DaysBeforeMonth(y, a) + 28 * (b - a) <= DaysBeforeMonth(y, b)
    decreases b - a
  {
    if a < b {
      DaysBeforeMonthMonotone(y, a, b - 1);
      MonthStep(y, b - 1);
    }
  }

  /** The year of day `t`, searching upwards from year `y`. */
  function YearUp(t: Day, y: int): int
    requires DayFromYear(y) <= t
    decreases t - DayFromYear(y)
  {
    YearLength(y);
    if t < DayFromYear(y + 1) then y else YearUp(t, y + 1)
  }

  lemma {:induction false} YearUpBounds(t: Day, y: int)
    requires DayFromYear(y) <= t
    ensures DayFromYear(YearUp(t, y)) <= t < DayFromYear(YearUp(t, y) + 1)
    decreases t - DayFromYear(y)
  {
    YearLength(y);
    if DayFromYear(y + 1) <= t {
      YearUpBounds(t, y + 1);
    }
  }

  /** The year of day `t`, searching downwards from year `y`. */
  function YearDown(t: Day, y: int): int
    requires t < DayFromYear(y + 1)
    decreases DayFromYear(y + 1) - t
  {
    YearLength(y);
    if DayFromYear(y) <= t then y else YearDown(t, y - 1)
  }

  lemma {:induction false} YearDownBounds(t: Day, y: int)
    requires t < DayFromYear(y + 1)
    ensures DayFromYear(YearDown(t, y)) <= t < DayFromYear(YearDown(t, y) + 1)
    decreases DayFromYear(y + 1) - t
  {
    YearLength(y);
    if t < DayFromYear(y) {
      YearDownBounds(t, y - 1);
    }
  }

  /** `YearFromTime` of ECMA-262: the year whose days include `t`. */
  function YearFromDay(t: Day): int {
    if 0 <= t then YearUp(t, 1970) else YearDown(t, 1969)
  }

  /** Day `t` lies in the year `YearFromDay` names. */
  lemma YearFromDayBounds(t: Day)
    ensures DayFromYear(YearFromDay(t)) <= t < DayFromYear(YearFromDay(t) + 1)
  {
    if 0 <= t {
      YearUpBounds(t, 1970);
    } else {
      YearDownBounds(t, 1969);
    }
  }

  /** The month (0-based) of year `y` holding day `dy` of that year, searching down from `m`. */
  function MonthSearch(y: int, dy: int, m: int): int
    requires 0 <= m <= 11 && 0 <= dy < DaysBeforeMonth(y, m + 1)
    decreases m
  {
    if DaysBeforeMonth(y, m) <= dy then m else MonthSearch(y, dy, m - 1)
  }

  lemma {:induction false} MonthSearchBounds(y: int, dy: int, m: int)
    requires 0 <= m <= 11 && 0 <= dy < DaysBeforeMonth(y, m + 1)
    ensures 0 <= MonthSearch(y, dy, m) <= m
    ensures DaysBeforeMonth(y, MonthSearch(y, dy, m)) <= dy < DaysBeforeMonth(y, MonthSearch(y, dy, m) + 1)
    decreases m
  {
    if dy < DaysBeforeMonth(y, m) {
      MonthSearchBounds(y, dy, m - 1);
    }
  }

  /** `MonthFromTime` of ECMA-262, 0 = January: what `getMonth` returns. */
  function MonthFromDay(t: Day): int {
    var y := YearFromDay(t);
    YearFromDayBounds(t);
    YearLength(y);
    MonthSearch(y, t - DayFromYear(y), 11)
  }

  /** Day `t` lies in the month `MonthFromDay` names. */
  lemma MonthFromDayBounds(t: Day)
    ensures 0 <= MonthFromDay(t) <= 11
    ensures DayFromYear(YearFromDay(t)) + DaysBeforeMonth(YearFromDay(t), MonthFromDay(t)) <= t
    ensures t < DayFromYear(YearFromDay(t)) + DaysBeforeMonth(YearFromDay(t), MonthFromDay(t) + 1)
  {
    var y := YearFromDay(t);
    YearFromDayBounds(t);
    YearLength(y);
    MonthSearchBounds(y, t - DayFromYear(y), 11);
  }

  /** `DateFromTime` of ECMA-262: the day of the month, what `getDate` returns. */
  function DateFromDay(t: Day): int {
    MonthFromDayBounds(t);
    t - DayFromYear(YearFromDay(t)) - DaysBeforeMonth(YearFromDay(t), MonthFromDay(t)) + 1
  }

  /** `getMonth` lies in 0..11. */
  lemma MonthRange(t: Day)
    ensures 0 <= MonthFromDay(t) <= 11
  {
    MonthFromDayBounds(t);
  }

  /** The day of the month lies within the month's length. */
  lemma DateFromDayBounds(t: Day)
    ensures 0 <= MonthFromDay(t) <= 11
    ensures 1 <= DateFromDay(t) <= DaysInMonth(YearFromDay(t), MonthFromDay(t))
  {
    MonthFromDayBounds(t);
  }

  /** `MakeDay(year, month, date)` of ECMA-262: a month outside 0..11 carries into the
      year and a date outside the month's length carries into the following or
      preceding days. */
  function MakeDay(year: int, month: int, date: int): Day {
    var ym := year + month / 12;
    var mn := month % 12;
    DayFromYear(ym) + DaysBeforeMonth(ym, mn) + date - 1
  }

  /** With a month in 0..11 nothing carries into the year. */
  lemma MakeDayInYear(y: int, m: int, d: int)
    requires 0 <= m <= 11
    ensures MakeDay(y, m, d) == DayFromYear(y) + DaysBeforeMonth(y, m) + d - 1
  {
    assert m / 12 == 0 && m % 12 == m;
  }

  /** Rebuilding a day from its own fields gives the day back. */
  lemma MakeDayOfFields(t: Day)
    ensures MakeDay(YearFromDay(t), MonthFromDay(t), DateFromDay(t)) == t
  {
    MonthFromDayBounds(t);
    MakeDayInYear(YearFromDay(t), MonthFromDay(t), DateFromDay(t));
  }

  lemma YearUnique(t: Day, y: int)
    requires DayFromYear(y) <= t < DayFromYear(y + 1)
    ensures YearFromDay(t) == y
  {
    var r := YearFromDay(t);
    YearFromDayBounds(t);
    if r < y {
      DayFromYearMonotone(r + 1, y);
    } else if y < r {
      DayFromYearMonotone(y + 1, r);
    }
  }

  lemma MonthUnique(y: int, dy: int, m: int, r: int)
    requires 0 <= m <= 11 && 0 <= r <= 11
    requires DaysBeforeMonth(y, m) <= dy < DaysBeforeMonth(y, m + 1)
    requires DaysBeforeMonth(y, r) <= dy < DaysBeforeMonth(y, r + 1)
    ensures m == r
  {
    if r < m {
      DaysBeforeMonthMonotone(y, r + 1, m);
    } else if m < r {
      DaysBeforeMonthMonotone(y, m + 1, r);
    }
  }

  /** A valid calendar date survives `MakeDay` and back: `getFullYear`, `getMonth`
      and `getDate` of `MakeDay(y, m, d)` are `y`, `m` and `d`. */
  lemma FieldsOfMakeDay(y: int, m: int, d: int)
    requires 0 <= m <= 11 && 1 <= d <= DaysInMonth(y, m)
    ensures HasFields(MakeDay(y, m, d), CivilDate(y, m, d))
  {
    var t := MakeDay(y, m, d);
    assert m / 12 == 0 && m % 12 == m;
    YearLength(y);
    DaysBeforeMonthMonotone(y, m + 1, 12);
    YearUnique(t, y);
    MonthFromDayBounds(t);
    MonthUnique(y, t - DayFromYear(y), m, MonthFromDay(t));
  }

  /** `setDate(d)` on a copy of `t`: same year and month, day-of-month `d`. */
  function SetDate(t: Day, d: int): Day {
    MakeDay(YearFromDay(t), MonthFromDay(t), d)
  }

  /** `setMonth(m)` on a copy of `t`: same year and day-of-month, month `m`. */
  function SetMonth(t: Day, m: int): Day {
    MakeDay(YearFromDay(t), m, DateFromDay(t))
  }

  /** `setFullYear(y)` on a copy of `t`: same month and day-of-month, year `y`. */
  function SetFullYear(t: Day, y: int): Day {
    MakeDay(y, MonthFromDay(t), DateFromDay(t))
  }

  /** `Date.prototype.addTime`: a zero amount gives the date itself; any other amount
      gives `calculated`, what the caller's `calcFunc` makes of a copy of the date
      (the callbacks change only the copy made at line 166, so computing it in either case
      changes nothing). */
  function AddTime(date: Day, toAdd: int, calculated: Day): Day {
    if toAdd == 0 then date else calculated
  }

  /** `Date.prototype.addDays`: day counting is exact across month and year ends. */
  function AddDays(date: Day, toAdd: int): (r: Day)
    ensures r == date + toAdd
  {
    MonthFromDayBounds(date);
    MakeDayInYear(YearFromDay(date), MonthFromDay(date), DateFromDay(date) + toAdd);
    AddTime(date, toAdd, SetDate(date, DateFromDay(date) + toAdd))
  }

  /** `Date.prototype.addWeeks`: seven days per week, exactly. */
  function AddWeeks(date: Day, toAdd: int): (r: Day)
    ensures r == date + 7 * toAdd
  {
    MonthFromDayBounds(date);
    MakeDayInYear(YearFromDay(date), MonthFromDay(date), DateFromDay(date) + toAdd * 7);
    AddTime(date, toAdd, SetDate(date, DateFromDay(date) + toAdd * 7))
  }

  /** `Date.prototype.addMonths`: `setMonth(getMonth() + toAdd)`. */
  function AddMonths(date: Day, toAdd: int): (r: Day)
    ensures toAdd == 0 ==> r == date
  {
    AddTime(date, toAdd, SetMonth(date, MonthFromDay(date) + toAdd))
  }

  /** `Date.prototype.addYears`: `setFullYear(getFullYear() + toAdd)`. */
  function AddYears(date: Day, toAdd: int): (r: Day)
    ensures toAdd == 0 ==> r == date
  {
    AddTime(date, toAdd, SetFullYear(date, YearFromDay(date) + toAdd))
  }

  lemma AddMonthsNonZero(t: Day, k: int)
    requires k != 0
    ensures AddMonths(t, k) == MakeDay(YearFromDay(t), MonthFromDay(t) + k, DateFromDay(t))
  {
  }

  lemma AddYearsNonZero(t: Day, k: int)
    requires k != 0
    ensures AddYears(t, k) == MakeDay(YearFromDay(t) + k, MonthFromDay(t), DateFromDay(t))
  {
  }

  /** The year and month that `addMonths(k)` aims at. */
  function TargetMonth(t: Day, k: int): (r: CivilDate)
    ensures 0 <= r.month <= 11
  {
    var m := MonthFromDay(t) + k;
    CivilDate(YearFromDay(t) + m / 12, m % 12, DateFromDay(t))
  }

  /** When the day-of-month exists in the target month, `addMonths(k)` keeps it and
      moves year and month by `k` months. */
  lemma AddMonthsFields(t: Day, k: int)
    requires TargetMonth(t, k).date <= DaysInMonth(TargetMonth(t, k).year, TargetMonth(t, k).month)
    ensures HasFields(AddMonths(t, k), TargetMonth(t, k))
  {
    var c := TargetMonth(t, k);
    var m := MonthFromDay(t);
    DateFromDayBounds(t);
    if k == 0 {
      assert m / 12 == 0 && m % 12 == m;
    } else {
      AddMonthsNonZero(t, k);
      FieldsOfCarry(YearFromDay(t), m + k, DateFromDay(t));
    }
  }

  /** When the day-of-month is past the end of the target month, `addMonths(k)`
      rolls forward: the result lies that many days past the target month's last day. */
  lemma AddMonthsOverflow(t: Day, k: int)
    requires k != 0
    requires TargetMonth(t, k).date > DaysInMonth(TargetMonth(t, k).year, TargetMonth(t, k).month)
    ensures AddMonths(t, k)
         == MakeDay(TargetMonth(t, k).year, TargetMonth(t, k).month, DaysInMonth(TargetMonth(t, k).year, TargetMonth(t, k).month))
            + (TargetMonth(t, k).date - DaysInMonth(TargetMonth(t, k).year, TargetMonth(t, k).month))
  {
    var c := TargetMonth(t, k);
    AddMonthsNonZero(t, k);
    MakeDayCarry(YearFromDay(t), MonthFromDay(t) + k, DateFromDay(t));
    MakeDayInYear(c.year, c.month, c.date);
    MakeDayInYear(c.year, c.month, DaysInMonth(c.year, c.month));
  }

  /** A month number outside 0..11 carries into the year. */
  lemma MakeDayCarry(y: int, m: int, d: int)
    ensures MakeDay(y, m, d) == MakeDay(y + m / 12, m % 12, d)
  {
    assert (m % 12) / 12 == 0 && (m % 12) % 12 == m % 12;
  }

  /** `MakeDay` with a month outside 0..11 lands on the carried year and month. */
  lemma FieldsOfCarry(y: int, m: int, d: int)
    requires 1 <= d <= DaysInMonth(y + m / 12, m % 12)
    ensures HasFields(MakeDay(y, m, d), CivilDate(y + m / 12, m % 12, d))
  {
    MakeDayCarry(y, m, d);
    FieldsOfMakeDay(y + m / 12, m % 12, d);
  }

  /** Twelve months more is one year more. */
  lemma MakeDayYearShift(y: int, m: int, d: int, k: int)
    requires 0 <= m <= 11
    ensures MakeDay(y, m + 12 * k, d) == MakeDay(y + k, m, d)
  {
    assert (m + 12 * k) / 12 == k && (m + 12 * k) % 12 == m;
    assert m / 12 == 0 && m % 12 == m;
  }

  /** Adding `k` years is adding `12 * k` months. */
  lemma AddYearsIsTwelveMonths(t: Day, k: int)
    ensures AddYears(t, k) == AddMonths(t, 12 * k)
  {
    if k != 0 {
      MonthRange(t);
      AddYearsNonZero(t, k);
      AddMonthsNonZero(t, 12 * k);
      MakeDayYearShift(YearFromDay(t), MonthFromDay(t), DateFromDay(t), k);
    }
  }

  /** `addMonths` and `addYears` only look at the fields of the date. */
  lemma AddMonthsOfFields(t: Day, k: int, c: CivilDate)
    requires k != 0 && HasFields(t, c)
    ensures AddMonths(t, k) == MakeDay(c.year, c.month + k, c.date)
  {
    AddMonthsNonZero(t, k);
  }

  lemma AddYearsOfFields(t: Day, k: int, c: CivilDate)
    requires k != 0 && HasFields(t, c)
    ensures AddYears(t, k) == MakeDay(c.year + k, c.month, c.date)
  {
    AddYearsNonZero(t, k);
  }

  /** The day after 31 January is 1 February. */
  lemma Jan31NextDay(y: int)
    ensures AddDays(MakeDay(y, 0, 31), 1) == MakeDay(y, 1, 1)
  {
    MakeDayInYear(y, 0, 31);
    MakeDayInYear(y, 1, 1);
    assert MakeDay(y, 0, 31) + 1 == MakeDay(y, 1, 1);
  }

  lemma February31(y: int)
    ensures MakeDay(y, 1, 31) == MakeDay(y, 2, if IsLeapYear(y) then 2 else 3)
  {
    MakeDayInYear(y, 1, 31);
    MakeDayInYear(y, 2, if IsLeapYear(y) then 2 else 3);
  }

  lemma February29(y: int)
    requires !IsLeapYear(y)
    ensures MakeDay(y, 1, 29) == MakeDay(y, 2, 1)
  {
    MakeDayInYear(y, 1, 29);
    MakeDayInYear(y, 2, 1);
  }

  lemma NextYearIsCommon(y: int)
    requires IsLeapYear(y)
    ensures !IsLeapYear(y + 1)
  {
    assert y == 4 * (y / 4);
    assert (y + 1) % 4 == 1;
  }

  /** January 31 plus one month is March 3 in a common year (February 31 rolls
      over by three days) and March 2 in a leap year. */
  lemma Jan31PlusOneMonth(y: int)
    ensures AddMonths(MakeDay(y, 0, 31), 1) == MakeDay(y, 2, if IsLeapYear(y) then 2 else 3)
  {
    FieldsOfMakeDay(y, 0, 31);
    AddMonthsOfFields(MakeDay(y, 0, 31), 1, CivilDate(y, 0, 31));
    February31(y);
  }

  /** February 29 plus one year is March 1 of the following year. */
  lemma LeapDayPlusOneYear(y: int)
    requires IsLeapYear(y)
    ensures AddYears(MakeDay(y, 1, 29), 1) == MakeDay(y + 1, 2, 1)
  {
    var t := MakeDay(y, 1, 29);
    var next := y + 1;
    FieldsOfMakeDay(y, 1, 29);
    AddYearsOfFields(t, 1, CivilDate(y, 1, 29));
    assert AddYears(t, 1) == MakeDay(next, 1, 29);
    NextYearIsCommon(y);
    February29(next);
  }
}
