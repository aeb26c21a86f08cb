/**
  Civil-date arithmetic of ECMA-262 section 21.4.1 (the Date object's time values) on whole days.

  A civil day is an integer day number, day 0 being 1 January 1970, over the proleptic Gregorian
  calendar. Months are numbered 0 (January) to 11 (December), as `Date.prototype.getMonth` does.
  `MakeDay` accepts any integer month and day and normalises them, which is what `new Date(y, m, d)`,
  `setDate` and `setMonth` rely on when handed `month + 1`, day `0` or `1 - k`.
 */
module CivilDate {

  /** A normalised calendar date: 0 <= month < 12 and 1 <= day <= days in that month (see ValidDate). */
  datatype Civil = Civil(year: int, month: int, day: int)

  /** A year together with a month index 0..11. */
  datatype YearMonth = YearMonth(year: int, month: int)

  predicate IsLeap(y: int) {
    y % 4 == 0 && (y % 100 != 0 || y % 400 == 0)
  }

  function DaysInYear(y: int): int {
    if IsLeap(y) then 366 else 365
  }

  /** Days from 1 January of `y` to the first of month `m`; month 12 stands for the next 1 January.
      From March on, months alternate 31 and 30 days in a five-month cycle of 153 days, which the
      division by 5 counts; DaysBeforeMonthTable lists the values. */
  function DaysBeforeMonth(y: int, m: int): (n: int)
    requires 0 <= m <= 12
    ensures 0 <= n <= 366
  {
    if m == 0 then 0
    else if m == 1 then 31
    else 59 + (153 * (m - 2) + 2) / 5 + (if IsLeap(y) then 1 else 0)
  }
  /** The days before each month, one by one: 31 for January, then 28 or 29 for February, and so
      on through the 365 or 366 days of the year. */
  lemma DaysBeforeMonthTable(y: int)
    ensures var l := if IsLeap(y) then 1 else 0;
      && DaysBeforeMonth(y, 1) == 31 && DaysBeforeMonth(y, 2) == 59 + l
      && DaysBeforeMonth(y, 3) == 90 + l && DaysBeforeMonth(y, 4) == 120 + l
      && DaysBeforeMonth(y, 5) == 151 + l && DaysBeforeMonth(y, 6) == 181 + l
      && DaysBeforeMonth(y, 7) == 212 + l && DaysBeforeMonth(y, 8) == 243 + l
      && DaysBeforeMonth(y, 9) == 273 + l && DaysBeforeMonth(y, 10) == 304 + l
      && DaysBeforeMonth(y, 11) == 334 + l && DaysBeforeMonth(y, 12) == DaysInYear(y)
  {
  }


  function DaysInMonth(y: int, m: int): (n: int)
    requires 0 <= m < 12
    ensures 28 <= n <= 31
    ensures n == 29 <==> m == 1 && IsLeap(y)
  {
    DaysBeforeMonth(y, m + 1) - DaysBeforeMonth(y, m)
  }

  predicate ValidDate(c: Civil) {
    0 <= c.month < 12 && 1 <= c.day <= DaysInMonth(c.year, c.month)
  }

  /** ECMA-262 DayFromYear: the day number of 1 January of year `y`, counted year by year from 1970
      (DayFromYearClosedForm gives the closed form the standard states). */
  function DayFromYear(y: int): int
    decreases if y < 1970 then 1970 - y else y - 1970, 1
  {
    if y == 1970 then 0 else FromNeighbourYear(y)
  }

  /** 1 January of a year other than 1970, from the neighbouring year nearer 1970: a year length
      after the year before, or a year length before the year after. */
  function FromNeighbourYear(y: int): int
    requires y != 1970
    decreases if y < 1970 then 1970 - y else y - 1970, 0
  {
    if y > 1970 then DayFromYear(y - 1) + DaysInYear(y - 1)
    else DayFromYear(y + 1) - DaysInYear(y)
  }

  /** The year and month an out-of-range month index stands for: month 12 of 2025 is January 2026,
      month -1 of 2026 is December 2025. */
  function Normalize(y: int, m: int): (r: YearMonth)
    ensures 0 <= r.month < 12
    ensures 12 * r.year + r.month == 12 * y + m
  {
    YearMonth(y + m / 12, m % 12)
  }

  /** ECMA-262 MakeDay: the day number of day `d` of month `m` of year `y`, for any integers. */
  function MakeDay(y: int, m: int, d: int): int {
    var n := Normalize(y, m);
    DayFromYear(n.year) + DaysBeforeMonth(n.year, n.month) + d - 1
  }

  /** For a month index already in range MakeDay is a plain sum. */
  lemma MakeDayInRange(y: int, m: int, d: int)
    requires 0 <= m < 12
    ensures MakeDay(y, m, d) == DayFromYear(y) + DaysBeforeMonth(y, m) + d - 1
  {
    assert Normalize(y, m) == YearMonth(y, m);
  }

  /** ECMA-262 WeekDay: 0 is Sunday, as `Date.prototype.getDay`; 1 January 1970 was a Thursday. */
  function Weekday(t: int): int {
    (t + 4) % 7
  }

  // ---------------------------------------------------------------------------------------------
  // Year and month lengths

  lemma YearLength(y: int)
    ensures DayFromYear(y + 1) == DayFromYear(y) + DaysInYear(y)
  {
    if y < 1970 {
      assert DayFromYear(y) == FromNeighbourYear(y);
    } else {
      assert DayFromYear(y + 1) == FromNeighbourYear(y + 1);
    }
  }

  /** ECMA-262's closed form: 365 days a year plus the leap days counted by floor division. */
  lemma {:induction false} DayFromYearClosedForm(y: int)
    ensures DayFromYear(y) == 365 * (y - 1970) + (y - 1969) / 4 - (y - 1901) / 100 + (y - 1601) / 400
    decreases if y < 1970 then 1970 - y else y - 1970
  {
    if y > 1970 {
      DayFromYearClosedForm(y - 1);
      LeapDaysStep(y - 1);
    } else if y < 1970 {
      DayFromYearClosedForm(y + 1);
      LeapDaysStep(y);
    }
  }

  /** Each of ECMA-262's floor-division leap counts steps up by one exactly past a multiple of its
      period, which together add the leap day IsLeap promises. */
  lemma LeapDaysStep(y: int)
    ensures (y - 1968) / 4 - (y - 1900) / 100 + (y - 1600) / 400
         == (y - 1969) / 4 - (y - 1901) / 100 + (y - 1601) / 400 + DaysInYear(y) - 365
  {
    LeapCountStep(y);
    CenturyCountStep(y);
    QuadCenturyCountStep(y);
  }

  lemma LeapCountStep(y: int)
    ensures (y - 1968) / 4 == (y - 1969) / 4 + (if y % 4 == 0 then 1 else 0)
  {
  }

  lemma CenturyCountStep(y: int)
    ensures (y - 1900) / 100 == (y - 1901) / 100 + (if y % 100 == 0 then 1 else 0)
  {
  }

  lemma QuadCenturyCountStep(y: int)
    ensures (y - 1600) / 400 == (y - 1601) / 400 + (if y % 400 == 0 then 1 else 0)
  {
  }

  lemma DaysBeforeMonthStep(y: int, m: int)
    requires 0 <= m < 12
    ensures DaysBeforeMonth(y, m + 1) == DaysBeforeMonth(y, m) + DaysInMonth(y, m)
  {
  }

  lemma DaysBeforeMonthYear(y: int)
    ensures DaysBeforeMonth(y, 0) == 0
    ensures DaysBeforeMonth(y, 12) == DaysInYear(y)
  {
  }

  lemma {:induction false} DayFromYearMonotone(a: int, b: int)
    requires a <= b
    ensures DayFromYear(a) + 365 * (b - a) <= DayFromYear(b)
    decreases b - a
  {
    if a < b {
      DayFromYearMonotone(a, b - 1);
      YearLength(b - 1);
    }
  }

  lemma {:induction false} DaysBeforeMonthMonotone(y: int, a: int, b: int)
    requires 0 <= a <= b <= 12
    ensures DaysBeforeMonth(y, a) + 28 * (b - a) <= DaysBeforeMonth(y, b)
    decreases b - a
  {
    if a < b {
      DaysBeforeMonthMonotone(y, a, b - 1);
      DaysBeforeMonthStep(y, b - 1);
    }
  }

  // ---------------------------------------------------------------------------------------------
  // From a day number back to year, month and date (ECMA-262 YearFromTime, MonthFromTime, DateFromTime)

  function SeekYearUp(t: int, y: int): (r: int)
    requires DayFromYear(y) <= t
    ensures DayFromYear(r) <= t < DayFromYear(r + 1)
    decreases t - DayFromYear(y)
  {
    YearLength(y);
    if t < DayFromYear(y + 1) then y else SeekYearUp(t, y + 1)
  }

  function SeekYearDown(t: int, y: int): (r: int)
    requires t < DayFromYear(y + 1)
    ensures DayFromYear(r) <= t < DayFromYear(r + 1)
    decreases DayFromYear(y) - t
  {
    YearLength(y - 1);
    if DayFromYear(y) <= t then y else SeekYearDown(t, y - 1)
  }

  /** The year whose days include day `t`. */
  function YearFromDay(t: int): (y: int)
    ensures DayFromYear(y) <= t < DayFromYear(y + 1)
  {
    if 0 <= t then SeekYearUp(t, 1970) else SeekYearDown(t, 1969)
  }

  /** ECMA-262 MonthFromTime: the month whose days include day `dayOfYear` (0-based) of year `y`.
      From March on the five-month cycle of 153 days is inverted by one division. */
  function MonthFromDayOfYear(y: int, dayOfYear: int): (m: int)
    requires 0 <= dayOfYear < DaysInYear(y)
    ensures 0 <= m < 12
    ensures DaysBeforeMonth(y, m) <= dayOfYear < DaysBeforeMonth(y, m + 1)
  {
    var leap := if IsLeap(y) then 1 else 0;
    if dayOfYear < 31 then 0
    else if dayOfYear < 59 + leap then 1
    else 2 + (5 * (dayOfYear - 59 - leap) + 2) / 153
  }

  /** The calendar date of day `t`: a valid date that MakeDay maps back to `t`. */
  function ToCivil(t: int): (c: Civil)
    ensures ValidDate(c)
    ensures MakeDay(c.year, c.month, c.day) == t
  {
    var y := YearFromDay(t);
    YearLength(y);
    DaysBeforeMonthYear(y);
    var dayOfYear := t - DayFromYear(y);
    var m := MonthFromDayOfYear(y, dayOfYear);
    DaysBeforeMonthStep(y, m);
    var d := dayOfYear - DaysBeforeMonth(y, m) + 1;
    MakeDayInRange(y, m, d);
    Civil(y, m, d)
  }

  /** `getFullYear`, `getMonth` and `getDate` of a civil day. */
  function YearOf(t: int): int { ToCivil(t).year }
  function MonthOf(t: int): int { ToCivil(t).month }
  function DateOf(t: int): int { ToCivil(t).day }

  /** Two day numbers with the same calendar date are the same day. */
  lemma ToCivilInjective(a: int, b: int)
    requires ToCivil(a) == ToCivil(b)
    ensures a == b
  {
  }

  lemma YearUnique(t: int, a: int, b: int)
    requires DayFromYear(a) <= t < DayFromYear(a + 1)
    requires DayFromYear(b) <= t < DayFromYear(b + 1)
    ensures a == b
  {
    if a < b {
      DayFromYearMonotone(a + 1, b);
    } else if b < a {
      DayFromYearMonotone(b + 1, a);
    }
  }

  lemma MonthUnique(y: int, dayOfYear: int, a: int, b: int)
    requires 0 <= a < 12 && 0 <= b < 12
    requires DaysBeforeMonth(y, a) <= dayOfYear < DaysBeforeMonth(y, a + 1)
    requires DaysBeforeMonth(y, b) <= dayOfYear < DaysBeforeMonth(y, b + 1)
    ensures a == b
  {
    if a < b {
      DaysBeforeMonthMonotone(y, a + 1, b);
    } else if b < a {
      DaysBeforeMonthMonotone(y, b + 1, a);
    }
  }

  /** Every valid date is recovered from its day number, so MakeDay is injective on valid dates and
      ToCivil is its inverse in both directions. */
  lemma CivilRoundTrip(c: Civil)
    requires ValidDate(c)
    ensures ToCivil(MakeDay(c.year, c.month, c.day)) == c
  {
    MakeDayInjective(c, ToCivil(MakeDay(c.year, c.month, c.day)));
  }

  /** Distinct valid dates have distinct day numbers. */
  lemma MakeDayInjective(a: Civil, b: Civil)
    requires ValidDate(a) && ValidDate(b)
    requires MakeDay(a.year, a.month, a.day) == MakeDay(b.year, b.month, b.day)
    ensures a == b
  {
    SameDayNumberSameYear(a, b);
    SameDayNumberSameMonth(a, b);
    MakeDayInRange(a.year, a.month, a.day);
    MakeDayInRange(b.year, b.month, b.day);
  }

  lemma SameDayNumberSameYear(a: Civil, b: Civil)
    requires ValidDate(a) && ValidDate(b)
    requires MakeDay(a.year, a.month, a.day) == MakeDay(b.year, b.month, b.day)
    ensures a.year == b.year
  {
    YearOfValidDate(a);
    YearOfValidDate(b);
  }

  lemma YearOfValidDate(c: Civil)
    requires ValidDate(c)
    ensures YearFromDay(MakeDay(c.year, c.month, c.day)) == c.year
  {
    var t := MakeDay(c.year, c.month, c.day);
    DateWithinYear(c);
    YearUnique(t, c.year, YearFromDay(t));
  }

  lemma SameDayNumberSameMonth(a: Civil, b: Civil)
    requires ValidDate(a) && ValidDate(b) && a.year == b.year
    requires MakeDay(a.year, a.month, a.day) == MakeDay(b.year, b.month, b.day)
    ensures a.month == b.month
  {
    DateWithinMonth(a);
    DateWithinMonth(b);
    MonthUnique(a.year, MakeDay(a.year, a.month, a.day) - DayFromYear(a.year), a.month, b.month);
  }

  /** A valid date's day number falls within its month, counted from the start of its year. */
  lemma DateWithinMonth(c: Civil)
    requires ValidDate(c)
    ensures var dayOfYear := MakeDay(c.year, c.month, c.day) - DayFromYear(c.year);
      DaysBeforeMonth(c.year, c.month) <= dayOfYear < DaysBeforeMonth(c.year, c.month + 1)
  {
    MakeDayInRange(c.year, c.month, c.day);
    DaysBeforeMonthStep(c.year, c.month);
  }

  /** A valid date's day number falls within its year. */
  lemma DateWithinYear(c: Civil)
    requires ValidDate(c)
    ensures DayFromYear(c.year) <= MakeDay(c.year, c.month, c.day) < DayFromYear(c.year + 1)
  {
    DateWithinMonth(c);
    DaysBeforeMonthMonotone(c.year, c.month + 1, 12);
    DaysBeforeMonthYear(c.year);
    YearLength(c.year);
  }

  /** Two days have the same year, month and date exactly when they are the same day. */
  lemma SameCivilDayIff(a: int, b: int)
    ensures (YearOf(a) == YearOf(b) && MonthOf(a) == MonthOf(b) && DateOf(a) == DateOf(b)) <==> a == b
  {
  }

  // ---------------------------------------------------------------------------------------------
  // Month overflow

  /** The first of the month after (y, m) lies the length of month (y, m) after the first of (y, m);
      December runs into January of the next year. */
  lemma NextMonthStart(y: int, m: int)
    ensures var n := Normalize(y, m);
      MakeDay(y, m + 1, 1) == MakeDay(y, m, 1) + DaysInMonth(n.year, n.month)
  {
    var n := Normalize(y, m);
    var n' := Normalize(y, m + 1);
    DaysBeforeMonthStep(n.year, n.month);
    if n.month < 11 {
      assert n' == YearMonth(n.year, n.month + 1);
    } else {
      assert n' == YearMonth(n.year + 1, 0);
      YearLength(n.year);
      DaysBeforeMonthYear(n.year);
    }
  }

  /** The month after month `m`: the next index, or January of the next year after December. */
  lemma NormalizeNext(y: int, m: int)
    requires 0 <= m < 12
    ensures Normalize(y, m + 1) == if m == 11 then YearMonth(y + 1, 0) else YearMonth(y, m + 1)
  {
  }

  /** The first of the following month comes right after the last day of month `m`. */
  lemma NextMonthFirst(y: int, m: int)
    requires 0 <= m < 12
    ensures var next := Normalize(y, m + 1);
      MakeDay(next.year, next.month, 1) == MakeDay(y, m, 1) + DaysInMonth(y, m)
  {
    NextMonthOffset(y, m, 1);
    MakeDayNormalized(y, m + 1, 1);
  }

  /** Within one month index, MakeDay is linear in the day argument. */
  lemma MakeDayShift(y: int, m: int, d: int)
    ensures MakeDay(y, m, d) == MakeDay(y, m, 1) + d - 1
  {
  }

  /** Day `d` of the month after (y, m), counted from the first of (y, m). */
  lemma NextMonthOffset(y: int, m: int, d: int)
    requires 0 <= m < 12
    ensures MakeDay(y, m + 1, d) == MakeDay(y, m, 1) + DaysInMonth(y, m) + d - 1
  {
    assert Normalize(y, m) == YearMonth(y, m);
    NextMonthStart(y, m);
    MakeDayShift(y, m + 1, d);
  }

  /** The first of month (y, m) lies the length of the previous month after that month's first. */
  lemma PrevMonthStart(y: int, m: int)
    requires 0 <= m < 12
    ensures var p := Normalize(y, m - 1);
      MakeDay(y, m, 1) == MakeDay(p.year, p.month, 1) + DaysInMonth(p.year, p.month)
  {
    var p := Normalize(y, m - 1);
    if m == 0 {
      assert p == YearMonth(y - 1, 11);
    } else {
      assert p == YearMonth(y, m - 1);
    }
    NextMonthStart(p.year, p.month);
    assert Normalize(p.year, p.month) == p;
    assert Normalize(p.year, p.month + 1) == YearMonth(y, m);
  }

  /** The day `d - 1` days after the first of a month is day `d` of that month. */
  lemma OffsetFromMonthStart(t: int, y: int, m: int, d: int)
    requires ValidDate(Civil(y, m, d)) && t == MakeDay(y, m, 1) + d - 1
    ensures ToCivil(t) == Civil(y, m, d)
  {
    MakeDayShift(y, m, d);
    ToCivilOfMakeDay(t, Civil(y, m, d));
  }

  /** A day number that MakeDay gives for a valid date has that date. */
  lemma ToCivilOfMakeDay(t: int, c: Civil)
    requires ValidDate(c) && t == MakeDay(c.year, c.month, c.day)
    ensures ToCivil(t) == c
  {
    CivilRoundTrip(c);
  }

  /** Where day `d` (1..31) of month index `m` lands: on day `d` of the normalised month when that
      month has `d` days, otherwise `d - length` days into the month after it. */
  predicate LandsOn(t: int, y: int, m: int, d: int) {
    var n := Normalize(y, m);
    var len := DaysInMonth(n.year, n.month);
    var next := Normalize(n.year, n.month + 1);
    if d <= len then ToCivil(t) == Civil(n.year, n.month, d)
    else ToCivil(t) == Civil(next.year, next.month, d - len)
  }

  lemma MakeDayOverflow(y: int, m: int, d: int)
    requires 1 <= d <= 31
    ensures LandsOn(MakeDay(y, m, d), y, m, d)
  {
    var n := Normalize(y, m);
    MakeDayNormalized(y, m, d);
    if d <= DaysInMonth(n.year, n.month) {
      CivilRoundTrip(Civil(n.year, n.month, d));
    } else {
      LandsInNextMonth(n.year, n.month, d);
    }
  }

  lemma LandsInNextMonth(y: int, m: int, d: int)
    requires 0 <= m < 12 && DaysInMonth(y, m) < d <= 31
    ensures var next := Normalize(y, m + 1);
      ToCivil(MakeDay(y, m, d)) == Civil(next.year, next.month, d - DaysInMonth(y, m))
  {
    var next := Normalize(y, m + 1);
    var k := d - DaysInMonth(y, m);
    assert 1 <= k <= 3;
    assert ValidDate(Civil(next.year, next.month, k)) by {
      assert DaysInMonth(next.year, next.month) >= 28;
    }
    OverflowIntoNextMonth(y, m, d);
    CivilRoundTrip(Civil(next.year, next.month, k));
  }

  /** MakeDay sees only the normalised month. */
  lemma MakeDayNormalized(y: int, m: int, d: int)
    ensures var n := Normalize(y, m); MakeDay(y, m, d) == MakeDay(n.year, n.month, d)
  {
    var n := Normalize(y, m);
    assert Normalize(n.year, n.month) == n;
  }

  /** A day past the end of month (y, m) is the same day number as the excess day of the next month. */
  lemma OverflowIntoNextMonth(y: int, m: int, d: int)
    requires 0 <= m < 12 && DaysInMonth(y, m) < d
    ensures var next := Normalize(y, m + 1);
      MakeDay(y, m, d) == MakeDay(next.year, next.month, d - DaysInMonth(y, m))
  {
    NextMonthStart(y, m);
    MakeDayNormalized(y, m + 1, d - DaysInMonth(y, m));
    assert Normalize(y, m) == YearMonth(y, m);
  }

  /** `new Date(y, m + 1, 0).getDate()`: day 0 of the following month is the last day of month m,
      so the idiom yields the month's length (29 for February of a leap year, 28 otherwise). */
  lemma MonthLengthAsWritten(y: int, m: int)
    requires 0 <= m < 12
    ensures DateOf(MakeDay(y, m + 1, 0)) == DaysInMonth(y, m)
  {
    DayZeroIsLastDay(y, m);
    CivilRoundTrip(Civil(y, m, DaysInMonth(y, m)));
  }

  /** Day 0 of month m + 1 is the day number of the last day of month m. */
  lemma DayZeroIsLastDay(y: int, m: int)
    requires 0 <= m < 12
    ensures MakeDay(y, m + 1, 0) == MakeDay(y, m, DaysInMonth(y, m))
  {
    NextMonthOffset(y, m, 0);
    MakeDayShift(y, m, DaysInMonth(y, m));
  }

  /** February computed the view's way has 29 days exactly in leap years. */
  lemma FebruaryLength(y: int)
    ensures DateOf(MakeDay(y, 2, 0)) == (if IsLeap(y) then 29 else 28)
  {
    MonthLengthAsWritten(y, 1);
  }

  // ---------------------------------------------------------------------------------------------
  // Date setters (ECMA-262 sections 21.4.4.20 and 21.4.4.25)

  /** `setDate(d)`: day `d` of the same month, however far out of range; this moves the date by
      `d - getDate()` days. */
  function SetDate(t: int, d: int): (r: int)
    ensures r == t + (d - DateOf(t))
  {
    var c := ToCivil(t);
    MakeDay(c.year, c.month, d)
  }

  /** `setMonth(m)`: the same day-of-month in month index `m` of the same year, overflowing into the
      following month when the target month is too short. */
  function SetMonth(t: int, m: int): (r: int)
    ensures LandsOn(r, YearOf(t), m, DateOf(t))
  {
    var c := ToCivil(t);
    MakeDayOverflow(c.year, m, c.day);
    MakeDay(c.year, m, c.day)
  }

  /** The year `new Date(y, …)` means (ECMA-262 section 21.4.2.1): a year 0..99 stands for
      1900..1999. */
  function ConstructorYear(y: int): int {
    if 0 <= y <= 99 then 1900 + y else y
  }

  /** `new Date(y, m, d)`: the month and day are normalised as by MakeDay in the constructor's
      year. */
  function NewDate(y: int, m: int, d: int): (r: int)
    ensures 1 <= d <= 31 ==> LandsOn(r, if 0 <= y <= 99 then 1900 + y else y, m, d)
  {
    var year := ConstructorYear(y);
    assert 1 <= d <= 31 ==> LandsOn(MakeDay(year, m, d), year, m, d) by {
      if 1 <= d <= 31 { MakeDayOverflow(year, m, d); }
    }
    MakeDay(year, m, d)
  }

  /** `new Date(y, m, d)` is MakeDay in the constructor's year. */
  lemma NewDateIsMakeDay(y: int, m: int, d: int)
    ensures NewDate(y, m, d) == MakeDay(ConstructorYear(y), m, d)
  {
  }

  /** `getDay` is a weekday 0..6, and stepping back that many days reaches a Sunday. */
  lemma SundayOnOrBefore(t: int)
    ensures 0 <= Weekday(t) < 7
    ensures Weekday(t - Weekday(t)) == 0
  {
  }

  /** Whole weeks do not change the weekday. */
  lemma WeekdayAfterWeeks(t: int, k: int)
    ensures Weekday(t + 7 * k) == Weekday(t)
  {
    var q := (t + 4) / 7;
    assert t + 7 * k + 4 == 7 * (q + k) + Weekday(t);
  }
}
