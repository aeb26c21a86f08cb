/** The calendar view's date engine: the seven days of the week view, the 42-cell month grid with
    filler days from the neighbouring months, and the per-day event lookup. */
module CalendarGrid {
  import opened Collections
  import opened Types
  import opened CivilDate

  /** One cell of the month grid. */
  datatype Cell = Cell(date: int, isCurrentMonth: bool)

  // ---------------------------------------------------------------------------------------------
  // Week view

  /** `n` copies of `start`, the i-th moved with `setDate(start.getDate() + i)`: the `n` consecutive
      days beginning at `start`. */
  function DaysFrom(start: int, n: nat): (r: seq<int>)
    ensures |r| == n
    ensures forall i :: 0 <= i < n ==> r[i] == start + i
  {
    if n == 0 then []
    else DaysFrom(start, n - 1) + [SetDate(start, DateOf(start) + (n - 1))]
  }

  /** `setDate(getDate() - getDay())` steps back to the Sunday on or before `current`. */
  lemma StartOfWeek(current: int)
    ensures var s := SetDate(current, DateOf(current) - Weekday(current));
      && 0 <= Weekday(current) < 7
      && s == current - Weekday(current)
      && Weekday(s) == 0
  {
    var s := SetDate(current, DateOf(current) - Weekday(current));
    var w := Weekday(current);
    assert s == current - w;
    SundayOnOrBefore(current);
    assert Weekday(current - w) == 0;
  }

  /** `weekDays`: the Sunday-to-Saturday week containing `current`; its day of week `getDay()` is
      `current` itself. */
  function WeekDays(current: int): (days: seq<int>)
    ensures |days| == 7
    ensures Weekday(days[0]) == 0
    ensures forall i :: 0 <= i < 7 ==> days[i] == days[0] + i
    ensures days[Weekday(current)] == current
  {
    StartOfWeek(current);
    DaysFrom(SetDate(current, DateOf(current) - Weekday(current)), 7)
  }

  /** Counting on up to six days from a Sunday stays in that Sunday's week. */
  lemma SundayOf(s: int, i: int, t: int)
    requires Weekday(s) == 0 && 0 <= i < 7 && t == s + i
    ensures t - Weekday(t) == s
  {
  }

  /** Every day shown belongs to the week shown: moving the reference date to any of the seven days
      leaves the week view unchanged. */
  lemma WeekDaysStable(current: int, i: int)
    requires 0 <= i < 7
    ensures WeekDays(WeekDays(current)[i]) == WeekDays(current)
  {
    var days := WeekDays(current);
    SundayOnOrBefore(current);
    SundayOf(days[0], i, days[i]);
    SundayOf(days[0], Weekday(current), current);
    WeekDaysSameWeek(days[i], current);
  }

  /** Two dates share a week view exactly when they lie in the same Sunday-to-Saturday week. */
  lemma WeekDaysSameWeek(a: int, b: int)
    ensures WeekDays(a) == WeekDays(b) <==> a - Weekday(a) == b - Weekday(b)
  {
    StartOfWeek(a);
    StartOfWeek(b);
    var da, db := WeekDays(a), WeekDays(b);
    assert da[0] == a - Weekday(a);
    assert db[0] == b - Weekday(b);
    if a - Weekday(a) == b - Weekday(b) {
      assert forall k :: 0 <= k < 7 ==> da[k] == db[k];
    }
  }

  // ---------------------------------------------------------------------------------------------
  // Month view

  /** The year whose month the view shows for reference date `t`: every cell is built with
      `new Date(year, month, …)`, so a year 0..99 shows its month in 1900..1999. */
  function ShownYear(t: int): int {
    ConstructorYear(YearOf(t))
  }

  /** The first of the shown month. */
  function MonthStart(t: int): int {
    MakeDay(ShownYear(t), MonthOf(t), 1)
  }

  /** The number of filler days before the first of the month: the first's weekday. */
  function LeadingCount(t: int): int {
    Weekday(MonthStart(t))
  }

  /** The number of days of the shown month. */
  function MonthLength(t: int): int {
    DaysInMonth(ShownYear(t), MonthOf(t))
  }

  /** 42 consecutive days from `first - lead`, flagged current exactly on the `len` days that start
      at `first`. */
  predicate GridShape(days: seq<Cell>, first: int, lead: int, len: int) {
    && |days| == 42
    && (forall i :: 0 <= i < |days| ==> days[i].date == first - lead + i)
    && (forall i :: 0 <= i < |days| ==> (days[i].isCurrentMonth <==> lead <= i < lead + len))
  }

  /** The shape of the month grid for reference date `current`: it starts `LeadingCount` days
      before the first of the shown month and flags that month's own days as current. */
  predicate IsMonthGrid(current: int, days: seq<Cell>) {
    GridShape(days, MonthStart(current), LeadingCount(current), MonthLength(current))
  }

  /** The view's `new Date(year, month + 1, 0).getDate()`: the length of the month in the
      constructor's year. */
  method CountDaysInMonth(year: int, month: int) returns (n: int)
    requires 0 <= month < 12
    ensures n == DaysInMonth(ConstructorYear(year), month)
  {
    n := DateOf(NewDate(year, month + 1, 0));
    MonthLengthAsWritten(ConstructorYear(year), month);
  }

  /** The view's `new Date(year, month, d)`: `d - 1` days after the first of the month in the
      constructor's year, whatever the sign or size of `d`. */
  function MonthDay(year: int, month: int, d: int): (r: int)
    ensures r == MakeDay(ConstructorYear(year), month, 1) + d - 1
  {
    NewDateIsMakeDay(year, month, d);
    MakeDayShift(ConstructorYear(year), month, d);
    NewDate(year, month, d)
  }

  /** `calendarDays`: the grid of the reference date's `getFullYear()` and `getMonth()`. */
  method CalendarDays(current: int) returns (days: seq<Cell>)
    ensures IsMonthGrid(current, days)
  {
    var c := ToCivil(current);
    days := MonthCells(c.year, c.month);
  }

  /** The body of `calendarDays` for a year and month: `getDay()` and the length of the first of
      the month, then its three loops. */
  method MonthCells(year: int, month: int) returns (days: seq<Cell>)
    requires 0 <= month < 12
    ensures var first := MakeDay(ConstructorYear(year), month, 1);
      GridShape(days, first, Weekday(first), DaysInMonth(ConstructorYear(year), month))
  {
    var firstDayOfMonth := Weekday(MonthDay(year, month, 1));
    assert 0 <= firstDayOfMonth < 7;
    var daysInMonth := CountDaysInMonth(year, month);
    var leading := PreviousMonthFillers(year, month, firstDayOfMonth);
    var withMonth := AppendMonthDays(year, month, leading, daysInMonth);
    ghost var first := MakeDay(ConstructorYear(year), month, 1);
    NextMonthOffset(ConstructorYear(year), month, 1);
    days := AppendNextMonthFillers(year, month, withMonth, firstDayOfMonth, daysInMonth, first);
    GridFromParts(leading, withMonth, days, first, firstDayOfMonth, daysInMonth);
  }

  /** The three loops' cells, each continuing the one before, make up the grid shape. */
  lemma GridFromParts(leading: seq<Cell>, withMonth: seq<Cell>, days: seq<Cell>, first: int, lead: int,
                      len: int)
    requires 0 <= lead && 0 <= len
    requires |leading| == lead && forall j :: 0 <= j < lead ==> leading[j] == Cell(first - lead + j, false)
    requires |withMonth| == lead + len && withMonth[..lead] == leading
    requires forall j :: lead <= j < lead + len ==> withMonth[j] == Cell(first + j - lead, true)
    requires |days| == 42 && 0 <= lead + len <= 42 && days[..lead + len] == withMonth
    requires forall j :: lead + len <= j < 42 ==> days[j] == Cell(first - lead + j, false)
    ensures GridShape(days, first, lead, len)
  {
    forall j | 0 <= j < 42
      ensures days[j] == Cell(first - lead + j, lead <= j < lead + len)
    {
      if j < lead + len {
        assert days[j] == withMonth[j];
        if j < lead {
          assert withMonth[j] == leading[j];
        }
      }
    }
  }

  /** The first loop: `lead` cells before the first of the month, built as
      `new Date(year, month, 1 - (i + 1))` for `i` from `lead - 1` down to 0. */
  method PreviousMonthFillers(year: int, month: int, lead: int) returns (days: seq<Cell>)
    requires 0 <= lead
    ensures var first := MakeDay(ConstructorYear(year), month, 1);
      |days| == lead && forall j :: 0 <= j < |days| ==> days[j] == Cell(first - lead + j, false)
  {
    ghost var base := MakeDay(ConstructorYear(year), month, 1) - lead;
    days := [];
    var i := lead - 1;
    while i >= 0
      invariant -1 <= i < lead
      invariant |days| == lead - 1 - i
      invariant forall j :: 0 <= j < |days| ==> days[j] == Cell(base + j, false)
    {
      var d := MonthDay(year, month, 1 - (i + 1));
      days := days + [Cell(d, false)];
      i := i - 1;
    }
  }

  /** The second loop: days 1..`len` of the month, built as `new Date(year, month, i)` and
      flagged current. */
  method AppendMonthDays(year: int, month: int, prefix: seq<Cell>, len: int) returns (days: seq<Cell>)
    requires 0 <= len
    ensures |days| == |prefix| + len
    ensures days[..|prefix|] == prefix
    ensures var first := MakeDay(ConstructorYear(year), month, 1);
      forall j :: |prefix| <= j < |days| ==> days[j] == Cell(first + j - |prefix|, true)
  {
    ghost var first := MakeDay(ConstructorYear(year), month, 1);
    days := prefix;
    var i := 1;
    while i <= len
      invariant 1 <= i <= len + 1
      invariant |days| == |prefix| + i - 1
      invariant days[..|prefix|] == prefix
      invariant forall j :: |prefix| <= j < |days| ==> days[j] == Cell(first + j - |prefix|, true)
    {
      var d := MonthDay(year, month, i);
      days := days + [Cell(d, true)];
      i := i + 1;
    }
  }

  /** The third loop: the cells left to reach 42, built as `new Date(year, month + 1, i)`, which
      continue from the last of the `len` days that start at `first`. */
  method AppendNextMonthFillers(year: int, month: int, prefix: seq<Cell>, lead: int, len: int,
                                ghost first: int)
    returns (days: seq<Cell>)
    requires 0 <= lead && |prefix| == lead + len && |prefix| <= 42
    requires MakeDay(ConstructorYear(year), month + 1, 1) == first + len
    ensures |days| == 42
    ensures days[..|prefix|] == prefix
    ensures forall j :: |prefix| <= j < 42 ==> days[j] == Cell(first - lead + j, false)
  {
    var remainingCells := 42 - |prefix|;
    days := prefix;
    var i := 1;
    while i <= remainingCells
      invariant 1 <= i <= remainingCells + 1
      invariant |days| == |prefix| + i - 1
      invariant days[..|prefix|] == prefix
      invariant forall j :: |prefix| <= j < |days| ==> days[j] == Cell(first - lead + j, false)
    {
      var d := MonthDay(year, month + 1, i);
      days := days + [Cell(d, false)];
      i := i + 1;
    }
  }

  /** The grid shape determines the grid: there is exactly one for each month. */
  lemma MonthGridUnique(current: int, a: seq<Cell>, b: seq<Cell>)
    requires IsMonthGrid(current, a) && IsMonthGrid(current, b)
    ensures a == b
  {
    GridShapeUnique(a, b, MonthStart(current), LeadingCount(current), MonthLength(current));
  }

  lemma GridShapeUnique(a: seq<Cell>, b: seq<Cell>, first: int, lead: int, len: int)
    requires GridShape(a, first, lead, len) && GridShape(b, first, lead, len)
    ensures a == b
  {
    assert forall i :: 0 <= i < 42 ==> a[i] == b[i];
  }

  /** Every date of one month yields the same grid. */
  lemma MonthGridSameMonth(a: int, b: int, days: seq<Cell>)
    requires YearOf(a) == YearOf(b) && MonthOf(a) == MonthOf(b)
    requires IsMonthGrid(a, days)
    ensures IsMonthGrid(b, days)
  {
    assert MonthStart(a) == MonthStart(b);
    assert MonthLength(a) == MonthLength(b);
  }

  /** The grid starts on a Sunday and runs through consecutive, hence distinct, days. */
  lemma MonthGridConsecutive(current: int, days: seq<Cell>)
    requires IsMonthGrid(current, days)
    ensures Weekday(days[0].date) == 0
    ensures forall i :: 0 <= i < 41 ==> days[i + 1].date == days[i].date + 1
    ensures forall i, j :: 0 <= i < j < 42 ==> days[i].date < days[j].date
  {
    var first, lead := MonthStart(current), LeadingCount(current);
    GridConsecutive(days, first, lead, MonthLength(current));
    SundayOnOrBefore(first);
    assert days[0].date == first - Weekday(first);
  }

  lemma GridConsecutive(days: seq<Cell>, first: int, lead: int, len: int)
    requires GridShape(days, first, lead, len)
    ensures days[0].date == first - lead
    ensures forall i :: 0 <= i < 41 ==> days[i + 1].date == days[i].date + 1
    ensures forall i, j :: 0 <= i < j < 42 ==> days[i].date < days[j].date
  {
  }

  /** The leading fillers are the last `LeadingCount` days of the month before the shown one, in
      ascending order and flagged not-current; there are none when the first is a Sunday. */
  lemma MonthGridLeadingFillers(current: int, days: seq<Cell>)
    requires IsMonthGrid(current, days)
    ensures var y, m := ShownYear(current), MonthOf(current);
      var prev := Normalize(y, m - 1);
      var lead := LeadingCount(current);
      && 0 <= lead < 7
      && (Weekday(MakeDay(y, m, 1)) == 0 ==> lead == 0)
      && forall i :: 0 <= i < lead ==>
           !days[i].isCurrentMonth
           && ToCivil(days[i].date) == Civil(prev.year, prev.month, DaysInMonth(prev.year, prev.month) - lead + i + 1)
  {
    var y, m := ShownYear(current), MonthOf(current);
    var prev := Normalize(y, m - 1);
    var first, lead := MonthStart(current), LeadingCount(current);
    var len := DaysInMonth(prev.year, prev.month);
    assert GridShape(days, first, lead, MonthLength(current));
    assert 0 <= lead < 7 by { SundayOnOrBefore(first); }
    PrevMonthStart(y, m);
    var prevFirst := MakeDay(prev.year, prev.month, 1);
    assert first == prevFirst + len;
    forall i | 0 <= i < lead
      ensures ToCivil(days[i].date) == Civil(prev.year, prev.month, len - lead + i + 1)
    {
      OffsetFromMonthStart(days[i].date, prev.year, prev.month, len - lead + i + 1);
    }
  }

  /** The cells flagged current are days 1..length of the shown month in order. The cell at
      `lead + day - 1` is the reference date's day of the shown month, which is `current` itself
      unless its year is 0..99. For 29 February of year 0 it is 1 March 1900, a trailing filler,
      since 1900 is not a leap year. */
  lemma MonthGridCurrentDays(current: int, days: seq<Cell>)
    requires IsMonthGrid(current, days)
    ensures var y, c := ShownYear(current), ToCivil(current);
      var lead := LeadingCount(current);
      && (forall i :: 0 <= i < 42 && days[i].isCurrentMonth ==>
            ToCivil(days[i].date) == Civil(y, c.month, i - lead + 1))
      && 0 <= lead + c.day - 1 < 42
      && days[lead + c.day - 1].date == MakeDay(y, c.month, c.day)
      && (!(0 <= c.year <= 99) ==> days[lead + c.day - 1].date == current)
  {
    var y, c := ShownYear(current), ToCivil(current);
    var first, lead := MonthStart(current), LeadingCount(current);
    var len := DaysInMonth(y, c.month);
    assert GridShape(days, first, lead, len);
    assert 0 <= lead < 7 by { SundayOnOrBefore(first); }
    forall i | 0 <= i < 42 && days[i].isCurrentMonth
      ensures ToCivil(days[i].date) == Civil(y, c.month, i - lead + 1)
    {
      OffsetFromMonthStart(days[i].date, y, c.month, i - lead + 1);
    }
    MakeDayShift(y, c.month, c.day);
  }

  /** A reference date in a year 0..99 shows the same grid as the same month 1900 years on. */
  lemma MonthGridEarlyYear(a: int, b: int, days: seq<Cell>)
    requires 0 <= YearOf(a) <= 99 && YearOf(b) == 1900 + YearOf(a) && MonthOf(a) == MonthOf(b)
    ensures IsMonthGrid(a, days) <==> IsMonthGrid(b, days)
  {
    assert ShownYear(a) == ShownYear(b);
  }

  /** The trailing fillers are days 1, 2, ... of the month after the shown one (January of the next
      year after December), flagged not-current; there are always at least five of them. */
  lemma MonthGridTrailingFillers(current: int, days: seq<Cell>)
    requires IsMonthGrid(current, days)
    ensures var y, m := ShownYear(current), MonthOf(current);
      var next := Normalize(y, m + 1);
      var lead := LeadingCount(current);
      var len := DaysInMonth(y, m);
      && 42 - lead - len >= 5
      && next == (if m == 11 then YearMonth(y + 1, 0) else YearMonth(y, m + 1))
      && forall i :: lead + len <= i < 42 ==>
           !days[i].isCurrentMonth && ToCivil(days[i].date) == Civil(next.year, next.month, i - lead - len + 1)
  {
    var y, m := ShownYear(current), MonthOf(current);
    var first, lead, len := MonthStart(current), LeadingCount(current), MonthLength(current);
    SundayOnOrBefore(first);
    NormalizeNext(y, m);
    NextMonthFirst(y, m);
    TrailingCells(days, first - lead, lead, len, Normalize(y, m + 1));
  }

  /** Cells from `lead + len` on, counted from the first of month `next`, are its days 1, 2, ... */
  lemma TrailingCells(days: seq<Cell>, start: int, lead: int, len: int, next: YearMonth)
    requires 0 <= lead && 28 <= len && 0 <= next.month < 12
    requires start == MakeDay(next.year, next.month, 1) - lead - len
    requires |days| == 42 && forall i :: 0 <= i < |days| ==> days[i].date == start + i
    ensures forall i :: lead + len <= i < 42 ==>
      ToCivil(days[i].date) == Civil(next.year, next.month, i - lead - len + 1)
  {
    forall i | lead + len <= i < 42
      ensures ToCivil(days[i].date) == Civil(next.year, next.month, i - lead - len + 1)
    {
      OffsetFromMonthStart(days[i].date, next.year, next.month, i - lead - len + 1);
    }
  }

  // ---------------------------------------------------------------------------------------------
  // Events of a day

  /** The view's day comparison: same date, month and full year. */
  predicate SameCivilDay(a: int, b: int) {
    DateOf(a) == DateOf(b) && MonthOf(a) == MonthOf(b) && YearOf(a) == YearOf(b)
  }

  function StartsOn(date: int): CalendarEvent -> bool {
    (e: CalendarEvent) => SameCivilDay(e.startTime.day, date)
  }

  /** `getEventsForDate`: the events starting on the civil day `date`, in input order. */
  function EventsForDate(events: seq<CalendarEvent>, date: int): (r: seq<CalendarEvent>)
    ensures forall i :: 0 <= i < |r| ==> r[i].startTime.day == date
    ensures forall e :: multiset(r)[e] == if e.startTime.day == date then multiset(events)[e] else 0
    ensures r == [] <==> forall e :: e in events ==> e.startTime.day != date
  {
    SameCivilDayIsSameDay(date);
    var r := Filter(events, StartsOn(date));
    FilterCount(events, StartsOn(date));
    assert forall e :: e in r <==> multiset(r)[e] > 0;
    r
  }

  lemma SameCivilDayIsSameDay(date: int)
    ensures forall t :: SameCivilDay(t, date) <==> t == date
  {
    forall t ensures SameCivilDay(t, date) <==> t == date {
      SameCivilDayIff(t, date);
    }
  }

  /** The lookup keeps input order: the events of a day in `a + b` are those from `a`, then those
      from `b`. */
  lemma EventsForDateConcat(a: seq<CalendarEvent>, b: seq<CalendarEvent>, date: int)
    ensures EventsForDate(a + b, date) == EventsForDate(a, date) + EventsForDate(b, date)
  {
    FilterConcat(a, b, StartsOn(date));
  }

  // ---------------------------------------------------------------------------------------------
  // Highlighting

  /** The month view's "today" test: date, month and year all agree, which is the same day. The
      mobile grid's `toDateString()` comparison for "today" and "selected" is the same test. */
  predicate IsToday(day: int, now: int): (r: bool)
    ensures r <==> day == now
  {
    SameCivilDayIff(day, now);
    SameCivilDay(day, now)
  }

  /** The week view's "today" and "selected" tests as written: date and month only, year ignored.
      The reference day is always highlighted, and within its year no other day is. */
  predicate IsTodayInWeekView(day: int, now: int): (r: bool)
    ensures day == now ==> r
    ensures r && YearOf(day) == YearOf(now) ==> day == now
  {
    SameCivilDayIff(day, now);
    DateOf(day) == DateOf(now) && MonthOf(day) == MonthOf(now)
  }

  /** The month view's test recognises exactly the reference day. */
  lemma IsTodayExactly(day: int, now: int)
    ensures IsToday(day, now) <==> day == now
  {
    SameCivilDayIff(day, now);
  }

  /** The week view's test also flags the same date in the following year: with the reference day
      on day `d` of month `m` of year `y`, that day a year later is highlighted too although it is
      a different day. */
  lemma WeekViewTodayIgnoresYear(y: int, m: int, d: int)
    requires ValidDate(Civil(y, m, d)) && ValidDate(Civil(y + 1, m, d))
    ensures IsTodayInWeekView(MakeDay(y + 1, m, d), MakeDay(y, m, d))
    ensures MakeDay(y + 1, m, d) != MakeDay(y, m, d)
    ensures !IsToday(MakeDay(y + 1, m, d), MakeDay(y, m, d))
  {
    CivilRoundTrip(Civil(y + 1, m, d));
    CivilRoundTrip(Civil(y, m, d));
  }

  /** The view's fixed "today" is 10 January 2026; 10 January 2027 is highlighted as well. */
  lemma WeekViewTodayIn2027()
    ensures IsTodayInWeekView(MakeDay(2027, 0, 10), MakeDay(2026, 0, 10))
    ensures !IsToday(MakeDay(2027, 0, 10), MakeDay(2026, 0, 10))
  {
    WeekViewTodayIgnoresYear(2026, 0, 10);
  }
}
