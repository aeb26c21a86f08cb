/** The application's starting state, worked through: the fixture events of 10 January 2026, the
    week and month shown first, the shared stack, and month navigation across a year boundary. */
module Scenarios {
  import opened Types
  import opened CivilDate
  import opened MockData
  import opened CalendarGrid
  import opened App

  /** 1 January 2026 is day 20454 after the epoch. */
  lemma StartOf2026()
    ensures DayFromYear(2026) == 20454
  {
    DayFromYearClosedForm(2026);
  }

  /** The fixture events start on 10, 10, 11, 10 and 12 January 2026. */
  lemma FixtureDays()
    ensures E1.startTime.day == MakeDay(2026, 0, 10)
    ensures E2.startTime.day == MakeDay(2026, 0, 10)
    ensures E4.startTime.day == MakeDay(2026, 0, 10)
    ensures E3.startTime.day == MakeDay(2026, 0, 10) + 1
    ensures E5.startTime.day == MakeDay(2026, 0, 10) + 2
  {
    MakeDayShift(2026, 0, 10);
    MakeDayShift(2026, 0, 11);
    MakeDayShift(2026, 0, 12);
  }

  /** The cell of 10 January 2026 lists the first, second and fourth fixture events. */
  lemma EventsOfJanuary10()
    ensures var r := EventsForDate(MockEvents, MakeDay(2026, 0, 10));
      E1 in r && E2 in r && E4 in r && E3 !in r && E5 !in r
  {
    FixtureDays();
    var r := EventsForDate(MockEvents, MakeDay(2026, 0, 10));
    assert multiset(r)[E1] > 0;
    assert multiset(r)[E2] > 0;
    assert multiset(r)[E4] > 0;
    assert multiset(r)[E3] == 0;
    assert multiset(r)[E5] == 0;
  }

  /** The shared stack of the fixtures holds the second, third and fourth events. */
  lemma SharedFixtures()
    ensures var r := FilteredEvents(MockEvents, SharedOnly);
      E2 in r && E3 in r && E4 in r && E1 !in r && E5 !in r
  {
    var r := FilteredEvents(MockEvents, SharedOnly);
    assert multiset(r)[E2] > 0;
    assert multiset(r)[E3] > 0;
    assert multiset(r)[E4] > 0;
    assert multiset(r)[E1] == 0;
    assert multiset(r)[E5] == 0;
  }

  /** 10 January 2026 is a Saturday, so the first week shown runs from Sunday 4 January. */
  lemma FirstWeek()
    ensures Weekday(MakeDay(2026, 0, 10)) == 6
    ensures WeekDays(MakeDay(2026, 0, 10))[0] == MakeDay(2026, 0, 4)
    ensures WeekDays(MakeDay(2026, 0, 10))[6] == MakeDay(2026, 0, 10)
  {
    StartOf2026();
    MakeDayInRange(2026, 0, 10);
    MakeDayInRange(2026, 0, 4);
    assert MakeDay(2026, 0, 10) == 20463;
    assert MakeDay(2026, 0, 4) == 20457;
  }

  /** 1 January 2026 is a Thursday. */
  lemma NewYear2026Weekday()
    ensures Weekday(MakeDay(2026, 0, 1)) == 4
  {
    StartOf2026();
    MakeDayInRange(2026, 0, 1);
    assert MakeDay(2026, 0, 1) == 20454;
  }

  /** 28 December 2025 is four days before 1 January 2026. */
  lemma FourDaysBefore2026()
    ensures MakeDay(2025, 11, 28) == MakeDay(2026, 0, 1) - 4
  {
    NextMonthOffset(2025, 11, 1);
    MakeDayShift(2025, 11, 28);
    assert DaysInMonth(2025, 11) == 31;
  }

  /** A date in January 2026 lies in a month that starts on Thursday the 1st and has 31 days. */
  lemma JanuaryOf2026(current: int)
    requires YearOf(current) == 2026 && MonthOf(current) == 0
    ensures MonthStart(current) == MakeDay(2026, 0, 1)
    ensures LeadingCount(current) == 4
    ensures MonthLength(current) == 31
  {
    NewYear2026Weekday();
  }

  /** The first month grid, for 10 January 2026, opens with four days of December 2025, from the
      28th, and January's first day is its fifth cell. */
  lemma FirstMonthGrid(current: int, days: seq<Cell>)
    requires ToCivil(current) == Civil(2026, 0, 10) && IsMonthGrid(current, days)
    ensures days[0].date == MakeDay(2025, 11, 28) && !days[0].isCurrentMonth
    ensures days[4].date == MakeDay(2026, 0, 1) && days[4].isCurrentMonth
  {
    JanuaryOf2026(current);
    FourDaysBefore2026();
    GridCorner(days, MonthStart(current), LeadingCount(current), MonthLength(current));
  }

  /** In a grid with four leading fillers, cell 0 is four days before the first and cell 4 is the
      first, flagged current. */
  lemma GridCorner(days: seq<Cell>, first: int, lead: int, len: int)
    requires GridShape(days, first, lead, len) && lead == 4 && len == 31
    ensures days[0].date == first - 4 && !days[0].isCurrentMonth
    ensures days[4].date == first && days[4].isCurrentMonth
  {
  }

  /** Stepped back to 15 March of year 50, the month view shows March 1950: its current cells are
      the days of March 1950. */
  lemma YearFiftyShows1950(current: int, days: seq<Cell>)
    requires ToCivil(current) == Civil(50, 2, 15) && IsMonthGrid(current, days)
    ensures forall i :: 0 <= i < 42 && days[i].isCurrentMonth ==>
      ToCivil(days[i].date) == Civil(1950, 2, i - LeadingCount(current) + 1)
  {
    MonthGridCurrentDays(current, days);
  }

  /** For 29 February of a leap year 0..99 whose 1900s counterpart is a common year, the month view
      shows a February of 28 days, so the cell at the reference date's position is 1 March, a
      trailing filler. Year 0 is such a year: it is a leap year and 1900 is not. */
  lemma LeapDayOfYearZero(current: int, days: seq<Cell>)
    requires 0 <= YearOf(current) <= 99 && MonthOf(current) == 1 && DateOf(current) == 29
    requires !IsLeap(1900 + YearOf(current)) && IsMonthGrid(current, days)
    ensures IsLeap(0) && !IsLeap(1900)
    ensures MonthLength(current) == 28
    ensures !days[LeadingCount(current) + 28].isCurrentMonth
    ensures ToCivil(days[LeadingCount(current) + 28].date) == Civil(1900 + YearOf(current), 2, 1)
  {
    MonthGridTrailingFillers(current, days);
  }

  /** A month step from 10 December 2025 shows January 2026, and a step back returns. */
  lemma AcrossTheYear()
    ensures ToCivil(ChangeDateRange(MakeDay(2025, 11, 10), MonthView, 1)) == Civil(2026, 0, 10)
    ensures ChangeDateRange(ChangeDateRange(MakeDay(2025, 11, 10), MonthView, 1), MonthView, -1)
         == MakeDay(2025, 11, 10)
  {
    var t := MakeDay(2025, 11, 10);
    CivilRoundTrip(Civil(2025, 11, 10));
    assert ToCivil(t) == Civil(2025, 11, 10);
    assert DateOf(t) == 10 && MonthOf(t) == 11 && YearOf(t) == 2025;
    assert Normalize(2025, 12) == YearMonth(2026, 0);
    MonthStepKeepsDay(t, 1, 2025, 11, 10);
    MonthStepRoundTrip(t, 1);
  }

  /** February 2024 has 29 days; February 2026 has 28. */
  lemma FebruaryLengths()
    ensures DateOf(MakeDay(2024, 2, 0)) == 29
    ensures DateOf(MakeDay(2026, 2, 0)) == 28
  {
    assert IsLeap(2024);
    FebruaryLength(2024);
    assert !IsLeap(2026);
    FebruaryLength(2026);
  }
}
