# Bridge calendar core in Dafny

Bridge is a group calendar. Members of a group share a calendar of events, and each event is either
shared with the group or kept personal. The core modelled here has five parts:

- the calendar view's date engine: the seven days of the week view, the fixed 42-cell month grid
  with filler days from the neighbouring months, the lookup of a day's events, and the "today"
  highlight;
- the application shell's state updates: toggling an event's sharing, adding an event drafted by
  the assistant, stepping the shown date by months or weeks, jumping with the month picker,
  changing the active member's avatar, and filtering to all, shared or personal events;
- the member list: who may invite and remove, how an invited member is built, and how a member is
  removed;
- the record types;
- the fixture data the application starts with.

Dates are whole days. A date is an integer day number, with day 0 being 1 January 1970. Months are
numbered 0 to 11, as `getMonth` numbers them. `CivilDate` defines the day arithmetic of ECMA-262,
section 21.4.1 (`MakeDay`, and `YearFromTime`/`MonthFromTime`/`DateFromTime` as `ToCivil`). On top
of that it defines the calls the application makes:

- `setDate` (section 21.4.4.20);
- `setMonth` (section 21.4.4.25);
- `new Date(y, m, d)` (section 21.4.2.1), which maps the years 0..99 to 1900..1999;
- `getDay`.

Every out-of-range month or day is normalised as the standard requires. This is what the
source's `new Date(year, month + 1, 0)` and `new Date(year, month, 1 - k)` idioms rely on. The
month view builds every cell with `new Date(year, month, …)` from the reference date's
`getFullYear()`, so for a reference date in the years 0..99 it shows the month 1900 years on
(`CalendarGrid.ShownYear`).

There are eight modules, one per file:

- `Collections`: `Option`, and an order-keeping `Filter` with its algebra (concatenation,
  commutation, partition).
- `Types`: the records of `types.ts`.
- `MockData`: the fixtures of `services/mockData.ts`.
- `CivilDate`: the day arithmetic described above.
- `CalendarGrid`: the calendar view's date engine.
- `MemberManager`: the member list.
- `App`: the application shell's state updates.
- `Scenarios`: the starting state worked through. The reference date is 10 January 2026.

Randomness is modelled as parameters:

- `Math.random()` used as a number in [0, 1) becomes a `real` draw;
- a random id suffix becomes a string parameter.

The `confirm()` dialog becomes a boolean parameter.

## Model

| member | source | states |
|---|---|---|
| CivilDate.ToCivil | components/CalendarGrid.tsx:42-43 | `getFullYear`/`getMonth`/`getDate` of a day: a valid calendar date that `MakeDay` maps back to the same day |
| CivilDate.CivilRoundTrip | components/CalendarGrid.tsx:61 | `new Date(year, month, i)` for a valid date reads back as exactly that year, month and date |
| CivilDate.SameCivilDayIff | components/CalendarGrid.tsx:81-83 | same date, month and full year holds exactly when two days are the same day |
| CivilDate.MonthLengthAsWritten | components/CalendarGrid.tsx:45 | `new Date(year, month + 1, 0).getDate()` is the length of `month`, December included |
| CivilDate.FebruaryLength | components/CalendarGrid.tsx:45 | for February, that idiom gives 29 in leap years and 28 otherwise |
| CivilDate.DayZeroIsLastDay | components/CalendarGrid.tsx:45 | day 0 of the next month is the last day of the month |
| CivilDate.MakeDayOverflow | components/CalendarGrid.tsx:70 | day 1..31 of any month index lands on that day of the normalised month when it has one, else the excess days into the month after |
| CivilDate.SetDate | components/CalendarGrid.tsx:31 | `setDate(d)` moves a date by `d - getDate()` days, whatever the sign or size of `d` |
| CivilDate.SetMonth | App.tsx:75 | `setMonth(m)` keeps the day of the month, overflowing into the month after a month that is too short |
| CivilDate.NewDate | App.tsx:214 | `new Date(y, m, d)` maps years 0..99 to 1900..1999 and lands day `d` as `setMonth` does |
| CivilDate.SundayOnOrBefore | components/CalendarGrid.tsx:30-31 | `getDay` is 0..6, and stepping back by it reaches a Sunday |
| CivilDate.WeekdayAfterWeeks | App.tsx:77 | moving by whole weeks keeps `getDay` |
| CalendarGrid.DaysFrom | components/CalendarGrid.tsx:33-37 | the i-th copy moved by `setDate(start.getDate() + i)` is the i-th consecutive day from the start |
| CalendarGrid.StartOfWeek | components/CalendarGrid.tsx:29-31 | the start of the week is `getDay` days back and is a Sunday |
| CalendarGrid.WeekDays | components/CalendarGrid.tsx:28-38 | seven consecutive days from a Sunday, with the reference date at position `getDay()` |
| CalendarGrid.WeekDaysSameWeek | components/CalendarGrid.tsx:28-38 | two reference dates give the same week exactly when they share the same preceding Sunday |
| CalendarGrid.WeekDaysStable | components/CalendarGrid.tsx:28-38 | taking any of the seven shown days as the reference date shows the same week |
| CalendarGrid.CountDaysInMonth | components/CalendarGrid.tsx:45 | the view's day-0 idiom computes the length of the month in the constructor's year (1900 + year for years 0..99) |
| CalendarGrid.CalendarDays | components/CalendarGrid.tsx:41-76 | the three loops build 42 consecutive days that start `getDay()` of the 1st before the 1st, with exactly the month's own days flagged current; the month is the one `new Date(year, month, …)` names, in 1900..1999 for a year 0..99 |
| CalendarGrid.MonthDay | components/CalendarGrid.tsx:61 | `new Date(year, month, d)` lands `d - 1` days after the first of the month in the constructor's year, for any `d`, including the 0 and negative days of the leading fillers |
| CalendarGrid.MonthCells | components/CalendarGrid.tsx:44-75 | from a year and month, the leading fillers, the month's days and the trailing fillers make up 42 consecutive days starting `getDay()` of the 1st before the 1st |
| CalendarGrid.PreviousMonthFillers | components/CalendarGrid.tsx:50-56 | the first loop builds exactly `firstDayOfMonth` cells, the days just before the 1st in ascending order, none flagged current |
| CalendarGrid.AppendMonthDays | components/CalendarGrid.tsx:58-64 | the second loop appends the month's days 1..`daysInMonth` in order, flagged current, and leaves the fillers before them unchanged |
| CalendarGrid.AppendNextMonthFillers | components/CalendarGrid.tsx:66-73 | the third loop fills up to exactly 42 cells with the days that follow the month, none flagged current, and leaves the cells before them unchanged |
| CalendarGrid.MonthGridUnique | components/CalendarGrid.tsx:41-76 | the grid for a reference date is unique |
| CalendarGrid.MonthGridSameMonth | components/CalendarGrid.tsx:41-43 | any two reference dates in the same year and month give the same grid |
| CalendarGrid.MonthGridEarlyYear | components/CalendarGrid.tsx:42-44 | a reference date in a year 0..99 gives the same grid as the same month 1900 years on |
| CalendarGrid.MonthGridConsecutive | components/CalendarGrid.tsx:41-76 | the grid starts on a Sunday, each cell is the day after the one before, and the cells strictly increase |
| CalendarGrid.MonthGridLeadingFillers | components/CalendarGrid.tsx:50-56 | 0..6 leading fillers, none when the 1st is a Sunday, and they are the last days of the month before the shown one (December for January), not flagged current |
| CalendarGrid.MonthGridCurrentDays | components/CalendarGrid.tsx:58-64 | each current cell is day `i - lead + 1` of the shown month; the cell at position `lead + day - 1` is the reference date's day of the shown month, which is the reference date itself unless its year is 0..99 (for 29 February of year 0 it is 1 March 1900, a trailing filler) |
| CalendarGrid.MonthGridTrailingFillers | components/CalendarGrid.tsx:66-73 | at least five trailing fillers; they are days 1, 2, … of the month after the shown one (January of the next year after December), not flagged current |
| CalendarGrid.EventsForDate | components/CalendarGrid.tsx:78-85 | exactly the events starting on the day, each as often as in the input; empty exactly when no event starts that day |
| CalendarGrid.SameCivilDayIsSameDay | components/CalendarGrid.tsx:80-83 | the date/month/year comparison picks exactly the events whose start day is the day |
| CalendarGrid.EventsForDateConcat | components/CalendarGrid.tsx:78-85 | the lookup keeps list order: on `a + b` it gives the matches from `a`, then those from `b` |
| CalendarGrid.IsToday | components/CalendarGrid.tsx:183 | the month view's date, month and year comparison holds exactly on the reference day; the mobile grid's `toDateString()` tests for today and selected at lines 213-214 are the same comparison |
| CalendarGrid.IsTodayInWeekView | components/CalendarGrid.tsx:123-124 | the week view's date-and-month comparison (also at line 92) always highlights the reference day, and within its year no other day |
| CalendarGrid.IsTodayExactly | components/CalendarGrid.tsx:183 | the month view's full comparison highlights exactly the reference day |
| CalendarGrid.WeekViewTodayIgnoresYear | components/CalendarGrid.tsx:92 | the week view's date-and-month comparison also highlights the same date a year later, a different day |
| CalendarGrid.WeekViewTodayIn2027 | components/CalendarGrid.tsx:123-124 | with "now" at 10 January 2026, 10 January 2027 is highlighted as today and selected |
| MemberManager.RandomKeyIndex | components/MemberManager.tsx:30-31 | `Math.floor(Math.random() * 6)` is a valid index into the six illustration keys, and the floor of the scaled draw |
| MemberManager.NewMember | components/MemberManager.tsx:33-42 | an invited member has id `user-` plus the suffix, the entered name and e-mail, role member, no base locations, and one of the six illustrations with its URL |
| MemberManager.AddMember | components/MemberManager.tsx:43 | the new member is appended and the existing members stay in order |
| MemberManager.Invite | components/MemberManager.tsx:63 | an invitation happens exactly when the current member is the owner; it appends one plain member |
| MemberManager.IsOwner | components/MemberManager.tsx:23 | the owner role is the gate: `Invite` and `RemoveAction` state what it opens |
| MemberManager.CanRemove | components/MemberManager.tsx:131 | the remove button is offered only to an owner, and never on the owner's own card |
| MemberManager.RemoveMember | components/MemberManager.tsx:49-53 | once confirmed, no member with the id remains and every other member stays as often as before; without confirmation, nothing changes |
| MemberManager.RemoveAction | components/MemberManager.tsx:131 | removal is offered exactly to an owner on another member's card |
| MemberManager.RemovalKeepsCurrentUser | components/MemberManager.tsx:131 | a removal never takes away the member who performs it |
| MemberManager.RemovalKeepsFirst | components/MemberManager.tsx:51 | the filter keeps order: a first member without the removed id stays first |
| MemberManager.RemoveMemberConcat | components/MemberManager.tsx:51 | the filter keeps order: removing from `a + b` keeps the remaining members of `a`, then those of `b` |
| MemberManager.RemoveMemberIdempotent | components/MemberManager.tsx:51 | removing an id twice is removing it once |
| App.ActiveUser | App.tsx:39 | the member at the index if there is one, else the first member, and none for an empty list; the result is always a member of the list |
| App.MockMembersOwnerFirst | services/mockData.ts:32-33 | the fixture list starts with the owner, who is the active member at index 0 |
| App.InviteKeepsOwnerFirst | App.tsx:38-39 | an invitation by the active member keeps the owner first and active |
| App.RemoveKeepsOwnerFirst | App.tsx:38-39 | a removal by the active member keeps the owner first and active |
| App.ToggleShare | App.tsx:49-54 | the list keeps its length and order; only the shared flag changes, and it flips exactly on the events with the id |
| App.ToggleShareTwice | App.tsx:49-54 | toggling twice restores the list |
| App.ToggleMovesBetweenStacks | App.tsx:49-54 | a toggled event is in the shared stack exactly when it was private before |
| App.AiEvent | App.tsx:57-67 | the new event carries the fresh id, the active member as author, the group id, the assistant's fields and the Bridge provider |
| App.AddAiEvent | App.tsx:68 | the new event goes first and the old events follow unchanged |
| App.AiEventFirstOnItsDay | App.tsx:68 | the new event is listed first among the events of its start day |
| App.AiEventStack | App.tsx:65 | the new event is in the shared stack exactly when marked shared, in the personal stack otherwise |
| App.ChangeDateRange | App.tsx:72-80 | a month step lands as `setMonth(getMonth() + delta)` does; a week step moves exactly `7 * delta` days |
| App.WeekStep | App.tsx:76-77 | a week step keeps the weekday, and the opposite step undoes it |
| App.MonthStepKeepsDay | App.tsx:75-76 | from days 1..28, a month step shows the same day `delta` months on, across year ends too |
| App.MonthStepBack | App.tsx:75-76 | from there, the opposite month step lands back on the starting date |
| App.MonthStepRoundTrip | App.tsx:75-76 | from days 1..28, a month step and its opposite return to the starting day |
| App.MonthStepSkipsFebruary | App.tsx:75 | as written, 31 January of a common year steps to 3 March |
| App.MonthStepSkipsFebruary2026 | App.tsx:75 | in the starting year, 31 January 2026 steps to 3 March 2026 |
| App.ClampedDay | App.tsx:75 | the day in the normalised month, pulled back to the month's last day when the month is shorter |
| App.ClampedMonthStep | App.tsx:72-80 | the corrected month step always shows the month `delta` months on, on the same day when that month has it and on that month's last day otherwise |
| App.ClampedStepFromJanuary31 | App.tsx:75 | the corrected step takes 31 January of a common year to 28 February |
| App.JumpTo | App.tsx:213-216 | the month picker keeps the day of the month, with the same overflow as a month step |
| App.ClampedJumpTo | App.tsx:213-216 | the corrected picker always shows the chosen month and year |
| App.UpdateAvatar | App.tsx:82-92 | only the active member changes: their URL, key and avatar type become the chosen illustration's; every other field and member stays |
| App.UpdateAvatarStable | App.tsx:82-92 | choosing the same illustration again changes nothing, and the owner stays first and keeps their id |
| App.FilteredEvents | App.tsx:94-100 | "all" keeps the list; "shared" keeps exactly the shared events and "private" exactly the others, each as often as before |
| App.FilteredEventsConcat | App.tsx:94-100 | the filter keeps list order: on `a + b` it shows the kept events of `a`, then those of `b` |
| App.SharedPrivatePartition | App.tsx:96-97 | the shared and private stacks together are exactly the list |
| App.FilterThenLookup | App.tsx:94-100 | filtering the stack and looking up a day commute |
| Scenarios.FixtureDays | services/mockData.ts:80-131 | the fixture events start on 10, 10, 11, 10 and 12 January 2026 |
| Scenarios.EventsOfJanuary10 | services/mockData.ts:80-131 | the cell of 10 January 2026 lists events e1, e2 and e4, and not e3 or e5 |
| Scenarios.SharedFixtures | services/mockData.ts:80-131 | the shared stack holds e2, e3 and e4, and not e1 or e5 |
| Scenarios.FirstWeek | App.tsx:41 | 10 January 2026 is a Saturday, and the first week shown runs from Sunday 4 January to 10 January |
| Scenarios.FirstMonthGrid | App.tsx:41 | the first month grid opens on 28 December 2025 (a filler), and 1 January 2026 is its fifth cell |
| Scenarios.YearFiftyShows1950 | components/CalendarGrid.tsx:42-44 | with the reference date 15 March of year 50, the current cells of the month grid are the days of March 1950 |
| Scenarios.LeapDayOfYearZero | components/CalendarGrid.tsx:42-45 | year 0 is a leap year and 1900 is not; for 29 February of such a year the view shows a February of 28 days, and the reference date's position holds 1 March of the 1900s year, a filler |
| Scenarios.AcrossTheYear | App.tsx:75 | a month step from 10 December 2025 shows 10 January 2026, and the step back returns |
| Scenarios.FebruaryLengths | components/CalendarGrid.tsx:45 | the month-length idiom gives 29 days for February 2024 and 28 for February 2026 |

## Left out

- Time values are unbounded day numbers. ECMA-262's TimeClip (in section 21.4.1) turns a time
  value beyond 8.64e15 ms from the epoch into an invalid date (NaN); the model has no invalid
  dates, so a date stepped past about 273,790 years from 1970 is not modelled.
- Time of day and time zones are not modelled. A date is a whole day. Event times keep their
  minute of the day, but only the day is used. The ISO-string round trip of `start_time` is taken
  to keep the local calendar date.
- The assistant's request and reply parsing (`services/aiService.ts`) is not modelled. It is an
  external service; the model starts from the reply's fields.
- The assistant panel, event cards, modals and all rendering are not modelled: they are
  presentation.
- The selected date is not modelled. It is independent state (components/CalendarGrid.tsx:24), set
  once from the reference date and then only by clicking a cell (lines 128 and 220). It drives only
  the selection highlight (lines 123 and 213) and the per-day event list of the mobile view
  (lines 147-152 and 170). No click changes the reference date: the `onDateChange` callback
  received at line 21 is never called.
- `prevMonthLastDay` in `calendarDays` (components/CalendarGrid.tsx:48) is not modelled. It is
  computed but never used.
- The month picker's lists of month names and years are not modelled: `JumpTo` takes any month
  and year.
- The invite form's required-field checks are not modelled. They are browser form validation.
- Member and event ids are not checked for uniqueness. The source draws them at random and never
  checks them. `RemoveMember` removes every member that carries the id.
- `App.UpdateAvatar`: requires the index to be in range. The source writes at `currentUserIdx`,
  which is the constant 0, and `OwnerFirst` keeps the list non-empty. A write past the end of the
  array is not modelled.
- `App.UpdateAvatar`: the key is an `Animal` value rather than a free string. The picker offers
  only the six illustration keys.
- `App.AiEvent`: takes the author directly. The source reads `activeUser.id`, which fails on an
  empty member list; `ActiveUser` returns `None` there.
- The `Group` record is reduced to the fixture group's id (`MockData.GroupId`), the only field the
  core reads. `AuthState` (types.ts:48-52) is not modelled: nothing in the core uses it.
- A member's `avatar_illustration` is an `Animal` value rather than a free string. Every key the
  source stores comes from the six illustration keys.
- A month grid that rounds up to whole weeks (five rows when the month fits) is not modelled.
  Another revision of the view builds it that way; the view modelled here always builds 42 cells,
  and `CalendarGrid.CalendarDays` follows that code.

## Findings

| source | as written | input that shows it | evidently intended | confidence | as-written member | corrected member |
|---|---|---|---|---|---|---|
| components/CalendarGrid.tsx:92 | the week view's "today" and "selected" tests compare only date and month (also lines 123-124) | with "now" at 10 January 2026, the week of 10 January 2027 highlights that day as today | today is the same date, month and year, as the month view tests at line 183 | not executed | CalendarGrid.WeekViewTodayIgnoresYear | CalendarGrid.IsTodayExactly |
| App.tsx:75 | a month step calls `setMonth(getMonth() + delta)` and keeps the day of the month; the month picker at line 214 does the same | 31 January 2026, next month: shows March 2026 (3 March) and skips February | the month `delta` months on, on the same day or that month's last day | not executed | App.MonthStepSkipsFebruary | App.ClampedMonthStep |
