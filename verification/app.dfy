/** The application shell's state updates: the active member, sharing toggles, events created by
    the assistant, date navigation, the avatar picker and the shared/personal filter. */
module App {
  import opened Collections
  import opened Types
  import opened CivilDate
  import opened MockData
  import opened MemberManager
  import CalendarGrid

  // ---------------------------------------------------------------------------------------------
  // The active member

  /** `members[currentUserIdx] || members[0]`: the member at the index when there is one, the first
      member otherwise, and nothing for an empty list. */
  function ActiveUser(members: seq<UserProfile>, idx: int): (r: Option<UserProfile>)
    ensures r.Some? <==> |members| > 0
    ensures r.Some? ==> r.value in members
    ensures 0 <= idx < |members| ==> r == Some(members[idx])
    ensures !(0 <= idx < |members|) && |members| > 0 ==> r == Some(members[0])
  {
    if 0 <= idx < |members| then Some(members[idx])
    else if |members| > 0 then Some(members[0])
    else None
  }

  /** The member list the shell keeps: never empty, with the group owner first. The shell's index
      into it is the constant 0, so the active member is the owner. */
  predicate OwnerFirst(members: seq<UserProfile>) {
    |members| > 0 && IsOwner(members[0])
  }

  lemma MockMembersOwnerFirst()
    ensures OwnerFirst(MockMembers)
    ensures ActiveUser(MockMembers, 0) == Some(MockUser)
  {
  }

  /** An invitation by the active member keeps the owner first. */
  lemma InviteKeepsOwnerFirst(members: seq<UserProfile>, name: string, email: string, idSuffix: string,
                              draw: real)
    requires OwnerFirst(members) && 0.0 <= draw < 1.0
    ensures var r := Invite(members, ActiveUser(members, 0).value, name, email, idSuffix, draw);
      r.Some? && OwnerFirst(r.value) && ActiveUser(r.value, 0) == ActiveUser(members, 0)
  {
    var r := Invite(members, members[0], name, email, idSuffix, draw).value;
    assert r[0] == r[..|members|][0];
  }

  /** A removal by the active member, confirmed or not, keeps the owner first and active. */
  lemma RemoveKeepsOwnerFirst(members: seq<UserProfile>, target: UserProfile, confirmed: bool)
    requires OwnerFirst(members)
    ensures var r := RemoveAction(members, ActiveUser(members, 0).value, target, confirmed);
      r.Some? ==> OwnerFirst(r.value) && ActiveUser(r.value, 0) == ActiveUser(members, 0)
  {
    if target.id != members[0].id {
      RemovalKeepsFirst(members, target.id, confirmed);
    }
  }

  // ---------------------------------------------------------------------------------------------
  // Sharing

  /** One event under `handleToggleShare`'s map callback. */
  function Toggled(e: CalendarEvent, id: string): CalendarEvent {
    if e.id == id then e.(isShared := !e.isShared) else e
  }

  /** `handleToggleShare`: the events carrying the id flip their shared flag; nothing else changes. */
  function ToggleShare(events: seq<CalendarEvent>, id: string): (r: seq<CalendarEvent>)
    ensures |r| == |events|
    ensures forall i :: 0 <= i < |r| ==> r[i] == events[i].(isShared := r[i].isShared)
    ensures forall i :: 0 <= i < |r| ==> (r[i].isShared != events[i].isShared <==> events[i].id == id)
  {
    if events == [] then []
    else
      var rest := ToggleShare(events[1..], id);
      var r := [Toggled(events[0], id)] + rest;
      assert forall i :: 1 <= i < |r| ==> r[i] == rest[i - 1] && events[i] == events[1..][i - 1];
      r
  }

  /** Toggling the same event twice restores the list. */
  lemma ToggleShareTwice(events: seq<CalendarEvent>, id: string)
    ensures ToggleShare(ToggleShare(events, id), id) == events
  {
    var r := ToggleShare(ToggleShare(events, id), id);
    assert forall i :: 0 <= i < |r| ==> r[i] == events[i];
  }

  // ---------------------------------------------------------------------------------------------
  // Events from the assistant

  /** The fields the assistant's reply supplies. */
  datatype AiDraft = AiDraft(
    title: string,
    description: Option<string>,
    startTime: DateTime,
    endTime: DateTime,
    isShared: bool)

  /** The event `handleAIEventCreated` builds: a fresh id, the active member as author, the
      group's id, the assistant's fields and the Bridge provider. */
  function AiEvent(draft: AiDraft, author: UserProfile, freshId: string): (e: CalendarEvent)
    ensures e.id == freshId && e.userId == author.id && e.groupId == GroupId
    ensures e.provider == Bridge && e.externalProviderId == None && e.location == None
    ensures e.title == draft.title && e.description == draft.description
    ensures e.startTime == draft.startTime && e.endTime == draft.endTime && e.isShared == draft.isShared
  {
    CalendarEvent(freshId, author.id, GroupId, None, draft.title, draft.description,
                  draft.startTime, draft.endTime, draft.isShared, None, Bridge)
  }

  /** `handleAIEventCreated`: the new event goes in front of the existing ones. */
  function AddAiEvent(events: seq<CalendarEvent>, draft: AiDraft, author: UserProfile, freshId: string)
    : (r: seq<CalendarEvent>)
    ensures |r| == |events| + 1 && r[0] == AiEvent(draft, author, freshId) && r[1..] == events
  {
    [AiEvent(draft, author, freshId)] + events
  }

  /** The new event is listed first among the events of the day it starts on. */
  lemma AiEventFirstOnItsDay(events: seq<CalendarEvent>, draft: AiDraft, author: UserProfile, freshId: string)
    ensures var day := CalendarGrid.EventsForDate(AddAiEvent(events, draft, author, freshId), draft.startTime.day);
      |day| > 0 && day[0] == AiEvent(draft, author, freshId)
  {
    var e := AiEvent(draft, author, freshId);
    CalendarGrid.EventsForDateConcat([e], events, draft.startTime.day);
    var single := CalendarGrid.EventsForDate([e], draft.startTime.day);
    assert e in single by {
      assert multiset(single)[e] == 1;
    }
    assert |single| == 1;
  }

  /** The new event shows in the shared stack exactly when the assistant marked it shared, and in
      the personal stack otherwise. */
  lemma AiEventStack(events: seq<CalendarEvent>, draft: AiDraft, author: UserProfile, freshId: string)
    ensures var r := AddAiEvent(events, draft, author, freshId);
      AiEvent(draft, author, freshId) in FilteredEvents(r, SharedOnly) <==> draft.isShared
    ensures var r := AddAiEvent(events, draft, author, freshId);
      AiEvent(draft, author, freshId) in FilteredEvents(r, PrivateOnly) <==> !draft.isShared
  {
    var r := AddAiEvent(events, draft, author, freshId);
    var e := AiEvent(draft, author, freshId);
    assert e in r;
    assert multiset(r)[e] > 0;
  }

  // ---------------------------------------------------------------------------------------------
  // Date navigation

  /** `changeDateRange(delta)`: the month view moves by `delta` months with `setMonth`, keeping the
      day of the month (and overflowing when the target month is shorter); the week view moves by
      `delta` weeks with `setDate`. */
  function ChangeDateRange(current: int, view: CalendarViewType, delta: int): (r: int)
    ensures view == MonthView ==> LandsOn(r, YearOf(current), MonthOf(current) + delta, DateOf(current))
    ensures view == WeekView ==> r == current + 7 * delta
  {
    match view
    case MonthView => SetMonth(current, MonthOf(current) + delta)
    case WeekView => SetDate(current, DateOf(current) + delta * 7)
  }

  /** A week step keeps the weekday, and stepping back undoes it. */
  lemma WeekStep(current: int, delta: int)
    ensures Weekday(ChangeDateRange(current, WeekView, delta)) == Weekday(current)
    ensures ChangeDateRange(ChangeDateRange(current, WeekView, delta), WeekView, -delta) == current
  {
    WeekdayAfterWeeks(current, delta);
  }

  /** Two month indices that name the same calendar month normalise alike. */
  lemma NormalizeUnique(a: int, b: int, c: int, d: int)
    requires 12 * a + b == 12 * c + d
    ensures Normalize(a, b) == Normalize(c, d)
  {
  }

  /** From a day that every month has (the 1st to the 28th), a month step shows the month `delta`
      months on, on the same day. */
  lemma MonthStepKeepsDay(current: int, delta: int, y: int, m: int, d: int)
    requires ToCivil(current) == Civil(y, m, d) && d <= 28
    ensures var n := Normalize(y, m + delta);
      ToCivil(ChangeDateRange(current, MonthView, delta)) == Civil(n.year, n.month, d)
  {
    var n := Normalize(y, m + delta);
    assert DaysInMonth(n.year, n.month) >= 28;
  }

  /** From such a day, the opposite month step comes back to the starting day. */
  lemma MonthStepRoundTrip(current: int, delta: int)
    requires DateOf(current) <= 28
    ensures ChangeDateRange(ChangeDateRange(current, MonthView, delta), MonthView, -delta) == current
  {
    var c := ToCivil(current);
    var n := Normalize(c.year, c.month + delta);
    var r := ChangeDateRange(current, MonthView, delta);
    assert ToCivil(r) == Civil(n.year, n.month, c.day) by {
      MonthStepKeepsDay(current, delta, c.year, c.month, c.day);
    }
    var back := ChangeDateRange(r, MonthView, -delta);
    assert ToCivil(back) == c by {
      MonthStepBack(r, delta, c.year, c.month, c.day);
    }
    ToCivilInjective(back, current);
  }

  /** The step back from the month `delta` months on lands on the starting date. */
  lemma MonthStepBack(r: int, delta: int, y: int, m: int, d: int)
    requires 0 <= m < 12 && d <= 28
    requires var n := Normalize(y, m + delta); ToCivil(r) == Civil(n.year, n.month, d)
    ensures ToCivil(ChangeDateRange(r, MonthView, -delta)) == Civil(y, m, d)
  {
    var n := Normalize(y, m + delta);
    var b := Normalize(n.year, n.month + -delta);
    assert b == YearMonth(y, m) by {
      NormalizeUnique(n.year, n.month + -delta, y, m);
    }
    MonthStepKeepsDay(r, -delta, n.year, n.month, d);
  }

  /** As written, a month step from 31 January of a common year shows March: `setMonth` keeps
      day 31, which February does not have, and the date overflows to 3 March. */
  lemma MonthStepSkipsFebruary(y: int)
    requires !IsLeap(y)
    ensures ToCivil(ChangeDateRange(MakeDay(y, 0, 31), MonthView, 1)) == Civil(y, 2, 3)
  {
    CivilRoundTrip(Civil(y, 0, 31));
    assert Normalize(y, 1) == YearMonth(y, 1);
    assert Normalize(y, 2) == YearMonth(y, 2);
    assert DaysInMonth(y, 1) == 28;
  }

  /** The application starts in January 2026; from the 31st the next month shown is March 2026. */
  lemma MonthStepSkipsFebruary2026()
    ensures ToCivil(ChangeDateRange(MakeDay(2026, 0, 31), MonthView, 1)) == Civil(2026, 2, 3)
  {
    MonthStepSkipsFebruary(2026);
  }

  /** Day `d` of the month `m` of year `y` stands for, pulled back to the month's last day when the
      month is shorter. */
  function ClampedDay(y: int, m: int, d: int): (r: int)
    requires 1 <= d
    ensures var n := Normalize(y, m); var len := DaysInMonth(n.year, n.month);
      ToCivil(r) == Civil(n.year, n.month, if d <= len then d else len)
  {
    var n := Normalize(y, m);
    var len := DaysInMonth(n.year, n.month);
    var day := if d <= len then d else len;
    CivilRoundTrip(Civil(n.year, n.month, day));
    MakeDay(n.year, n.month, day)
  }

  /** The month step a month view needs: always the month `delta` months on, on the same day when
      it exists and on that month's last day otherwise. */
  function ClampedMonthStep(current: int, delta: int): (r: int)
    ensures var n := Normalize(YearOf(current), MonthOf(current) + delta);
      YearOf(r) == n.year && MonthOf(r) == n.month
    ensures var n := Normalize(YearOf(current), MonthOf(current) + delta);
      var len := DaysInMonth(n.year, n.month);
      DateOf(r) == if DateOf(current) <= len then DateOf(current) else len
    ensures DateOf(r) == DateOf(current) || (DateOf(r) < DateOf(current) && DateOf(r) >= 28)
  {
    ClampedDay(YearOf(current), MonthOf(current) + delta, DateOf(current))
  }

  /** With the clamped step, 31 January of a common year moves to 28 February. */
  lemma ClampedStepFromJanuary31(y: int)
    requires !IsLeap(y)
    ensures ToCivil(ClampedMonthStep(MakeDay(y, 0, 31), 1)) == Civil(y, 1, 28)
  {
    CivilRoundTrip(Civil(y, 0, 31));
    assert Normalize(y, 1) == YearMonth(y, 1);
    assert DaysInMonth(y, 1) == 28;
  }

  /** The month picker's `new Date(y, m, current.getDate())`: day of the month kept, with the same
      overflow as a month step. */
  function JumpTo(current: int, m: int, y: int): (r: int)
    ensures LandsOn(r, if 0 <= y <= 99 then 1900 + y else y, m, DateOf(current))
  {
    NewDate(y, m, DateOf(current))
  }

  /** The picker as a month picker needs it: always the chosen month. */
  function ClampedJumpTo(current: int, m: int, y: int): (r: int)
    ensures var n := Normalize(if 0 <= y <= 99 then 1900 + y else y, m);
      YearOf(r) == n.year && MonthOf(r) == n.month
    ensures var n := Normalize(if 0 <= y <= 99 then 1900 + y else y, m);
      var len := DaysInMonth(n.year, n.month);
      DateOf(r) == if DateOf(current) <= len then DateOf(current) else len
  {
    ClampedDay(if 0 <= y <= 99 then 1900 + y else y, m, DateOf(current))
  }

  // ---------------------------------------------------------------------------------------------
  // Avatar

  /** `updateAvatar(key)`: the active member's avatar becomes the chosen illustration. */
  function UpdateAvatar(members: seq<UserProfile>, idx: int, key: Animal): (r: seq<UserProfile>)
    requires 0 <= idx < |members|
    ensures |r| == |members|
    ensures forall i :: 0 <= i < |r| && i != idx ==> r[i] == members[i]
    ensures r[idx].avatarUrl == IllustrationUrl(key) && r[idx].avatarIllustration == Some(key)
    ensures r[idx].avatarType == Illustration
    ensures r[idx] == members[idx].(avatarUrl := r[idx].avatarUrl, avatarIllustration := r[idx].avatarIllustration,
                                    avatarType := r[idx].avatarType)
  {
    var active := ActiveUser(members, idx).value;
    members[idx := active.(avatarUrl := IllustrationUrl(key), avatarIllustration := Some(key),
                           avatarType := Illustration)]
  }

  /** Choosing the same illustration again changes nothing; the owner stays first and active. */
  lemma UpdateAvatarStable(members: seq<UserProfile>, key: Animal)
    requires OwnerFirst(members)
    ensures UpdateAvatar(UpdateAvatar(members, 0, key), 0, key) == UpdateAvatar(members, 0, key)
    ensures OwnerFirst(UpdateAvatar(members, 0, key))
    ensures ActiveUser(UpdateAvatar(members, 0, key), 0).value.id == members[0].id
  {
  }

  // ---------------------------------------------------------------------------------------------
  // Filter

  /** The sidebar's three stacks: all events, the shared ones, the personal ones. */
  datatype EventFilter = AllEvents | SharedOnly | PrivateOnly

  predicate Shows(f: EventFilter, e: CalendarEvent) {
    match f
    case AllEvents => true
    case SharedOnly => e.isShared
    case PrivateOnly => !e.isShared
  }

  function Keeps(f: EventFilter): CalendarEvent -> bool {
    (e: CalendarEvent) => Shows(f, e)
  }

  /** `filteredEvents`: the events the chosen stack shows, in list order. */
  function FilteredEvents(events: seq<CalendarEvent>, f: EventFilter): (r: seq<CalendarEvent>)
    ensures f == AllEvents ==> r == events
    ensures f == SharedOnly ==> forall i :: 0 <= i < |r| ==> r[i].isShared
    ensures f == PrivateOnly ==> forall i :: 0 <= i < |r| ==> !r[i].isShared
    ensures forall e :: multiset(r)[e] == if Shows(f, e) then multiset(events)[e] else 0
  {
    assert f == AllEvents ==> Filter(events, Keeps(f)) == events by {
      if f == AllEvents { FilterKeepsAll(events, Keeps(f)); }
    }
    FilterCount(events, Keeps(f));
    Filter(events, Keeps(f))
  }

  /** Every event is in exactly one of the shared and personal stacks. */
  lemma SharedPrivatePartition(events: seq<CalendarEvent>)
    ensures multiset(FilteredEvents(events, SharedOnly)) + multiset(FilteredEvents(events, PrivateOnly))
         == multiset(events)
    ensures |FilteredEvents(events, SharedOnly)| + |FilteredEvents(events, PrivateOnly)| == |events|
  {
    FilterPartition(events, Keeps(SharedOnly), Keeps(PrivateOnly));
  }

  /** The filter keeps list order: on `a + b` it shows the kept events of `a`, then those of `b`. */
  lemma FilteredEventsConcat(a: seq<CalendarEvent>, b: seq<CalendarEvent>, f: EventFilter)
    ensures FilteredEvents(a + b, f) == FilteredEvents(a, f) + FilteredEvents(b, f)
  {
    FilterConcat(a, b, Keeps(f));
  }

  /** The grid's lookup of a day's events and the stack filter commute: the calendar shows, for each
      day, that day's events of the chosen stack, in list order. */
  lemma FilterThenLookup(events: seq<CalendarEvent>, f: EventFilter, date: int)
    ensures CalendarGrid.EventsForDate(FilteredEvents(events, f), date)
         == FilteredEvents(CalendarGrid.EventsForDate(events, date), f)
  {
    FilterCommute(events, Keeps(f), CalendarGrid.StartsOn(date));
  }

  /** Toggling an event moves it between the shared and the personal stack. */
  lemma ToggleMovesBetweenStacks(events: seq<CalendarEvent>, id: string, i: int)
    requires 0 <= i < |events| && events[i].id == id
    ensures var t := ToggleShare(events, id)[i];
      (t in FilteredEvents(ToggleShare(events, id), SharedOnly) <==> !events[i].isShared)
  {
    var r := ToggleShare(events, id);
    assert r[i] in r;
    assert multiset(r)[r[i]] > 0;
  }
}
