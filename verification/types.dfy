/** The records of the calendar: events, members and their base locations. Dates are civil day
    numbers (see CivilDate); ISO time strings are reduced to a day and a minute of that day. */
module Types {
  import opened Collections

  datatype Provider = Google | Apple | Bridge

  datatype UserRole = Owner | Member

  datatype CalendarViewType = MonthView | WeekView

  datatype LocationType = Recurring | Temporary

  /** A place a member is based at: on some weekdays (0 = Sunday) or over a range of days. */
  datatype BaseLocation = BaseLocation(
    id: string,
    city: string,
    countryCode: string,
    kind: LocationType,
    recurringDays: Option<seq<int>>,
    startDate: Option<int>,
    endDate: Option<int>)

  datatype AvatarType = Custom | Illustration

  /** The keys of the fixed illustration set. */
  datatype Animal = Fox | Koala | Panda | Rabbit | Cat | Bear

  datatype UserProfile = UserProfile(
    id: string,
    email: string,
    fullName: string,
    avatarUrl: string,
    avatarType: AvatarType,
    avatarIllustration: Option<Animal>,
    role: UserRole,
    baseLocations: seq<BaseLocation>)

  /** A point in time: a civil day number and the minute within that day. */
  datatype DateTime = DateTime(day: int, minuteOfDay: int)

  datatype CalendarEvent = CalendarEvent(
    id: string,
    userId: string,
    groupId: string,
    externalProviderId: Option<string>,
    title: string,
    description: Option<string>,
    startTime: DateTime,
    endTime: DateTime,
    isShared: bool,
    location: Option<string>,
    provider: Provider)
}
