/** The fixed illustration avatars, the group id and the fixture data the application starts from. */
module MockData {
  import opened Collections
  import opened Types
  import opened CivilDate

  /** The illustration keys in declaration order (`Object.keys` of the illustration table). */
  const IllustrationKeys: seq<Animal> := [Fox, Koala, Panda, Rabbit, Cat, Bear]

  function IllustrationUrl(a: Animal): string {
    match a
    case Fox => "https://api.dicebear.com/7.x/big-smile/svg?seed=fox&backgroundColor=ffdfbf"
    case Koala => "https://api.dicebear.com/7.x/big-smile/svg?seed=koala&backgroundColor=b6e3f4"
    case Panda => "https://api.dicebear.com/7.x/big-smile/svg?seed=panda&backgroundColor=d1d4f9"
    case Rabbit => "https://api.dicebear.com/7.x/big-smile/svg?seed=rabbit&backgroundColor=ffd5dc"
    case Cat => "https://api.dicebear.com/7.x/big-smile/svg?seed=cat&backgroundColor=c0aede"
    case Bear => "https://api.dicebear.com/7.x/big-smile/svg?seed=bear&backgroundColor=ffdfbf"
  }

  const GroupId: string := "bridge-core-group"

  const MockUser: UserProfile := UserProfile(
    "user-123", "alex@bridge.app", "Alex Rivera", IllustrationUrl(Fox), Illustration, Some(Fox), Owner,
    [BaseLocation("loc-1", "Singapore", "SG", Recurring, Some([1, 2, 3, 4]), None, None)])

  const MockMembers: seq<UserProfile> := [
    MockUser,
    UserProfile(
      "user-456", "sarah@bridge.app", "Sarah Chen", IllustrationUrl(Panda), Illustration, Some(Panda), Member,
      [BaseLocation("loc-2", "Bangkok", "TH", Temporary, None, Some(MakeDay(2026, 0, 1)), Some(MakeDay(2026, 0, 15)))]),
    UserProfile(
      "user-789", "jordan@bridge.app", "Jordan Smith", IllustrationUrl(Koala), Illustration, Some(Koala), Member,
      [BaseLocation("loc-3", "London", "GB", Recurring, Some([0, 1, 2, 3, 4, 5, 6]), None, None)])
  ]

  function At(y: int, m: int, d: int, hour: int, minute: int): DateTime {
    DateTime(MakeDay(y, m, d), 60 * hour + minute)
  }

  const E1: CalendarEvent := CalendarEvent("e1", "user-123", GroupId, None, "Dentist Appointment", None,
    At(2026, 0, 10, 9, 0), At(2026, 0, 10, 10, 0), false, None, Google)
  const E2: CalendarEvent := CalendarEvent("e2", "user-123", GroupId, None, "Family Dinner", None,
    At(2026, 0, 10, 19, 0), At(2026, 0, 10, 21, 0), true, None, Bridge)
  const E3: CalendarEvent := CalendarEvent("e3", "user-456", GroupId, None, "Flight to Singapore", None,
    At(2026, 0, 11, 14, 0), At(2026, 0, 11, 16, 30), true, None, Apple)
  const E4: CalendarEvent := CalendarEvent("e4", "user-789", GroupId, None, "Grocery Stock-up", None,
    At(2026, 0, 10, 11, 0), At(2026, 0, 10, 12, 0), true, None, Bridge)
  const E5: CalendarEvent := CalendarEvent("e5", "user-123", GroupId, None, "Gym Session", None,
    At(2026, 0, 12, 7, 0), At(2026, 0, 12, 8, 30), false, None, Bridge)

  const MockEvents: seq<CalendarEvent> := [E1, E2, E3, E4, E5]
}
