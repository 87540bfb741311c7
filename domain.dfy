/** The documents and value records of the event store (src/domain/models). */
module Domain {
  import opened Wrappers

  /** Event.gameMode: 'counter' | 'matchmaking' | 'none'. */
  datatype GameMode = Counter | Matchmaking | NoGame

  /** One participant's entry in gameData.counter.participants. */
  datatype CounterGameData = CounterGameData(userId: string, count: int, goal: int)

  /** A document of the `events` collection. `date` is a timestamp in milliseconds.
      `participants` is None when the document has no gameData.counter.participants map. */
  datatype EventDoc = EventDoc(
    eventName: string,
    description: string,
    date: int,
    time: string,
    location: string,
    maxSpots: Option<int>,
    gameMode: GameMode,
    participants: Option<map<string, CounterGameData>>,
    imageUrl: Option<string>,
    createdBy: string,
    creatorUsername: string,
    creatorProfilePicture: string)

  /** An Event as the repository returns it: the document id spread together with its data. */
  datatype Event = Event(id: string, doc: EventDoc)

  /** The ids of a list of events, position by position. */
  function IdsOf(events: seq<Event>): (r: seq<string>)
    ensures |r| == |events|
    ensures forall i :: 0 <= i < |events| ==> r[i] == events[i].id
  {
    if events == [] then [] else IdsOf(events[..|events| - 1]) + [events[|events| - 1].id]
  }

  /** A document of events/{eventId}/attendees: the cached copy of the user's fields. */
  datatype AttendeeRecord = AttendeeRecord(username: string, xp: int, profilePicture: string)

  /** The Attendee value callers hand to addAttendee. */
  datatype Attendee = Attendee(uid: string, username: string, xp: int, profilePicture: string)

  /** A document of the `users` collection. Every field is present: a missing username is
      taken as "", a missing xp as 0 and a missing list as [], although not every reader
      guards a missing field. */
  datatype UserDoc = UserDoc(
    username: string,
    email: string,
    xp: int,
    eventsAttended: seq<string>,
    eventsCreated: seq<string>,
    profilePicture: string)

  /** The two membership lists of a user ('attended' | 'created'). */
  datatype ListKind = Attended | Created
}
