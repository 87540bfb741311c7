/** The hosted document store replaced by three in-memory tables: the `users` collection, the
    `events` collection, and each event's `attendees` subcollection. A missing document is an
    absent key. A subcollection is kept apart from its parent document, since the store lets
    attendee documents outlive the event document. */
module Store {
  import opened Wrappers
  import opened Domain

  class DocumentStore {
    var users: map<string, UserDoc>
    var events: map<string, EventDoc>
    var attendees: map<string, map<string, AttendeeRecord>>

    constructor ()
      ensures users == map[] && events == map[] && attendees == map[]
    {
      users := map[];
      events := map[];
      attendees := map[];
    }

    /** The documents of events/{eventId}/attendees (none when the subcollection is empty). */
    function AttendeesOf(eventId: string): map<string, AttendeeRecord>
      reads this
    {
      if eventId in attendees then attendees[eventId] else map[]
    }
  }

  /** The stored XP of a user, counting a missing document or field as 0 (`xp || 0`). */
  function XPOf(users: map<string, UserDoc>, uid: string): int {
    if uid in users then users[uid].xp else 0
  }

  /** `arrayUnion(id)` on a list field, and UserService's `includes` check followed by an append:
      the id is added at the end unless it is already present. */
  function AppendIfAbsent(list: seq<string>, id: string): (r: seq<string>)
    ensures id in r
    ensures forall x :: x in r <==> x in list || x == id
    ensures |list| <= |r| <= |list| + 1
    ensures r[..|list|] == list
  {
    if id in list then list else list + [id]
  }

  /** No id occurs twice. */
  predicate NoDuplicates(list: seq<string>) {
    forall i, j :: 0 <= i < j < |list| ==> list[i] != list[j]
  }

  /** Adding an id twice is adding it once, and a duplicate-free list stays duplicate-free. */
  lemma AppendIfAbsentIdempotent(list: seq<string>, id: string)
    ensures AppendIfAbsent(AppendIfAbsent(list, id), id) == AppendIfAbsent(list, id)
    ensures NoDuplicates(list) ==> NoDuplicates(AppendIfAbsent(list, id))
  {
  }

  /** The private updateUserXP of the event repository, on the user table: the amount is added
      to the stored XP (a missing XP counts as 0); a missing user document is left missing. */
  function AwardXP(users: map<string, UserDoc>, uid: string, amount: int): (r: map<string, UserDoc>)
    ensures r.Keys == users.Keys
    ensures uid in users ==> r[uid] == users[uid].(xp := XPOf(users, uid) + amount)
    ensures forall u :: u in users && u != uid ==> r[u] == users[u]
  {
    if uid in users then users[uid := users[uid].(xp := users[uid].xp + amount)] else users
  }
}
