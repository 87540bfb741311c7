/** The user service (src/application/services/UserService.ts): account creation, the two
    membership lists, and the XP read-modify-write with its fan-out into the attendee records
    of every event the user attended or created. The event service forwards every call made
    here unchanged, so it is the event repository itself here. */
module UserService {
  import opened Wrappers
  import opened Domain
  import opened Store
  import opened EventRepository
  import opened Sequences

  /** checkUsernameExists: some user document holds exactly this username. */
  predicate UsernameTaken(users: map<string, UserDoc>, username: string) {
    exists uid :: uid in users && users[uid].username == username
  }

  /** The list of the given kind. */
  function ListOf(user: UserDoc, kind: ListKind): seq<string> {
    match kind
    case Attended => user.eventsAttended
    case Created => user.eventsCreated
  }

  /** The user with the list of the given kind replaced; the other list is kept. */
  function WithList(user: UserDoc, kind: ListKind, list: seq<string>): (r: UserDoc)
    ensures ListOf(r, kind) == list
    ensures ListOf(r, if kind == Attended then Created else Attended) == ListOf(user, if kind == Attended then Created else Attended)
    ensures r.xp == user.xp && r.username == user.username && r.profilePicture == user.profilePicture
  {
    match kind
    case Attended => user.(eventsAttended := list)
    case Created => user.(eventsCreated := list)
  }

  /** `list.filter(id => id !== eventId)` */
  function RemoveAll(list: seq<string>, id: string): (r: seq<string>)
    ensures forall x :: x in r <==> x in list && x != id
    ensures id !in list ==> r == list
    ensures |r| <= |list|
  {
    if list == [] then []
    else (if list[0] == id then [] else [list[0]]) + RemoveAll(list[1..], id)
  }

  /** The filter keeps the relative order of the rest: filtering a concatenation is
      concatenating the filtered parts. */
  lemma {:induction false} RemoveAllAppend(a: seq<string>, b: seq<string>, id: string)
    ensures RemoveAll(a + b, id) == RemoveAll(a, id) + RemoveAll(b, id)
  {
    if a == [] {
      assert a + b == b;
    } else {
      var head := if a[0] == id then [] else [a[0]];
      assert (a + b)[0] == a[0] && (a + b)[1..] == a[1..] + b;
      assert RemoveAll(a + b, id) == head + RemoveAll(a[1..] + b, id);
      RemoveAllAppend(a[1..], b, id);
      assert RemoveAll(a, id) == head + RemoveAll(a[1..], id);
      ConcatAssoc(head, RemoveAll(a[1..], id), RemoveAll(b, id));
    }
  }

  /** Removing an id undoes adding it: the list left is the original list without the id. */
  lemma RemoveAllUndoesAppend(list: seq<string>, id: string)
    ensures RemoveAll(AppendIfAbsent(list, id), id) == RemoveAll(list, id)
  {
    if id !in list {
      RemoveAllAppend(list, [id], id);
      assert RemoveAll([id], id) == [];
    }
  }

  /** The attendee table after writing `xp` into `uid`'s record of every event in `ids`; an
      event in which the user has no record is left as it is. */
  function WithCachedXP(att: map<string, map<string, AttendeeRecord>>, ids: set<string>, uid: string, xp: int)
    : (r: map<string, map<string, AttendeeRecord>>)
    ensures r.Keys == att.Keys
    ensures forall eid :: eid in att && eid in ids && uid in att[eid] ==>
              r[eid] == att[eid][uid := att[eid][uid].(xp := xp)]
    ensures forall eid :: eid in att && (eid !in ids || uid !in att[eid]) ==> r[eid] == att[eid]
  {
    map eid | eid in att :: if eid in ids && uid in att[eid] then att[eid][uid := att[eid][uid].(xp := xp)] else att[eid]
  }

  /** Convergence: afterwards every event of `ids` in which the user has a record caches
      exactly `xp` for the user, and no other record changes. */
  lemma CachedXPConverges(att: map<string, map<string, AttendeeRecord>>, ids: set<string>, uid: string, xp: int)
    ensures var r := WithCachedXP(att, ids, uid, xp);
            && (forall eid :: eid in ids && eid in att && uid in att[eid] ==> r[eid][uid].xp == xp)
            && (forall eid, u :: eid in att && u in att[eid] && (u != uid || eid !in ids) ==>
                  u in r[eid] && r[eid][u] == att[eid][u])
            && (forall eid :: eid in att ==> r[eid].Keys == att[eid].Keys)
  {
  }

  /** Writing the same XP a second time changes nothing. */
  lemma {:induction false} WithCachedXPIdempotent(att: map<string, map<string, AttendeeRecord>>, ids: set<string>, uid: string, xp: int)
    ensures WithCachedXP(WithCachedXP(att, ids, uid, xp), ids, uid, xp) == WithCachedXP(att, ids, uid, xp)
  {
    var once := WithCachedXP(att, ids, uid, xp);
    var twice := WithCachedXP(once, ids, uid, xp);
    forall eid | eid in att
      ensures twice[eid] == once[eid]
    {
      if eid in ids && uid in att[eid] {
        assert uid in once[eid];
        assert once[eid][uid := once[eid][uid].(xp := xp)] == once[eid];
      }
    }
  }

  /** One updateAttendeeXP call extends the set of events written. A repeated id is absorbed,
      so visiting an event twice ends in the same table as visiting it once. */
  lemma {:induction false} WithCachedXPStep(att: map<string, map<string, AttendeeRecord>>, ids: set<string>, eventId: string,
                                            uid: string, xp: int)
    ensures var r := WithCachedXP(att, ids, uid, xp);
            var rec := if eventId in r then r[eventId] else map[];
            WithCachedXP(att, ids + {eventId}, uid, xp)
              == if uid !in rec then r else r[eventId := r[eventId][uid := r[eventId][uid].(xp := xp)]]
  {
    var r: map<string, map<string, AttendeeRecord>> := WithCachedXP(att, ids, uid, xp);
    var s := WithCachedXP(att, ids + {eventId}, uid, xp);
    var rec: map<string, AttendeeRecord> := if eventId in r then r[eventId] else map[];
    if uid in rec {
      var t := r[eventId := r[eventId][uid := r[eventId][uid].(xp := xp)]];
      forall eid | eid in att
        ensures s[eid] == t[eid]
      {
        if eid == eventId && eid in ids {
          assert r[eid][uid := r[eid][uid].(xp := xp)] == r[eid];
        }
      }
      assert s == t;
    } else {
      assert s == r;
    }
  }

  /** The set of ids of a list of events. */
  function IdSet(events: seq<Event>): (r: set<string>)
    ensures forall e :: e in events ==> e.id in r
    ensures forall id :: id in r ==> exists i :: 0 <= i < |events| && events[i].id == id
  {
    set id | id in IdsOf(events)
  }

  /** The events the fan-out visits: the attended ids whose event still exists, and the
      events whose creator is the user. */
  function FanOutIds(users: map<string, UserDoc>, events: map<string, EventDoc>, uid: string): set<string>
    requires uid in users
  {
    (set id | id in users[uid].eventsAttended && id in events)
    + (set id | id in events && events[id].createdBy == uid)
  }

  /** The attendee table after syncUserXPAcrossEvents. */
  function SyncedAttendees(users: map<string, UserDoc>, events: map<string, EventDoc>,
                           att: map<string, map<string, AttendeeRecord>>, uid: string)
    : map<string, map<string, AttendeeRecord>>
    requires uid in users
  {
    WithCachedXP(att, FanOutIds(users, events, uid), uid, users[uid].xp)
  }

  /** Running the sync twice leaves the same state as running it once: it never changes the
      users or events it reads, and the second pass writes the values already there. */
  lemma SyncTwice(users: map<string, UserDoc>, events: map<string, EventDoc>,
                  att: map<string, map<string, AttendeeRecord>>, uid: string)
    requires uid in users
    ensures SyncedAttendees(users, events, SyncedAttendees(users, events, att, uid), uid)
              == SyncedAttendees(users, events, att, uid)
  {
    WithCachedXPIdempotent(att, FanOutIds(users, events, uid), uid, users[uid].xp);
  }

  class UserService {
    const db: DocumentStore
    var eventService: FirebaseEventRepository?

    /** The event service works on the same store as the user repository. */
    predicate Valid()
      reads this, eventService
    {
      eventService != null ==> eventService.db == db
    }

    /** The constructor builds its own event service over the same store. */
    constructor (db: DocumentStore)
      ensures this.db == db && eventService != null && Valid()
    {
      this.db := db;
      eventService := new FirebaseEventRepository(db);
    }

    method SetEventService(service: FirebaseEventRepository)
      requires service.db == db
      modifies this
      ensures eventService == service && Valid()
    {
      eventService := service;
    }

    /** getUserData, as the user repository answers it. */
    method GetUserData(userId: string) returns (r: Result<UserDoc>)
      ensures userId !in db.users ==> r == Err("User not found")
      ensures userId in db.users ==> r == Ok(db.users[userId])
    {
      if userId !in db.users {
        return Err("User not found");
      }
      return Ok(db.users[userId]);
    }

    /** createUser: refuses a username another document already holds; otherwise writes a fresh
        document with no XP and empty lists, replacing any document under that id. */
    method CreateUser(userId: string, username: string, email: string) returns (r: Result<UserDoc>)
      modifies db
      ensures UsernameTaken(old(db.users), username) ==>
                r == Err("Username already taken") && unchanged(db)
      ensures !UsernameTaken(old(db.users), username) ==>
                && r == Ok(UserDoc(username, email, 0, [], [], ""))
                && db.users == old(db.users)[userId := r.value]
                && db.events == old(db.events) && db.attendees == old(db.attendees)
    {
      if UsernameTaken(db.users, username) {
        return Err("Username already taken");
      }
      var user := UserDoc(username, email, 0, [], [], "");
      db.users := db.users[userId := user];
      return Ok(user);
    }

    /** addEventToUser: appends the id to the chosen list unless it is already there. */
    method AddEventToUser(userId: string, eventId: string, kind: ListKind) returns (r: Outcome)
      modifies db
      ensures userId !in old(db.users) ==> r == Fail("User not found") && unchanged(db)
      ensures userId in old(db.users) ==>
                && r == Pass
                && db.users == old(db.users)[userId := WithList(old(db.users[userId]), kind,
                                                                AppendIfAbsent(ListOf(old(db.users[userId]), kind), eventId))]
                && db.events == old(db.events) && db.attendees == old(db.attendees)
    {
      var user := GetUserData(userId);
      if user.Err? {
        return Fail(user.message);
      }
      var list := ListOf(user.value, kind);
      if eventId !in list {
        db.users := db.users[userId := WithList(user.value, kind, list + [eventId])];
      }
      return Pass;
    }

    /** removeEventFromUser: the chosen list without any occurrence of the id. */
    method RemoveEventFromUser(userId: string, eventId: string, kind: ListKind) returns (r: Outcome)
      modifies db
      ensures userId !in old(db.users) ==> r == Fail("User not found") && unchanged(db)
      ensures userId in old(db.users) ==>
                && r == Pass
                && db.users == old(db.users)[userId := WithList(old(db.users[userId]), kind,
                                                                RemoveAll(ListOf(old(db.users[userId]), kind), eventId))]
                && db.events == old(db.events) && db.attendees == old(db.attendees)
    {
      var user := GetUserData(userId);
      if user.Err? {
        return Fail(user.message);
      }
      db.users := db.users[userId := WithList(user.value, kind, RemoveAll(ListOf(user.value, kind), eventId))];
      return Pass;
    }

    /** Writes `xp` into the user's record of every event of the list, one after another. The
        list may name an event twice (the source's set of event objects does not merge equal
        ids); the result is the by-id update all the same. */
    method PushXP(events: seq<Event>, userId: string, xp: int)
      requires Valid() && eventService != null
      modifies db
      ensures db.users == old(db.users) && db.events == old(db.events)
      ensures db.attendees == WithCachedXP(old(db.attendees), IdSet(events), userId, xp)
    {
      var service := eventService;
      var i := 0;
      while i < |events|
        invariant 0 <= i <= |events|
        invariant db.users == old(db.users) && db.events == old(db.events)
        invariant db.attendees == WithCachedXP(old(db.attendees), IdSet(events[..i]), userId, xp)
      {
        WithCachedXPStep(old(db.attendees), IdSet(events[..i]), events[i].id, userId, xp);
        assert IdSet(events[..i + 1]) == IdSet(events[..i]) + {events[i].id} by {
          assert events[..i + 1] == events[..i] + [events[i]];
        }
        service.UpdateAttendeeXP(events[i].id, userId, xp);
        i := i + 1;
      }
      assert events[..i] == events;
    }

    /** The events of the fan-out: getAttendedEvents followed by getUserEvents. */
    method FanOutEvents(userId: string) returns (events: seq<Event>)
      requires Valid() && eventService != null && userId in db.users
      ensures IdSet(events) == FanOutIds(db.users, db.events, userId)
    {
      var attended := eventService.GetAttendedEvents(userId);
      var created := eventService.GetUserEvents(userId);
      events := attended.value + created;
      forall id | id in FanOutIds(db.users, db.events, userId)
        ensures id in IdSet(events)
      {
        if id in db.users[userId].eventsAttended && id in db.events {
          assert Event(id, db.events[id]) in events;
        } else {
          assert Event(id, db.events[id]) in created;
        }
      }
    }

    /** updateUserXP: the stored XP (missing counts as 0) plus the change is written to the user
        document, and that new total, not the change, into every attended or created event's
        record of the user. */
    method UpdateUserXP(userId: string, xpChange: int) returns (r: Outcome)
      requires Valid()
      modifies db
      ensures eventService == null ==> r == Fail("EventService not initialized") && unchanged(db)
      ensures eventService != null && userId !in old(db.users) ==> r == Fail("User not found") && unchanged(db)
      ensures eventService != null && userId in old(db.users) ==>
                var newXP := old(db.users[userId]).xp + xpChange;
                && r == Pass
                && db.users == old(db.users)[userId := old(db.users[userId]).(xp := newXP)]
                && db.events == old(db.events)
                && db.attendees == WithCachedXP(old(db.attendees), FanOutIds(db.users, db.events, userId), userId, newXP)
    {
      if eventService == null {
        return Fail("EventService not initialized");
      }
      var userData := GetUserData(userId);
      if userData.Err? {
        return Fail(userData.message);
      }
      var newXP := userData.value.xp + xpChange;
      db.users := db.users[userId := userData.value.(xp := newXP)];
      var allEvents := FanOutEvents(userId);
      PushXP(allEvents, userId, newXP);
      return Pass;
    }

    /** syncUserXPAcrossEvents: the stored XP is written, unchanged, into every attended or
        created event's record of the user. */
    method SyncUserXPAcrossEvents(userId: string) returns (r: Outcome)
      requires Valid()
      modifies db
      ensures eventService == null ==> r == Fail("EventService not initialized") && unchanged(db)
      ensures eventService != null && userId !in old(db.users) ==> r == Fail("User not found") && unchanged(db)
      ensures eventService != null && userId in old(db.users) ==>
                && r == Pass
                && db.users == old(db.users) && db.events == old(db.events)
                && db.attendees == SyncedAttendees(db.users, db.events, old(db.attendees), userId)
    {
      if eventService == null {
        return Fail("EventService not initialized");
      }
      var userData := GetUserData(userId);
      if userData.Err? {
        return Fail(userData.message);
      }
      var allEvents := FanOutEvents(userId);
      PushXP(allEvents, userId, userData.value.xp);
      return Pass;
    }
  }
}
