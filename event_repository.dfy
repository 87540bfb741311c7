/** The event repository (src/infrastructure/repositories/FirebaseEventRepository.ts) over the
    in-memory document store: joining and leaving events with their XP awards, counter-game
    writes, attendee XP caches, creation with the creator's self-join, edits by the creator,
    cascade deletion, and the reads the user service builds on. */
module EventRepository {
  import opened Wrappers
  import opened Domain
  import opened Store

  /** XP awarded to every joiner. */
  const JoinBonus: int := 50
  /** XP awarded to the creator when the attendee count observed after a join is exactly 5. */
  const CreatorBonus: int := 100
  const CreatorBonusCount: int := 5
  /** The upper bound of a stored count or goal. */
  const CounterMax: int := 1000

  /** `Math.max(0, Math.min(v, 1000))` */
  function ClampCounter(v: int): (r: int)
    ensures 0 <= r <= CounterMax
    ensures 0 <= v <= CounterMax ==> r == v
    ensures v < 0 ==> r == 0
    ensures v > CounterMax ==> r == CounterMax
  {
    var upper := if v <= CounterMax then v else CounterMax;
    if upper >= 0 then upper else 0
  }

  /** The participants map of an event, an absent map read as empty. */
  function ParticipantsOf(ev: EventDoc): map<string, CounterGameData> {
    if ev.participants.Some? then ev.participants.value else map[]
  }

  /** The field-path write `gameData.counter.participants.{d.userId} = d`: it creates the map
      when absent and replaces only that user's entry. */
  function WithParticipant(ev: EventDoc, d: CounterGameData): (r: EventDoc)
    ensures r.participants.Some?
    ensures r.participants.value == ParticipantsOf(ev)[d.userId := d]
    ensures r == ev.(participants := r.participants)
  {
    ev.(participants := Some(ParticipantsOf(ev)[d.userId := d]))
  }

  /** The user document after the `setDoc(..., { eventsAttended: arrayUnion(eventId) }, { merge: true })`
      of addAttendee: an absent document is created holding only that list. */
  function MergeAttended(users: map<string, UserDoc>, uid: string, eventId: string): (r: UserDoc)
    ensures r.eventsAttended == AppendIfAbsent(if uid in users then users[uid].eventsAttended else [], eventId)
    ensures r.xp == XPOf(users, uid)
    ensures uid in users ==> r == users[uid].(eventsAttended := AppendIfAbsent(users[uid].eventsAttended, eventId))
    ensures uid !in users ==> r == UserDoc("", "", 0, [eventId], [], "")
  {
    if uid in users then users[uid].(eventsAttended := AppendIfAbsent(users[uid].eventsAttended, eventId))
    else UserDoc("", "", 0, [eventId], [], "")
  }

  /** The user table after addAttendee's user writes, `count` being the attendee count it
      observes after its own attendee write. */
  function UsersAfterJoin(users: map<string, UserDoc>, uid: string, eventId: string, creator: string, count: int)
    : map<string, UserDoc>
  {
    var merged := users[uid := MergeAttended(users, uid, eventId)];
    var joined := AwardXP(merged, uid, JoinBonus);
    if count == CreatorBonusCount then AwardXP(joined, creator, CreatorBonus) else joined
  }

  /** What addAttendee does to the users: the joiner's document exists afterwards, holds the
      event once in eventsAttended and 50 more XP (150 more when the joiner is the creator and
      the count is 5); the creator gains 100 exactly when the count is 5 (nothing when the
      creator has no document); nobody else changes. */
  lemma JoinAwards(users: map<string, UserDoc>, uid: string, eventId: string, creator: string, count: int)
    ensures var r := UsersAfterJoin(users, uid, eventId, creator, count);
            && r.Keys == users.Keys + {uid}
            && r[uid].eventsAttended == AppendIfAbsent(if uid in users then users[uid].eventsAttended else [], eventId)
            && r[uid].xp == XPOf(users, uid) + JoinBonus + (if uid == creator && count == CreatorBonusCount then CreatorBonus else 0)
            && (uid in users ==> r[uid].eventsCreated == users[uid].eventsCreated && r[uid].username == users[uid].username)
            && (creator != uid && creator in users ==>
                  r[creator] == users[creator].(xp := users[creator].xp + (if count == CreatorBonusCount then CreatorBonus else 0)))
            && (forall u :: u in users && u != uid && u != creator ==> r[u] == users[u])
  {
    var merged := users[uid := MergeAttended(users, uid, eventId)];
    var joined := AwardXP(merged, uid, JoinBonus);
    assert joined.Keys == users.Keys + {uid};
    assert joined[uid] == MergeAttended(users, uid, eventId).(xp := XPOf(users, uid) + JoinBonus);
  }

  /** The users after createEvent's own writes: the creator lists the new event as created,
      then joins it as the only attendee, so no creator bonus is paid. */
  lemma SelfJoinUsers(users: map<string, UserDoc>, uid: string, eventId: string)
    requires uid in users
    ensures var user := users[uid];
            var created := users[uid := user.(eventsCreated := AppendIfAbsent(user.eventsCreated, eventId))];
            UsersAfterJoin(created, uid, eventId, uid, 1)
              == users[uid := user.(eventsCreated := AppendIfAbsent(user.eventsCreated, eventId),
                                    eventsAttended := AppendIfAbsent(user.eventsAttended, eventId),
                                    xp := user.xp + JoinBonus)]
  {
    var user := users[uid];
    var created := users[uid := user.(eventsCreated := AppendIfAbsent(user.eventsCreated, eventId))];
    var merged := created[uid := MergeAttended(created, uid, eventId)];
    assert UsersAfterJoin(created, uid, eventId, uid, 1) == AwardXP(merged, uid, JoinBonus);
    assert AwardXP(merged, uid, JoinBonus) == merged[uid := merged[uid].(xp := merged[uid].xp + JoinBonus)];
  }

  /** The count addAttendee observes is 5 exactly when a new attendee joins four others or an
      existing attendee re-joins an event of five: a 4->5 join pays the creator, a 5->6 join
      does not, and a re-join at 5 pays again. */
  lemma CreatorBonusTrigger(m: map<string, AttendeeRecord>, uid: string, rec: AttendeeRecord)
    ensures |m[uid := rec]| == CreatorBonusCount <==>
              (uid !in m && |m| == CreatorBonusCount - 1) || (uid in m && |m| == CreatorBonusCount)
  {
    if uid in m {
      assert m[uid := rec].Keys == m.Keys;
    } else {
      assert m[uid := rec].Keys == m.Keys + {uid};
    }
  }

  /** The events of `ids` that still exist, in the order of `ids` (getAttendedEvents skips
      the ids of deleted events). */
  function ExistingEvents(ids: seq<string>, events: map<string, EventDoc>): (r: seq<Event>)
    ensures forall e :: e in r ==> e.id in ids && e.id in events && e.doc == events[e.id]
    ensures forall id :: id in ids && id in events ==> Event(id, events[id]) in r
    ensures |r| <= |ids|
  {
    if ids == [] then []
    else
      var init, last := ids[..|ids| - 1], ids[|ids| - 1];
      assert forall id :: id in ids ==> id in init || id == last;
      ExistingEvents(init, events) + (if last in events then [Event(last, events[last])] else [])
  }

  /** The skip keeps the relative order: the selection of a concatenation is the concatenation
      of the selections. */
  lemma {:induction false} ExistingEventsAppend(a: seq<string>, b: seq<string>, events: map<string, EventDoc>)
    ensures ExistingEvents(a + b, events) == ExistingEvents(a, events) + ExistingEvents(b, events)
    decreases |b|
  {
    if b == [] {
      assert a + b == a;
    } else {
      assert (a + b)[..|a + b| - 1] == a + b[..|b| - 1];
      ExistingEventsAppend(a, b[..|b| - 1], events);
    }
  }

  /** The fields a creation form supplies. */
  datatype EventInput = EventInput(
    eventName: string, description: string, date: int, time: string, location: string,
    maxSpots: Option<int>, gameMode: GameMode)

  /** The partial update that updateEvent merges: None leaves a field as it is. */
  datatype EventPatch = EventPatch(
    eventName: Option<string>, description: Option<string>, date: Option<int>, time: Option<string>,
    location: Option<string>, maxSpots: Option<int>, gameMode: Option<GameMode>, imageUrl: Option<string>)

  function Patched<T>(field: T, update: Option<T>): T {
    if update.Some? then update.value else field
  }

  /** `setDoc(eventRef, eventData, { merge: true })`: the supplied fields replace the stored ones,
      every other field is kept. */
  function ApplyPatch(ev: EventDoc, p: EventPatch): (r: EventDoc)
    ensures r.createdBy == ev.createdBy && r.creatorUsername == ev.creatorUsername
    ensures r.creatorProfilePicture == ev.creatorProfilePicture && r.participants == ev.participants
    ensures p.imageUrl.Some? ==> r.imageUrl == p.imageUrl
    ensures p.imageUrl.None? ==> r.imageUrl == ev.imageUrl
    ensures p.eventName.Some? ==> r.eventName == p.eventName.value
    ensures p.eventName.None? ==> r.eventName == ev.eventName
    ensures p.date.Some? ==> r.date == p.date.value
    ensures p.date.None? ==> r.date == ev.date
    ensures p.description.Some? ==> r.description == p.description.value
    ensures p.description.None? ==> r.description == ev.description
    ensures p.time.Some? ==> r.time == p.time.value
    ensures p.time.None? ==> r.time == ev.time
    ensures p.location.Some? ==> r.location == p.location.value
    ensures p.location.None? ==> r.location == ev.location
    ensures p.maxSpots.Some? ==> r.maxSpots == p.maxSpots
    ensures p.maxSpots.None? ==> r.maxSpots == ev.maxSpots
    ensures p.gameMode.Some? ==> r.gameMode == p.gameMode.value
    ensures p.gameMode.None? ==> r.gameMode == ev.gameMode
  {
    ev.(eventName := Patched(ev.eventName, p.eventName),
        description := Patched(ev.description, p.description),
        date := Patched(ev.date, p.date),
        time := Patched(ev.time, p.time),
        location := Patched(ev.location, p.location),
        maxSpots := if p.maxSpots.Some? then p.maxSpots else ev.maxSpots,
        gameMode := Patched(ev.gameMode, p.gameMode),
        imageUrl := if p.imageUrl.Some? then p.imageUrl else ev.imageUrl)
  }

  /** The result and the store after a successful createEvent by `uid`: the event holds the
      creator's snapshot fields (and the creator's counter entry in counter mode), the creator
      is its only attendee, and the creator lists it as created and attended with 50 more XP. */
  predicate CreatedInStore(users0: map<string, UserDoc>, events0: map<string, EventDoc>,
                           att0: map<string, map<string, AttendeeRecord>>,
                           users: map<string, UserDoc>, events: map<string, EventDoc>,
                           att: map<string, map<string, AttendeeRecord>>,
                           input: EventInput, imageUrl: Option<string>, uid: string, newId: string, r: Result<Event>)
  {
    && uid in users0
    && var user := users0[uid];
       var doc := EventDoc(input.eventName, input.description, input.date, input.time, input.location,
                           input.maxSpots, input.gameMode, None, imageUrl, uid, user.username, user.profilePicture);
       && r == Ok(Event(newId, doc))
       && events == events0[newId := if input.gameMode == Counter then WithParticipant(doc, CounterGameData(uid, 0, 0)) else doc]
       && att == att0[newId := map[uid := AttendeeRecord(user.username, user.xp, user.profilePicture)]]
       && users == users0[uid := user.(
            eventsCreated := AppendIfAbsent(user.eventsCreated, newId),
            eventsAttended := AppendIfAbsent(user.eventsAttended, newId),
            xp := user.xp + JoinBonus)]
  }

  class FirebaseEventRepository {
    const db: DocumentStore

    constructor (db: DocumentStore)
      ensures this.db == db
    {
      this.db := db;
    }

    /** The private updateUserXP: read-modify-write of the stored XP; no-op without a document. */
    method AwardUserXP(userId: string, xpToAdd: int)
      modifies db
      ensures db.users == AwardXP(old(db.users), userId, xpToAdd)
      ensures db.events == old(db.events) && db.attendees == old(db.attendees)
    {
      if userId !in db.users {
        return;
      }
      var userData := db.users[userId];
      var currentXP := userData.xp;
      db.users := db.users[userId := userData.(xp := currentXP + xpToAdd)];
    }

    /** addAttendee: fails before any write when the event is missing; otherwise overwrites the
        attendee record, merges the event into the user's eventsAttended, awards the join bonus,
        awards the creator bonus at a count of exactly 5, and in counter mode resets the
        joiner's counter entry to 0/0. */
    method AddAttendee(eventId: string, attendee: Attendee) returns (r: Outcome)
      modifies db
      ensures eventId !in old(db.events) ==>
                r == Fail("Event not found") && unchanged(db)
      ensures eventId in old(db.events) ==>
                var ev := old(db.events[eventId]);
                && r == Pass
                && db.attendees == old(db.attendees)[eventId := old(db.AttendeesOf(eventId))[attendee.uid :=
                     AttendeeRecord(attendee.username, attendee.xp, attendee.profilePicture)]]
                && db.users == UsersAfterJoin(old(db.users), attendee.uid, eventId, ev.createdBy, |db.AttendeesOf(eventId)|)
                && db.events == (if ev.gameMode == Counter
                                 then old(db.events)[eventId := WithParticipant(ev, CounterGameData(attendee.uid, 0, 0))]
                                 else old(db.events))
    {
      if eventId !in db.events {
        return Fail("Event not found");
      }
      var eventData := db.events[eventId];

      db.attendees := db.attendees[eventId := db.AttendeesOf(eventId)[attendee.uid :=
        AttendeeRecord(attendee.username, attendee.xp, attendee.profilePicture)]];

      db.users := db.users[attendee.uid := MergeAttended(db.users, attendee.uid, eventId)];

      AwardUserXP(attendee.uid, JoinBonus);

      var attendeeCount := |db.AttendeesOf(eventId)|;
      if attendeeCount == CreatorBonusCount {
        AwardUserXP(eventData.createdBy, CreatorBonus);
      }

      if eventData.gameMode == Counter {
        db.events := db.events[eventId := WithParticipant(db.events[eventId], CounterGameData(attendee.uid, 0, 0))];
      }
      return Pass;
    }

    /** createEvent (image upload aside): requires a signed-in user whose document has a
        username, stores the event with the creator's snapshot fields, merges the id into the
        creator's eventsCreated, then self-joins the creator. `newId` is the id the store
        generates. */
    method CreateEvent(input: EventInput, imageUrl: Option<string>, currentUser: Option<string>, newId: string)
      returns (r: Result<Event>)
      requires newId !in db.events && newId !in db.attendees
      modifies db
      ensures currentUser.None? ==>
                r == Err("User must be authenticated to create an event") && unchanged(db)
      ensures currentUser.Some? && (currentUser.value !in old(db.users) || old(db.users[currentUser.value]).username == "") ==>
                r == Err("User data not found") && unchanged(db)
      ensures currentUser.Some? && currentUser.value in old(db.users) && old(db.users[currentUser.value]).username != "" ==>
                CreatedInStore(old(db.users), old(db.events), old(db.attendees), db.users, db.events, db.attendees,
                               input, imageUrl, currentUser.value, newId, r)
    {
      if currentUser.None? {
        return Err("User must be authenticated to create an event");
      }
      var userId := currentUser.value;
      if userId !in db.users || db.users[userId].username == "" {
        return Err("User data not found");
      }
      var userData := db.users[userId];
      var eventData := EventDoc(input.eventName, input.description, input.date, input.time, input.location,
                                input.maxSpots, input.gameMode, None, imageUrl, userId,
                                userData.username, userData.profilePicture);
      db.events := db.events[newId := eventData];

      db.users := db.users[userId := userData.(eventsCreated := AppendIfAbsent(userData.eventsCreated, newId))];
      ghost var created := db.users;

      assert db.AttendeesOf(newId) == map[];
      var joined := AddAttendee(newId, Attendee(userId, userData.username, userData.xp, userData.profilePicture));
      assert |db.AttendeesOf(newId)| == 1;
      assert db.users == UsersAfterJoin(created, userId, newId, userId, 1);
      SelfJoinUsers(old(db.users), userId, newId);
      return Ok(Event(newId, eventData));
    }

    /** removeAttendee: deletes the attendee record (a no-op when absent); only when the event
        exists, is in counter mode and has a participants map is the user's entry removed.
        The user's eventsAttended is not touched. */
    method RemoveAttendee(eventId: string, userId: string)
      modifies db
      ensures db.users == old(db.users)
      ensures db.attendees == old(db.attendees)[eventId := old(db.AttendeesOf(eventId)) - {userId}]
      ensures eventId in old(db.events) && old(db.events[eventId]).gameMode == Counter
              && old(db.events[eventId]).participants.Some? ==>
                db.events == old(db.events)[eventId := old(db.events[eventId]).(
                  participants := Some(old(db.events[eventId]).participants.value - {userId}))]
      ensures !(eventId in old(db.events) && old(db.events[eventId]).gameMode == Counter
                && old(db.events[eventId]).participants.Some?) ==>
                db.events == old(db.events)
    {
      var eventDoc := if eventId in db.events then Some(db.events[eventId]) else None;
      db.attendees := db.attendees[eventId := db.AttendeesOf(eventId) - {userId}];
      if eventDoc.Some? {
        var eventData := eventDoc.value;
        if eventData.gameMode == Counter && eventData.participants.Some? {
          db.events := db.events[eventId := eventData.(participants := Some(eventData.participants.value - {userId}))];
        }
      }
    }

    /** isUserAttending: an attendee record exists. */
    function IsUserAttending(eventId: string, userId: string): (r: bool)
      reads this, db
      ensures r <==> eventId in db.attendees && userId in db.attendees[eventId]
    {
      userId in db.AttendeesOf(eventId)
    }

    /** updateEvent: a missing event fails first, then anyone but the signed-in creator is
        refused; the creator's patch is merged into the document. */
    method UpdateEvent(eventId: string, patch: EventPatch, currentUser: Option<string>) returns (r: Outcome)
      modifies db
      ensures eventId !in old(db.events) ==> r == Fail("Event not found") && unchanged(db)
      ensures eventId in old(db.events) && currentUser != Some(old(db.events[eventId]).createdBy) ==>
                r == Fail("Unauthorized to edit this event") && unchanged(db)
      ensures eventId in old(db.events) && currentUser == Some(old(db.events[eventId]).createdBy) ==>
                && r == Pass
                && db.events == old(db.events)[eventId := ApplyPatch(old(db.events[eventId]), patch)]
                && db.users == old(db.users) && db.attendees == old(db.attendees)
    {
      if eventId !in db.events {
        return Fail("Event not found");
      }
      if currentUser.None? || db.events[eventId].createdBy != currentUser.value {
        return Fail("Unauthorized to edit this event");
      }
      db.events := db.events[eventId := ApplyPatch(db.events[eventId], patch)];
      return Pass;
    }

    /** updateAttendeeXP: a no-op for a user without an attendee record; otherwise only the
        record's xp changes. */
    method UpdateAttendeeXP(eventId: string, userId: string, newXP: int)
      modifies db
      ensures db.users == old(db.users) && db.events == old(db.events)
      ensures userId !in old(db.AttendeesOf(eventId)) ==> db.attendees == old(db.attendees)
      ensures userId in old(db.AttendeesOf(eventId)) ==>
                db.attendees == old(db.attendees)[eventId := old(db.attendees[eventId])[userId :=
                  old(db.attendees[eventId][userId]).(xp := newXP)]]
    {
      if userId !in db.AttendeesOf(eventId) {
        return;
      }
      var attendeeData := db.attendees[eventId][userId];
      db.attendees := db.attendees[eventId := db.attendees[eventId][userId := attendeeData.(xp := newXP)]];
    }

    /** initializeCounterGame: fails on a missing or non-counter event; first write wins, so an
        existing entry is never altered; otherwise the entry is written unclamped. */
    method InitializeCounterGame(eventId: string, userId: string, initialCount: int, goal: int) returns (r: Outcome)
      modifies db
      ensures db.users == old(db.users) && db.attendees == old(db.attendees)
      ensures eventId !in old(db.events) ==> r == Fail("Event not found") && db.events == old(db.events)
      ensures eventId in old(db.events) && old(db.events[eventId]).gameMode != Counter ==>
                r == Fail("Event is not in counter mode") && db.events == old(db.events)
      ensures eventId in old(db.events) && old(db.events[eventId]).gameMode == Counter ==>
                && r == Pass
                && (userId in ParticipantsOf(old(db.events[eventId])) ==> db.events == old(db.events))
                && (userId !in ParticipantsOf(old(db.events[eventId])) ==>
                      db.events == old(db.events)[eventId := WithParticipant(old(db.events[eventId]),
                                                               CounterGameData(userId, initialCount, goal))])
    {
      if eventId !in db.events {
        return Fail("Event not found");
      }
      var eventData := db.events[eventId];
      if eventData.gameMode != Counter {
        return Fail("Event is not in counter mode");
      }
      if eventData.participants.Some? && userId in eventData.participants.value {
        return Pass;
      }
      db.events := db.events[eventId := WithParticipant(eventData, CounterGameData(userId, initialCount, goal))];
      return Pass;
    }

    /** updateCounterGameData: the same two failures; otherwise the user's entry becomes the
        clamped count and goal, each clamped on its own. */
    method UpdateCounterGameData(eventId: string, userId: string, count: int, goal: int) returns (r: Outcome)
      modifies db
      ensures db.users == old(db.users) && db.attendees == old(db.attendees)
      ensures eventId !in old(db.events) ==> r == Fail("Event not found") && db.events == old(db.events)
      ensures eventId in old(db.events) && old(db.events[eventId]).gameMode != Counter ==>
                r == Fail("Event is not in counter mode") && db.events == old(db.events)
      ensures eventId in old(db.events) && old(db.events[eventId]).gameMode == Counter ==>
                && r == Pass
                && db.events == old(db.events)[eventId := WithParticipant(old(db.events[eventId]),
                                 CounterGameData(userId, ClampCounter(count), ClampCounter(goal)))]
    {
      if eventId !in db.events {
        return Fail("Event not found");
      }
      var eventData := db.events[eventId];
      if eventData.gameMode != Counter {
        return Fail("Event is not in counter mode");
      }
      db.events := db.events[eventId := WithParticipant(eventData,
                     CounterGameData(userId, ClampCounter(count), ClampCounter(goal)))];
      return Pass;
    }

    /** deleteEvent: a no-op for a missing event; otherwise every attendee document and then the
        event document are deleted. Deleting the image is object storage, outside the model; its
        failure is swallowed, so the deletion goes on regardless. Users' lists are not cleaned. */
    method DeleteEvent(eventId: string)
      modifies db
      ensures eventId !in old(db.events) ==> unchanged(db)
      ensures eventId in old(db.events) ==>
                && db.events == old(db.events) - {eventId}
                && db.users == old(db.users)
                && db.attendees == (if eventId in old(db.attendees) then old(db.attendees)[eventId := map[]]
                                    else old(db.attendees))
    {
      if eventId !in db.events {
        return;
      }
      if eventId in db.attendees {
        var snapshot := db.attendees[eventId].Keys;
        while snapshot != {}
          invariant eventId in db.attendees
          invariant db.attendees == old(db.attendees)[eventId := db.attendees[eventId]]
          invariant db.attendees[eventId].Keys == snapshot
          invariant db.events == old(db.events) && db.users == old(db.users)
          decreases snapshot
        {
          var uid :| uid in snapshot;
          db.attendees := db.attendees[eventId := db.attendees[eventId] - {uid}];
          snapshot := snapshot - {uid};
        }
        assert db.attendees[eventId] == map[];
      }
      db.events := db.events - {eventId};
    }

    /** getEvent */
    method GetEvent(eventId: string) returns (r: Result<Event>)
      ensures eventId !in db.events ==> r == Err("Event not found")
      ensures eventId in db.events ==> r == Ok(Event(eventId, db.events[eventId]))
    {
      if eventId !in db.events {
        return Err("Event not found");
      }
      return Ok(Event(eventId, db.events[eventId]));
    }

    /** getAttendedEvents: the user's eventsAttended, looked up one by one, skipping ids whose
        event document no longer exists. */
    method GetAttendedEvents(userId: string) returns (r: Result<seq<Event>>)
      ensures userId !in db.users ==> r == Err("User not found")
      ensures userId in db.users ==> r == Ok(ExistingEvents(db.users[userId].eventsAttended, db.events))
    {
      if userId !in db.users {
        return Err("User not found");
      }
      var attendedEventIds := db.users[userId].eventsAttended;
      var events: seq<Event> := [];
      var i := 0;
      while i < |attendedEventIds|
        invariant 0 <= i <= |attendedEventIds|
        invariant events == ExistingEvents(attendedEventIds[..i], db.events)
      {
        var eventId := attendedEventIds[i];
        assert attendedEventIds[..i + 1][..i] == attendedEventIds[..i];
        if eventId in db.events {
          events := events + [Event(eventId, db.events[eventId])];
        }
        i := i + 1;
      }
      assert attendedEventIds[..i] == attendedEventIds;
      return Ok(events);
    }

    /** getUserEvents: the query `createdBy == userId`, in the order the store returns. */
    method GetUserEvents(userId: string) returns (events: seq<Event>)
      ensures forall e :: e in events <==> e.id in db.events && e.doc == db.events[e.id] && e.doc.createdBy == userId
      ensures forall i, j :: 0 <= i < j < |events| ==> events[i].id != events[j].id
    {
      var pending := set id | id in db.events && db.events[id].createdBy == userId;
      events := [];
      while pending != {}
        invariant pending <= db.events.Keys
        invariant forall id :: id in pending ==> db.events[id].createdBy == userId
        invariant forall e :: e in events <==>
                    e.id in db.events && e.doc == db.events[e.id] && e.doc.createdBy == userId && e.id !in pending
        invariant forall i, j :: 0 <= i < j < |events| ==> events[i].id != events[j].id
        decreases pending
      {
        var id :| id in pending;
        events := events + [Event(id, db.events[id])];
        pending := pending - {id};
      }
    }

    /** getEventAttendees: each attendee record with the user document's current picture. */
    function EventAttendees(eventId: string): (r: map<string, Attendee>)
      reads this, db
      ensures r.Keys == db.AttendeesOf(eventId).Keys
      ensures forall u :: u in r ==>
                r[u].uid == u && r[u].xp == db.AttendeesOf(eventId)[u].xp
                && r[u].username == db.AttendeesOf(eventId)[u].username
                && r[u].profilePicture == (if u in db.users then db.users[u].profilePicture else "")
    {
      var recs := db.AttendeesOf(eventId);
      map u | u in recs :: Attendee(u, recs[u].username, recs[u].xp,
                                    if u in db.users then db.users[u].profilePicture else "")
    }
  }
}
