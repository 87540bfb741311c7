/** The event page (src/presentation/pages/EventDetails.tsx): who counts as the creator, when
    the join prompt and the leave button appear, the spots-left text, and the join and leave
    handlers composed from the repository and user-service operations. Rendering, toasts and
    navigation are not modelled. */
module EventDetails {
  import opened Wrappers
  import opened Domain
  import opened Store
  import opened Decimal
  import opened EventRepository
  import opened UserService

  /** `event?.createdBy === auth.currentUser?.uid`: with no event loaded and nobody signed in
      both sides are undefined, so the comparison holds. */
  function IsCreator(event: Option<EventDoc>, currentUser: Option<string>): (r: bool)
    ensures event.Some? && currentUser.Some? ==> (r <==> event.value.createdBy == currentUser.value)
    ensures event.Some? != currentUser.Some? ==> !r
    ensures event.None? && currentUser.None? ==> r
  {
    (if event.Some? then Some(event.value.createdBy) else None) == currentUser
  }

  /** The effect that opens the join prompt: a signed-in visitor of a loaded event who is
      neither attending nor its creator. It only ever opens the prompt. */
  function JoinPromptAfterEffect(showJoinPrompt: bool, currentUser: Option<string>, event: Option<EventDoc>,
                                 isAttending: bool): (r: bool)
    ensures showJoinPrompt ==> r
    ensures !showJoinPrompt ==>
              (r <==> currentUser.Some? && event.Some? && !isAttending && event.value.createdBy != currentUser.value)
  {
    showJoinPrompt || (currentUser.Some? && event.Some? && !isAttending && !IsCreator(event, currentUser))
  }

  /** The Leave button: shown to attendees who are not the creator. */
  function ShowLeaveButton(isCreator: bool, isAttending: bool): (r: bool)
    ensures r ==> !isCreator && isAttending
    ensures isAttending && !isCreator ==> r
  {
    !isCreator && isAttending
  }

  /** The creator of a loaded event, once signed in, is never offered the join prompt by the
      effect and never sees the Leave button, attending or not. */
  lemma CreatorSeesNeither(event: EventDoc, uid: string, isAttending: bool)
    requires event.createdBy == uid
    ensures !JoinPromptAfterEffect(false, Some(uid), Some(event), isAttending)
    ensures !ShowLeaveButton(IsCreator(Some(event), Some(uid)), isAttending)
  {
  }

  /** The page after a successful join (attending, prompt closed): the effect keeps the prompt
      closed, and the Leave button is shown exactly when the joiner is not the creator. */
  lemma ViewAfterJoin(event: EventDoc, uid: string)
    ensures !JoinPromptAfterEffect(false, Some(uid), Some(event), true)
    ensures ShowLeaveButton(IsCreator(Some(event), Some(uid)), true) <==> event.createdBy != uid
  {
  }

  /** The page after a successful leave (not attending): the Leave button is hidden, and the
      effect opens the join prompt exactly when it was open or the leaver is not the creator. */
  lemma ViewAfterLeave(event: EventDoc, uid: string, showJoinPrompt: bool)
    ensures !ShowLeaveButton(IsCreator(Some(event), Some(uid)), false)
    ensures JoinPromptAfterEffect(showJoinPrompt, Some(uid), Some(event), false) <==>
              showJoinPrompt || event.createdBy != uid
  {
  }

  /** The effect never opens the join prompt while the Leave button is shown. */
  lemma PromptExcludesLeaveButton(currentUser: Option<string>, event: Option<EventDoc>, isAttending: bool)
    ensures !(JoinPromptAfterEffect(false, currentUser, event, isAttending)
              && ShowLeaveButton(IsCreator(event, currentUser), isAttending))
  {
  }

  /** The spots block: nothing without maxSpots; a stored 0 is falsy, so React renders the
      number itself ("0") instead of the block; otherwise "No spots left" when the count of
      attendees equals maxSpots, else "{left}/{maxSpots} spots left", where left is negative
      when the event is overbooked, since joining checks no capacity. */
  function SpotsLabel(maxSpots: Option<int>, attendeeCount: nat): (r: Option<string>)
    ensures r.None? <==> maxSpots.None?
    ensures r == Some("0") <==> maxSpots == Some(0)
    ensures r == Some("No spots left") <==> maxSpots.Some? && maxSpots.value != 0 && maxSpots.value == attendeeCount
    ensures maxSpots.Some? && maxSpots.value != 0 && maxSpots.value != attendeeCount ==>
              r == Some(IntToString(maxSpots.value - attendeeCount) + "/" + IntToString(maxSpots.value) + " spots left")
  {
    if maxSpots.None? then None
    else if maxSpots.value == 0 then Some("0")
    else
      var left := maxSpots.value - attendeeCount;
      if left == 0 then Some("No spots left")
      else
        var text := IntToString(left) + "/" + IntToString(maxSpots.value) + " spots left";
        assert text != "No spots left" && text != "0" by {
          assert text[0] == IntToString(left)[0];
          if left > 0 {
            assert IsDigit(text[0]);
          }
          assert |text| > 1;
        }
        Some(text)
  }

  /** Reading the label's first number back gives the spots left, and it is negative exactly
      when more attendees than spots have joined. */
  lemma SpotsLabelLeft(maxSpots: int, attendeeCount: nat)
    requires maxSpots != 0 && maxSpots != attendeeCount
    ensures var text := SpotsLabel(Some(maxSpots), attendeeCount).value;
            var k := |IntToString(maxSpots - attendeeCount)|;
            && k < |text| && text[k] == '/'
            && ParseInt(text[..k]) == Some(maxSpots - attendeeCount)
            && (text[0] == '-' <==> attendeeCount > maxSpots)
  {
    var left := maxSpots - attendeeCount;
    var text := SpotsLabel(Some(maxSpots), attendeeCount).value;
    assert text[..|IntToString(left)|] == IntToString(left);
    IntRoundTrip(left);
  }

  /** After the join the joiner's attended list already holds the event, so adding it again
      leaves the document as it is. */
  lemma JoinedListed(users: map<string, UserDoc>, uid: string, eid: string, creator: string, count: nat)
    ensures var r := UsersAfterJoin(users, uid, eid, creator, count);
            uid in r && AppendIfAbsent(r[uid].eventsAttended, eid) == r[uid].eventsAttended
  {
    JoinAwards(users, uid, eid, creator, count);
  }

  /** What a successful join leaves in the joiner's user document: the event once at the end
      of eventsAttended (at most once if it was never listed twice) and 50 more XP, 150 when
      the joiner is the creator and becomes the fifth attendee; no other document changes but
      the creator's. */
  lemma JoinedUser(users: map<string, UserDoc>, uid: string, eid: string, creator: string, count: nat)
    requires uid in users
    ensures var r := UsersAfterJoin(users, uid, eid, creator, count);
            && uid in r
            && r[uid].eventsAttended == AppendIfAbsent(users[uid].eventsAttended, eid)
            && (NoDuplicates(users[uid].eventsAttended) ==> NoDuplicates(r[uid].eventsAttended))
            && r[uid].xp == users[uid].xp + JoinBonus + (if uid == creator && count == CreatorBonusCount then CreatorBonus else 0)
            && (forall u :: u in users && u != uid && u != creator ==> r[u] == users[u])
  {
    JoinAwards(users, uid, eid, creator, count);
    AppendIfAbsentIdempotent(users[uid].eventsAttended, eid);
  }

  /** The message a join fails with: the user document is read first, then the event. */
  function JoinError(users: map<string, UserDoc>, events: map<string, EventDoc>, uid: string, eid: string)
    : (r: Option<string>)
    ensures r.None? <==> uid in users && eid in events
  {
    if uid !in users then Some("User not found")
    else if eid !in events then Some("Event not found")
    else None
  }

  /** The store after a successful join of `uid` to `eid`: the joiner's attendee record holds
      the username, XP and picture read before the join, no other attendee record changes, the
      users are those addAttendee leaves (the attended-list append that follows changes
      nothing), and in counter mode the joiner's counter entry is reset to 0/0. */
  predicate JoinedInStore(users0: map<string, UserDoc>, events0: map<string, EventDoc>,
                          att0: map<string, map<string, AttendeeRecord>>,
                          users: map<string, UserDoc>, events: map<string, EventDoc>,
                          att: map<string, map<string, AttendeeRecord>>, uid: string, eid: string)
  {
    && uid in users0 && eid in events0
    && att == AttendeesAfterJoin(users0, att0, uid, eid)
    && users == UsersAfterJoin(users0, uid, eid, events0[eid].createdBy, |att[eid]|)
    && events == EventsAfterJoin(events0, uid, eid)
  }

  /** The attendee records after addAttendee: the joiner's record, with the username, XP and
      picture read from their document, is set in the event's attendees. */
  function AttendeesAfterJoin(users0: map<string, UserDoc>, att0: map<string, map<string, AttendeeRecord>>,
                              uid: string, eid: string): map<string, map<string, AttendeeRecord>>
    requires uid in users0
  {
    var user := users0[uid];
    att0[eid := (if eid in att0 then att0[eid] else map[])[uid := AttendeeRecord(user.username, user.xp, user.profilePicture)]]
  }

  /** The events after addAttendee: a Counter event gains the joiner at 0/0; others are kept. */
  function EventsAfterJoin(events0: map<string, EventDoc>, uid: string, eid: string): map<string, EventDoc>
    requires eid in events0
  {
    var ev := events0[eid];
    if ev.gameMode == Counter then events0[eid := WithParticipant(ev, CounterGameData(uid, 0, 0))] else events0
  }

  /** Right after a successful join the joiner's stored XP is 50 above the XP cached in the
      attendee record (150 when the joiner is the creator and the fifth attendee), the event is
      in the attended list once, and no document changed but the joiner's and the creator's. */
  lemma JoinedXPGap(users0: map<string, UserDoc>, events0: map<string, EventDoc>,
                    att0: map<string, map<string, AttendeeRecord>>,
                    users: map<string, UserDoc>, events: map<string, EventDoc>,
                    att: map<string, map<string, AttendeeRecord>>, uid: string, eid: string)
    requires JoinedInStore(users0, events0, att0, users, events, att, uid, eid)
    ensures uid in users && eid in att && uid in att[eid]
    ensures users[uid].xp == att[eid][uid].xp + JoinBonus
              + (if uid == events0[eid].createdBy && |att[eid]| == CreatorBonusCount then CreatorBonus else 0)
    ensures users[uid].eventsAttended == AppendIfAbsent(users0[uid].eventsAttended, eid)
    ensures NoDuplicates(users0[uid].eventsAttended) ==> NoDuplicates(users[uid].eventsAttended)
    ensures forall u :: u in users0 && u != uid && u != events0[eid].createdBy ==> users[u] == users0[u]
  {
    JoinedUser(users0, uid, eid, events0[eid].createdBy, |att[eid]|);
  }

  /** The page state the two handlers touch. The event service calls the handlers make
      (addAttendee, removeAttendee, getEventAttendees) forward unchanged to the repository, so
      the page holds the repository and the user service; both use the one store. */
  class EventDetailsPage {
    const repository: FirebaseEventRepository
    const userService: UserService
    const eventId: Option<string>
    const currentUser: Option<string>
    var event: Option<EventDoc>
    var attendees: map<string, Attendee>
    var isAttending: bool
    var showJoinPrompt: bool
    var showLeavePrompt: bool
    var error: Option<string>

    predicate Valid() {
      repository.db == userService.db
    }

    /** `currentUser && eventId && event`: the guard both handlers start with. */
    predicate Ready()
      reads this
    {
      currentUser.Some? && eventId.Some? && event.Some?
    }

    constructor (repository: FirebaseEventRepository, userService: UserService, eventId: Option<string>,
                 currentUser: Option<string>)
      requires repository.db == userService.db
      ensures Valid()
      ensures this.repository == repository && this.userService == userService
      ensures this.eventId == eventId && this.currentUser == currentUser
      ensures event == None && attendees == map[] && !isAttending && !showJoinPrompt && !showLeavePrompt && error == None
    {
      this.repository := repository;
      this.userService := userService;
      this.eventId := eventId;
      this.currentUser := currentUser;
      event := None;
      attendees := map[];
      isAttending := false;
      showJoinPrompt := false;
      showLeavePrompt := false;
      error := None;
    }

    /** handleJoinEvent: reads the user, joins with the XP read before the join bonus, adds the
        event to the user's attended list, reloads the attendees and marks the page attending.
        A failed step leaves its message in `error` and the store as it was. Nothing compares
        the attendee count with maxSpots. */
    method HandleJoinEvent()
      requires Valid()
      modifies this, repository.db
      ensures Valid() && event == old(event) && showLeavePrompt == old(showLeavePrompt)
      ensures !old(Ready()) ==> unchanged(this) && unchanged(repository.db)
      ensures old(Ready()) ==>
                var uid, eid := currentUser.value, eventId.value;
                && error == JoinError(old(repository.db.users), old(repository.db.events), uid, eid)
                && (error.Some? ==>
                      && unchanged(repository.db) && attendees == old(attendees)
                      && isAttending == old(isAttending) && showJoinPrompt == old(showJoinPrompt))
                && (error.None? ==>
                      && isAttending && !showJoinPrompt
                      && attendees == repository.EventAttendees(eid)
                      && JoinedInStore(old(repository.db.users), old(repository.db.events), old(repository.db.attendees),
                                       repository.db.users, repository.db.events, repository.db.attendees, uid, eid))
    {
      if Ready() {
        var joined := JoinInStore(currentUser.value, eventId.value);
        if joined.Fail? {
          error := Some(joined.message);
        } else {
          ShowJoined(eventId.value);
        }
      }
    }

    /** The page updates of a successful join: the error is cleared, the attendees are reloaded,
        the page is marked attending and the join prompt closes. */
    method ShowJoined(eid: string)
      modifies this
      ensures error == None && isAttending && !showJoinPrompt && attendees == repository.EventAttendees(eid)
      ensures event == old(event) && showLeavePrompt == old(showLeavePrompt)
    {
      error := None;
      isAttending := true;
      showJoinPrompt := false;
      attendees := repository.EventAttendees(eid);
    }

    /** The store side of handleJoinEvent: reading the user, adding the attendee record, listing
        the event among the user's attended events. */
    method JoinInStore(uid: string, eid: string) returns (r: Outcome)
      requires Valid()
      modifies repository.db
      ensures r.Fail? <==> JoinError(old(repository.db.users), old(repository.db.events), uid, eid).Some?
      ensures r.Fail? ==>
                r.message == JoinError(old(repository.db.users), old(repository.db.events), uid, eid).value
                && unchanged(repository.db)
      ensures r.Pass? ==>
                JoinedInStore(old(repository.db.users), old(repository.db.events), old(repository.db.attendees),
                              repository.db.users, repository.db.events, repository.db.attendees, uid, eid)
    {
      var userDoc := userService.GetUserData(uid);
      if userDoc.Err? {
        return Fail(userDoc.message);
      }
      var joined := repository.AddAttendee(eid, Attendee(uid, userDoc.value.username, userDoc.value.xp,
                                                          userDoc.value.profilePicture));
      if joined.Fail? {
        return joined;
      }
      ghost var joinedUsers: map<string, UserDoc> := repository.db.users;
      JoinedListed(old(repository.db.users), uid, eid, old(repository.db.events[eid]).createdBy,
                   |repository.db.AttendeesOf(eid)|);
      var added := userService.AddEventToUser(uid, eid, Attended);
      assert joinedUsers[uid := WithList(joinedUsers[uid], Attended, joinedUsers[uid].eventsAttended)] == joinedUsers;
      return Pass;
    }

    /** handleLeaveEvent: removes the attendee record, then the event from the user's attended
        list, and marks the page not attending. */
    method HandleLeaveEvent()
      requires Valid()
      modifies this, repository.db
      ensures Valid() && event == old(event) && attendees == old(attendees) && showJoinPrompt == old(showJoinPrompt)
      ensures currentUser.None? || eventId.None? || old(event).None? ==>
                unchanged(this) && unchanged(repository.db)
      ensures currentUser.Some? && eventId.Some? && old(event).Some? ==>
                var uid, eid := currentUser.value, eventId.value;
                var db := repository.db;
                && uid !in db.AttendeesOf(eid)
                && db.attendees == old(db.attendees)[eid := old(db.AttendeesOf(eid)) - {uid}]
                && (uid !in old(db.users) ==>
                      && error == Some("User not found") && db.users == old(db.users)
                      && isAttending == old(isAttending) && showLeavePrompt == old(showLeavePrompt))
                && (eid in old(db.events) && old(db.events[eid]).gameMode == Counter && old(db.events[eid]).participants.Some? ==>
                      db.events == old(db.events)[eid := old(db.events[eid]).(
                        participants := Some(old(db.events[eid]).participants.value - {uid}))])
                && (!(eid in old(db.events) && old(db.events[eid]).gameMode == Counter && old(db.events[eid]).participants.Some?) ==>
                      db.events == old(db.events))
                && (uid in old(db.users) ==>
                      && error == None && !isAttending && !showLeavePrompt
                      && uid in db.users && eid !in db.users[uid].eventsAttended
                      && db.users == old(db.users)[uid := old(db.users[uid]).(
                           eventsAttended := RemoveAll(old(db.users[uid]).eventsAttended, eid))])
    {
      if currentUser.None? || eventId.None? || event.None? {
        return;
      }
      var uid, eid := currentUser.value, eventId.value;
      error := None;
      repository.RemoveAttendee(eid, uid);
      var removed := userService.RemoveEventFromUser(uid, eid, Attended);
      if removed.Fail? {
        error := Some(removed.message);
        return;
      }
      isAttending := false;
      showLeavePrompt := false;
    }
  }
}
