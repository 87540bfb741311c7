/** The event service (src/application/services/EventService.ts). Every method but createEvent
    and getCurrentUserData forwards its call unchanged to the repository. createEvent checks
    the signed-in user itself, creates the event through the repository and then lists it
    among the user's created events through the user service. */
module EventService {
  import opened Wrappers
  import opened Domain
  import opened Store
  import opened EventRepository
  import opened UserService

  class EventService {
    const repository: FirebaseEventRepository
    const userService: UserService

    /** The repository and the user service work on the same store. */
    predicate Valid() {
      repository.db == userService.db
    }

    constructor (repository: FirebaseEventRepository, userService: UserService)
      requires repository.db == userService.db
      ensures this.repository == repository && this.userService == userService && Valid()
    {
      this.repository := repository;
      this.userService := userService;
    }

    /** createEvent (image upload aside): the same two failures as the repository's, then the
        repository's creation; the addEventToUser call that follows finds the id already
        listed, so the store is exactly as the repository left it. */
    method CreateEvent(input: EventInput, imageUrl: Option<string>, currentUser: Option<string>, newId: string)
      returns (r: Result<Event>)
      requires Valid()
      requires newId !in repository.db.events && newId !in repository.db.attendees
      modifies repository.db
      ensures currentUser.None? ==>
                r == Err("User must be authenticated to create an event") && unchanged(repository.db)
      ensures currentUser.Some? && (currentUser.value !in old(repository.db.users)
                                    || old(repository.db.users[currentUser.value]).username == "") ==>
                r == Err("User data not found") && unchanged(repository.db)
      ensures currentUser.Some? && currentUser.value in old(repository.db.users)
              && old(repository.db.users[currentUser.value]).username != "" ==>
                CreatedInStore(old(repository.db.users), old(repository.db.events), old(repository.db.attendees),
                               repository.db.users, repository.db.events, repository.db.attendees,
                               input, imageUrl, currentUser.value, newId, r)
    {
      if currentUser.None? {
        return Err("User must be authenticated to create an event");
      }
      r := repository.CreateEvent(input, imageUrl, currentUser, newId);
      if r.Err? {
        return;
      }
      var uid := currentUser.value;
      ghost var created := repository.db.users;
      AppendIfAbsentIdempotent(old(repository.db.users[uid]).eventsCreated, newId);
      assert created[uid := WithList(created[uid], Created, created[uid].eventsCreated)] == created;
      var listed := userService.AddEventToUser(uid, r.value.id, Created);
    }
  }
}
