# phunction events — a Dafny model of the core

phunction is a small social-events web app. Users create events and join other users' events.
They earn XP for joining, and the creator earns a bonus when an event reaches five attendees.
Titles and levels are derived from XP. Events may run a "counter" game with a leaderboard.
This project models the logic of that core in Dafny and proves what it promises:

- **Levelling** (`Leveling`): level, XP for the next level, progress, titles and title colours.
- **Document store** (`Store`): the users and events collections, and each event's attendees
  subcollection, held as maps in a `DocumentStore` class. The operations update these maps in place.
- **Event repository** (`EventRepository`): create, join, leave, edit and delete events. It also
  covers the XP awards, the counter-game writes, the attendee XP caches and the reads the services use.
- **User service** (`UserService`): account creation, the attended and created lists, and the XP
  update with its fan-out into every attendee record of the user.
- **Event service** (`EventService`): event creation through the service, which re-checks the
  signed-in user and lists the new event as created.
- **Counter game** (`CounterGame`): the leaderboard effect (filter, decorate, stable sort, places),
  the +/- handlers and the place icons.
- **Dashboard** (`Dashboard`): the per-tab event selection. This includes the `Map` de-duplication by
  id, with both its key order and its last-value-wins rule, and the date sorts.
- **Event page** (`EventDetails`): the creator test, the join prompt, the leave button, the
  spots-left label, and the join and leave handlers over the store.
- **Create-event form** (`CreateEventForm`): the schema as the exact list of broken rules, the
  defaults, the spots input and the `HH:mm` time.
- **Shared pieces**: a stable insertion sort used by both the leaderboard and the dashboard
  (`StableSort`, a functional specification plus an in-place array version), decimal text of
  integers (`Decimal`), and `Option`/`Result`/`Outcome` (`Wrappers`).

Every store operation is a method on the class that owns it. Each method states the whole new
state of the store: the users, events and attendees maps. Error paths return `Err`/`Fail` with
the source's message and leave the store unchanged where the source throws before writing.
Clock values (`now`, the instant the schema was built, the instant the form was opened, the
local time-zone offset, one value per call) and generated document ids are parameters.

## Model

| member | source | states |
|---|---|---|
| Leveling.LevelFromXP | src/utils/leveling.ts:1-3 | the level is the unique L with 100·L ≤ xp < 100·(L+1) (floor division) |
| Leveling.LevelIsUnique | src/utils/leveling.ts:1-3 | any level meeting those bounds is getLevelFromXP's result |
| Leveling.LevelMonotone | src/utils/leveling.ts:1-3 | more XP never means a lower level |
| Leveling.XPForNextLevel | src/utils/leveling.ts:5-8 | the result is the next multiple of 100 strictly above xp, at most 100 above it, and it lies exactly one level up |
| Leveling.XPProgress | src/utils/leveling.ts:10-16 | progress is clamped to [0, 100] |
| Leveling.XPProgressIsRemainder | src/utils/leveling.ts:10-16 | for whole XP, progress equals xp mod 100, so it stays below 100 and the clamp never applies |
| Leveling.UserTitle | src/utils/leveling.ts:18-25 | every level gets one of the six titles |
| Leveling.UserTitleByDecade | src/utils/leveling.ts:18-25 | reference definition: one tier per ten levels, Bronze below level 10 (negative levels included), Grandmaster from level 50 |
| Leveling.UserTitleMonotone | src/utils/leveling.ts:18-25 | a higher level never gives a lower tier |
| Leveling.TierOf | src/utils/leveling.ts:18-25 | the tier index names the title in tier order |
| Leveling.TitleColor | src/utils/leveling.ts:27-44 | the default grey is returned exactly for strings that are not one of the six titles |
| Leveling.TitleColorsDistinct | src/utils/leveling.ts:27-44 | the six titles get six pairwise distinct colours |
| CounterGame.FindAttendee | src/components/CounterGame.tsx:61 | finds an attendee exactly when some attendee has the uid, and returns the first such attendee |
| CounterGame.DisplayName | src/components/CounterGame.tsx:64 | the shown name is never empty; a uid that is not an attendee shows "Unknown User" |
| CounterGame.Candidates | src/components/CounterGame.tsx:58-68 | rows are the decorated participants that are current attendees, every such participant gives a row, and there are no more rows than participants |
| CounterGame.CompareAgreesWithRankKey | src/components/CounterGame.tsx:71-79 | the comparator's sign matches the lexicographic order of (completion, −count), in all three cases |
| CounterGame.WithPlaces | src/components/CounterGame.tsx:82-84 | the length is kept and row i is the input row i with place i + 1, every other field unchanged |
| CounterGame.ComputeLeaderboard | src/components/CounterGame.tsx:54-87 | the effect (filter, decorate, in-place array sort, numbering) yields the leaderboard specification |
| CounterGame.AssignPlaces | src/components/CounterGame.tsx:82-84 | the in-place numbering gives the rows their places and changes nothing else |
| CounterGame.LeaderboardMembers | src/components/CounterGame.tsx:58-87 | the board is a permutation of the candidate rows; each row is an attendee, has the host flag exactly for the creator, and has its attendee's display name |
| CounterGame.LeaderboardOrder | src/components/CounterGame.tsx:71-79 | completed rows come before incomplete ones; within the same completion status, counts never increase down the board |
| CounterGame.LeaderboardStable | src/components/CounterGame.tsx:71-79 | rows the comparator ties keep their Object.entries order |
| CounterGame.PlaceIconFor | src/components/CounterGame.tsx:109-120 | places 1, 2 and 3 get an icon; every other place is shown as its number |
| CounterGame.PodiumIcons | src/components/CounterGame.tsx:82-84 | on the board, exactly rows 0, 1 and 2 show trophy, medal and award; later rows show their place number |
| CounterGame.CountChange | src/components/CounterGame.tsx:89-97 | a write is requested exactly when a user is signed in, game data is loaded and the user has an entry; the count moves by one and the goal is passed through |
| CounterGame.GoalChange | src/components/CounterGame.tsx:99-107 | the same guard; the goal moves by one and the count is passed through |
| CounterGame.PressStored | src/components/CounterGame.tsx:89-107 | a press stores, for the pressing user only, the count (or goal) one step up or down clamped to [0, 1000] by the repository's write, with the other value kept |
| StableSort.InsertLast | src/components/CounterGame.tsx:71-79 | inserting adds exactly the element (as a multiset) |
| StableSort.Sort | src/presentation/pages/Dashboard.tsx:151 | the sort is a permutation of its input |
| StableSort.SortIsSorted | src/presentation/pages/Dashboard.tsx:151 | the result is ordered by key |
| StableSort.SortIsStable | src/presentation/pages/Dashboard.tsx:157 | for each key, the elements with that key keep their input order |
| StableSort.SortInPlace | src/components/CounterGame.tsx:71 | the in-place array sort leaves the array equal to the sort specification of its old contents |
| StableSort.InsertInPlace | src/components/CounterGame.tsx:71 | one in-place insertion step equals InsertLast on the prefix and leaves the rest of the array untouched |
| StableSort.InsertLastSplit | src/components/CounterGame.tsx:71 | InsertLast puts the element right after the last element it does not strictly precede |
| Dashboard.DatedAfter | src/presentation/pages/Dashboard.tsx:148 | keeps exactly the events dated strictly after now, each with all of its occurrences (as a multiset) |
| Dashboard.DatedAfterAppend | src/presentation/pages/Dashboard.tsx:148 | the filter distributes over concatenation, so kept events stay in input order |
| Dashboard.DatedBefore | src/presentation/pages/Dashboard.tsx:156 | keeps exactly the events dated strictly before now, each with all of its occurrences (as a multiset) |
| Dashboard.DatedBeforeAppend | src/presentation/pages/Dashboard.tsx:156 | the filter distributes over concatenation, so kept events stay in input order |
| Dashboard.DedupeById | src/presentation/pages/Dashboard.tsx:145-150 | the Map's values have distinct ids and exactly the input's ids |
| Dashboard.DedupeKeepsFirstOrder | src/presentation/pages/Dashboard.tsx:145-150 | the ids come in the order in which they first occur in the input (Map insertion order) |
| Dashboard.DedupeKeepsLastValue | src/presentation/pages/Dashboard.tsx:145-150 | each entry is the last input event with its id (a later set replaces the value) |
| Dashboard.DedupeMembers | src/presentation/pages/Dashboard.tsx:161 | every entry comes from the input |
| Dashboard.SortKeepsIds | src/presentation/pages/Dashboard.tsx:151 | sorting keeps the set of ids and keeps them distinct |
| Dashboard.UpcomingSelection | src/presentation/pages/Dashboard.tsx:142-152 | 'upcoming' holds created and attended events after now, each id once, every such id present, in ascending date order |
| Dashboard.AttendedSelection | src/presentation/pages/Dashboard.tsx:153-158 | 'attended' is a permutation of the attended events before now (duplicates kept), in descending date order |
| Dashboard.AllSelection | src/presentation/pages/Dashboard.tsx:159-162 | 'all' holds created and attended events, each id once, every id present, with no date filter |
| Dashboard.NowIsInNeither | src/presentation/pages/Dashboard.tsx:148-156 | an event dated exactly now is in neither 'upcoming' nor 'attended' |
| Dashboard.EventCardsFor | src/presentation/pages/Dashboard.tsx:131-181 | loading renders nothing; an empty selection renders exactly the tab's message; otherwise one card per selected event, in order |
| Decimal.NatRoundTrip | src/presentation/pages/EventDetails.tsx:511 | reading back the decimal text of a natural number gives the number |
| Decimal.IntRoundTrip | src/presentation/pages/EventDetails.tsx:511 | reading back the text of a whole number gives the number; the text starts with '-' exactly for negatives |
| Decimal.Pad2 | src/presentation/pages/CreateEvent.tsx:71 | two digits whose value is the number |
| Store.AppendIfAbsent | src/infrastructure/repositories/FirebaseEventRepository.ts:222-226 | the id is present afterwards, at most one element is added, and the old list is kept as a prefix |
| Store.AppendIfAbsentIdempotent | src/application/services/UserService.ts:72-82 | adding an id twice is adding it once; a duplicate-free list stays duplicate-free |
| Store.AwardXP | src/infrastructure/repositories/FirebaseEventRepository.ts:188-201 | only the user's XP grows, by the amount (a missing XP counts as 0); a missing user stays missing; nobody else changes |
| EventRepository.ClampCounter | src/infrastructure/repositories/FirebaseEventRepository.ts:456-457 | the result lies in [0, 1000], equals the value inside that range, and is 0 below it and 1000 above it |
| EventRepository.WithParticipant | src/infrastructure/repositories/FirebaseEventRepository.ts:243-249 | the field-path write creates the participants map if needed and replaces only that user's entry |
| EventRepository.MergeAttended | src/infrastructure/repositories/FirebaseEventRepository.ts:222-226 | the merge adds the event to eventsAttended once and keeps the XP, username, picture and eventsCreated of an existing document; a missing document is created with only the list |
| EventRepository.JoinAwards | src/infrastructure/repositories/FirebaseEventRepository.ts:203-251 | after a join, the joiner exists, lists the event once and has +50 XP (+150 as the creator at count 5); the creator gets +100 exactly at count 5; nobody else changes |
| EventRepository.CreatorBonusTrigger | src/infrastructure/repositories/FirebaseEventRepository.ts:231-239 | the count is 5 exactly for a new attendee joining four others, or a re-join at five |
| EventRepository.SelfJoinUsers | src/infrastructure/repositories/FirebaseEventRepository.ts:43-58 | the creator's self-join lists the event as created and attended, adds 50 XP and pays no creator bonus |
| EventRepository.ExistingEvents | src/infrastructure/repositories/FirebaseEventRepository.ts:108-126 | exactly the listed ids whose event exists, each with its stored document |
| EventRepository.ExistingEventsAppend | src/infrastructure/repositories/FirebaseEventRepository.ts:108-126 | skipping deleted events keeps the relative order |
| EventRepository.ApplyPatch | src/infrastructure/repositories/FirebaseEventRepository.ts:293 | each of title, description, date, time, location, maxSpots and gameMode is the patch's value when supplied and the stored one otherwise; the creator fields and game data are kept |
| EventRepository.FirebaseEventRepository.AwardUserXP | src/infrastructure/repositories/FirebaseEventRepository.ts:188-201 | the users become AwardXP of the old users; events and attendees are unchanged |
| EventRepository.FirebaseEventRepository.AddAttendee | src/infrastructure/repositories/FirebaseEventRepository.ts:203-251 | a missing event fails before any write; otherwise: the attendee record is overwritten, the users are as in the join awards at the observed count, and the joiner's counter entry is reset to 0/0 in counter mode |
| EventRepository.FirebaseEventRepository.CreateEvent | src/infrastructure/repositories/FirebaseEventRepository.ts:11-65 | fails without a signed-in user, or without a user document holding a username; otherwise stores the event with the creator's snapshot, lists it as created and attended, awards 50 XP, and makes the creator the only attendee |
| EventService.EventService.constructor | src/application/services/EventService.ts:8-11 | the service holds the repository and the user service, which share one store |
| EventService.EventService.CreateEvent | src/application/services/EventService.ts:13-38 | fails without a signed-in user, or without a user document holding a username, with no write; otherwise the store is exactly as the repository's creation leaves it, since listing the event as created again finds it already listed |
| EventRepository.FirebaseEventRepository.RemoveAttendee | src/infrastructure/repositories/FirebaseEventRepository.ts:253-271 | the attendee record is gone; the counter entry is removed only for an existing counter event with a participants map; the users are untouched |
| EventRepository.FirebaseEventRepository.IsUserAttending | src/infrastructure/repositories/FirebaseEventRepository.ts:273-277 | true exactly when the attendee record exists |
| EventRepository.FirebaseEventRepository.UpdateEvent | src/infrastructure/repositories/FirebaseEventRepository.ts:279-294 | "Event not found" comes first, then anyone but the signed-in creator is refused; the creator's patch is merged and nothing else changes |
| EventRepository.FirebaseEventRepository.UpdateAttendeeXP | src/infrastructure/repositories/FirebaseEventRepository.ts:397-410 | without a record nothing changes; otherwise only that record's XP is replaced |
| EventRepository.FirebaseEventRepository.InitializeCounterGame | src/infrastructure/repositories/FirebaseEventRepository.ts:412-438 | a missing or non-counter event fails; an existing entry is never altered; a new entry is written unclamped |
| EventRepository.FirebaseEventRepository.UpdateCounterGameData | src/infrastructure/repositories/FirebaseEventRepository.ts:440-460 | the same two failures; otherwise the entry becomes the count and the goal, each clamped to [0, 1000] |
| EventRepository.FirebaseEventRepository.DeleteEvent | src/infrastructure/repositories/FirebaseEventRepository.ts:129-150 | a missing event is a no-op; otherwise every attendee record and the event are deleted, and the users' lists are not cleaned |
| EventRepository.FirebaseEventRepository.GetEvent | src/infrastructure/repositories/FirebaseEventRepository.ts:152-165 | the stored event with its id, or "Event not found" |
| EventRepository.FirebaseEventRepository.GetAttendedEvents | src/infrastructure/repositories/FirebaseEventRepository.ts:93-127 | "User not found" without a document; otherwise the attended events that still exist, in list order |
| EventRepository.FirebaseEventRepository.GetUserEvents | src/infrastructure/repositories/FirebaseEventRepository.ts:76-91 | exactly the stored events created by the user, each once |
| EventRepository.FirebaseEventRepository.EventAttendees | src/infrastructure/repositories/FirebaseEventRepository.ts:167-186 | one attendee per record, with the record's username and XP and the picture of the user document ("" when it is missing) |
| UserService.WithList | src/application/services/UserService.ts:74 | replaces the chosen list and keeps the other list and the rest of the user |
| UserService.RemoveAll | src/application/services/UserService.ts:89 | removes every occurrence of the id and keeps everything else |
| UserService.RemoveAllAppend | src/application/services/UserService.ts:89 | the filter keeps the relative order |
| UserService.RemoveAllUndoesAppend | src/application/services/UserService.ts:72-92 | removing an id undoes adding it |
| UserService.WithCachedXP | src/application/services/UserService.ts:115-117 | writes the XP into the user's record of each listed event where the record exists, and changes nothing else |
| UserService.CachedXPConverges | src/application/services/UserService.ts:115-117 | afterwards every listed event caches exactly that XP for the user, and no other record changes |
| UserService.WithCachedXPIdempotent | src/application/services/UserService.ts:138-140 | writing the same XP twice changes nothing |
| UserService.WithCachedXPStep | src/application/services/UserService.ts:112-117 | one updateAttendeeXP call extends the written set; visiting an event twice equals visiting it once |
| UserService.IdSet | src/application/services/UserService.ts:112 | the ids of the combined event list |
| UserService.SyncTwice | src/application/services/UserService.ts:120-141 | running the sync twice leaves the same store as running it once |
| UserService.UserService.constructor | src/application/services/UserService.ts:12-16 | the service builds its own event service over the same store |
| UserService.UserService.SetEventService | src/application/services/UserService.ts:18-20 | the event service is replaced |
| UserService.UserService.GetUserData | src/infrastructure/repositories/FirebaseUserRepository.ts:23-38 | the stored user, or "User not found" |
| UserService.UserService.CreateUser | src/application/services/UserService.ts:26-44 | a taken username fails with no write; otherwise a fresh user with no XP and empty lists is written |
| UserService.UserService.AddEventToUser | src/application/services/UserService.ts:72-82 | "User not found" with no write; otherwise the chosen list gains the id unless it is already there |
| UserService.UserService.RemoveEventFromUser | src/application/services/UserService.ts:84-92 | "User not found" with no write; otherwise the chosen list loses every occurrence of the id |
| UserService.UserService.PushXP | src/application/services/UserService.ts:115-117 | the sequential writes over a list that may repeat events equal the by-id update |
| UserService.UserService.FanOutEvents | src/application/services/UserService.ts:108-112 | the combined list covers exactly the attended events that still exist plus the events the user created |
| UserService.UserService.UpdateUserXP | src/application/services/UserService.ts:94-118 | the errors come in the source's order; otherwise the user's XP becomes the old XP plus the change, and that new total is cached in every fanned-out record |
| UserService.UserService.SyncUserXPAcrossEvents | src/application/services/UserService.ts:120-141 | the same errors; otherwise the stored XP is cached in every fanned-out record, and users and events are untouched |
| EventDetails.IsCreator | src/presentation/pages/EventDetails.tsx:70 | true exactly when the creator is the signed-in user, and also when both are absent |
| EventDetails.JoinPromptAfterEffect | src/presentation/pages/EventDetails.tsx:103-107 | the effect only ever opens the prompt, and opens it exactly for a signed-in non-attending non-creator of a loaded event |
| EventDetails.ShowLeaveButton | src/presentation/pages/EventDetails.tsx:594 | shown exactly to attendees who are not the creator |
| EventDetails.CreatorSeesNeither | src/presentation/pages/EventDetails.tsx:103-107 | a signed-in creator of a loaded event never gets the join prompt from the effect nor the Leave button, attending or not (with the Leave button of line 594) |
| EventDetails.PromptExcludesLeaveButton | src/presentation/pages/EventDetails.tsx:103-107 | the effect never opens the join prompt while the Leave button of line 594 is shown |
| EventDetails.ViewAfterJoin | src/presentation/pages/EventDetails.tsx:103-107 | in the state a successful join leaves (attending, prompt closed) the effect keeps the prompt closed, and the Leave button of line 594 shows exactly for a non-creator |
| EventDetails.ViewAfterLeave | src/presentation/pages/EventDetails.tsx:103-107 | in the state a successful leave leaves (not attending) the Leave button of line 594 is hidden, and the effect opens the prompt exactly when it was open or the leaver is not the creator |
| EventDetails.SpotsLabel | src/presentation/pages/EventDetails.tsx:505-515 | no label without maxSpots; otherwise exactly "No spots left" when the count equals maxSpots and "<left>/<maxSpots> spots left", left being maxSpots minus the count, otherwise; a stored 0 gives "0" |
| EventDetails.SpotsLabelLeft | src/presentation/pages/EventDetails.tsx:509-511 | the label's first number reads back as the spots left, and it is negative exactly when the event is overbooked |
| EventDetails.JoinedListed | src/presentation/pages/EventDetails.tsx:173-181 | after addAttendee, the user service's append finds the event already listed |
| EventDetails.JoinedUser | src/presentation/pages/EventDetails.tsx:170-181 | the joiner's list gains the event once and the joiner's XP grows by 50 (150 as the creator at count 5); others are unchanged apart from the creator |
| EventDetails.JoinError | src/presentation/pages/EventDetails.tsx:170-178 | the join fails exactly when the user or the event is missing, and the user is checked first |
| EventDetails.JoinedXPGap | src/presentation/pages/EventDetails.tsx:170-181 | right after a join, the stored XP is 50 above the XP cached in the record (150 as the creator at count 5) |
| EventDetails.EventDetailsPage.constructor | src/presentation/pages/EventDetails.tsx:21-44 | the page starts with no event, no attendees, no prompts and no error |
| EventDetails.EventDetailsPage.HandleJoinEvent | src/presentation/pages/EventDetails.tsx:162-200 | without a user, id or event nothing happens; a failure leaves its message and the store unchanged; a success leaves the users, events and attendees maps exactly as a join does (JoinedInStore), reloads the attendees, marks the page attending and closes the join prompt; the event and the leave prompt are kept, and on failure the attendees, attendance and join prompt too |
| EventDetails.EventDetailsPage.ShowJoined | src/presentation/pages/EventDetails.tsx:183-187 | the page after a successful join: no error, the reloaded attendees, attending, join prompt closed, with the event and the leave prompt kept |
| EventDetails.EventDetailsPage.JoinInStore | src/presentation/pages/EventDetails.tsx:170-181 | fails exactly with JoinError's message and no write; otherwise the users, events and attendees maps are exactly as a join leaves them: the joiner's record, the Counter participant at 0/0, the merged list and the XP awards |
| EventDetails.EventDetailsPage.HandleLeaveEvent | src/presentation/pages/EventDetails.tsx:202-232 | the attendee record is removed even when the user document is missing (then "User not found"); otherwise the event leaves the attended list, every other user document and the events map are kept, and the page stops attending and closes the leave prompt; the event, the attendees and the join prompt are always kept, and on failure the attendance and the leave prompt too |
| CreateEventForm.BrokenAmong | src/presentation/pages/CreateEvent.tsx:26-41 | reports exactly the broken rules among those given |
| CreateEventForm.ValidIff | src/presentation/pages/CreateEvent.tsx:26-41 | the schema accepts exactly: a name of 3 to 24 characters, a date no earlier than the schema, a location, a description, no spot limit or at least one spot, and one of the three game modes |
| CreateEventForm.IssuesAreExact | src/presentation/pages/CreateEvent.tsx:26-41 | each rule is reported exactly when it is broken |
| CreateEventForm.Defaults | src/presentation/pages/CreateEvent.tsx:51-62 | the default game mode is "none" and there is no spot limit |
| CreateEventForm.DefaultsIssues | src/presentation/pages/CreateEvent.tsx:51-62 | the untouched form is refused for its name, location and description, and for its date only if opened before the schema was built |
| CreateEventForm.MaxSpotsFromInput | src/presentation/pages/CreateEvent.tsx:209 | an empty field means no limit; anything else is the number typed |
| CreateEventForm.MaxSpotsInputRoundTrip | src/presentation/pages/CreateEvent.tsx:209 | typing the decimal text of a number gives that number |
| CreateEventForm.MinuteOfDay | src/presentation/pages/CreateEvent.tsx:70-71 | the local minute of the day lies in [0, 1440) |
| CreateEventForm.FormatTime | src/presentation/pages/CreateEvent.tsx:71 | five characters with ':' in the middle |
| CreateEventForm.FormatTimeRoundTrip | src/presentation/pages/CreateEvent.tsx:70-71 | parsing the stored time gives the instant's local hour and minute |
| CreateEventForm.FormatTimeDaily | src/presentation/pages/CreateEvent.tsx:70-71 | under the same zone offset, the instant a day later formats to the same clock time |

## Left out

- Firestore and Storage I/O become the in-memory `DocumentStore`. Image upload and deletion are left out; the image URL of a new event is a parameter.
- The `createdAt` and `lastUpdated` timestamps are not modelled, and neither are their `toDate` conversions in `getUserData` (src/infrastructure/repositories/FirebaseUserRepository.ts:35-36).
- UserService.UserService.GetUserData: returns `Ok` for every existing document. In the source, `data.createdAt.toDate()` throws a TypeError on a document without `createdAt`. A document created by `addAttendee`'s merge (src/infrastructure/repositories/FirebaseEventRepository.ts:223-226) has none. So on a merge-created user, `getUserData` and everything built on it throws where the model succeeds: `AddEventToUser`, `RemoveEventFromUser`, `UpdateUserXP`, `SyncUserXPAcrossEvents` and `JoinInStore`. The engine's TypeError text is not modelled.
- The live subscriptions (`subscribeToEventAttendees`, `subscribeToUserEvents`, `subscribeToAttendedEvents`, `subscribeToCounterGameData`) are listeners and are left out. They do not read exactly as the modelled getters. `subscribeToEventAttendees` takes each attendee's XP from the user document, falling back to the record's cached XP and then 0 (src/infrastructure/repositories/FirebaseEventRepository.ts:317); the getter returns the cached XP. `subscribeToAttendedEvents` calls back with [] for a missing user document (src/infrastructure/repositories/FirebaseEventRepository.ts:363), where the getter fails. The event page's attendee list comes from that subscription (src/presentation/pages/EventDetails.tsx:93); `EventDetailsPage.attendees` holds the getter's reads instead.
- `Promise.all` fan-outs run one write after another. Interleavings of concurrent handlers, and races between reads and writes, are not modelled.
- Leveling.XPProgress: computed over the reals; IEEE rounding of the division is not modelled.
- CreateEventForm.Message: the validation library's own message for an out-of-enum game mode is not modelled.
- String lengths are counted in characters; UTF-16 code units for characters outside the basic plane are not modelled.
- CreateEventForm.MaxSpotsFromInput: requires "" or whole-number text. Fractional and exponent input, which `Number` also reads, is not modelled.
- EventRepository.FirebaseEventRepository.EventAttendees: returns a map by uid, so the order of the attendee list is not modelled.
- EventRepository.FirebaseEventRepository.GetUserEvents: the store's query order is not modelled; only membership and uniqueness are stated.
- EventRepository.ApplyPatch: a patch replaces top-level fields. The deep merge of a nested `gameData` patch is not modelled.
- Documents always hold every field: a missing username is modelled as "", a missing XP as 0 and a missing list as []. This is an assumption of the model. Not every reader in the source guards a missing field. `addEventToUser` and `removeEventFromUser` read `user[field]` bare (src/application/services/UserService.ts:76, 78, 89), `getEventAttendees` reads the record's `xp` bare (src/infrastructure/repositories/FirebaseEventRepository.ts:180), and `handleJoinEvent` reads `username` bare (src/presentation/pages/EventDetails.tsx:175). A user document created by `addAttendee`'s merge has no `eventsCreated`. Every `getUserData` on it throws first, because it also lacks `createdAt` (see the `GetUserData` line above).
- Navigation, toasts and the `isJoining`/`isLeaving` busy flags are left out: they do not affect the store or the modelled page state.
- The page's event loading and attendance check effects, and the edit form of the event page, are not part of this model.
- The disabled state of the counter buttons is not modelled. It is rendering only, and the store clamps counts and goals itself.
- `EventService` forwards its calls unchanged to the repository, except `createEvent` and `getCurrentUserData`, so the page calls the repository directly. `createEvent` re-checks the signed-in user and then lists the event as created through the user service; it is modelled as `EventService.EventService.CreateEvent`. `getCurrentUserData` only checks the signed-in user and reads the user document, and is not modelled.
- `updateUser`, `uploadProfilePicture` and `deleteProfilePicture` are pass-throughs to storage and are not modelled.
- CounterGame: the source comment says "by count, then by goal completion", but the comparator orders by completion first. The model follows the comparator.
- CreateEventForm.MinuteOfDay: the zone offset is one value per call. Its dependence on the instant (daylight-saving changes) is not modelled, so `FormatTimeDaily` holds only for two instants under the same offset.
- CounterGame.Candidates: takes the participants as the list of their values and reads each uid from the stored `userId`, where the source filters and decorates by the `Object.entries` key (src/components/CounterGame.tsx:58-63). The two agree because every writer stores `userId` equal to the key (src/infrastructure/repositories/FirebaseEventRepository.ts:245, 433, 455). A document written otherwise is not modelled.
