/** The counter-game component (src/components/CounterGame.tsx): the leaderboard derived from the
    event's counter participants and the current attendee list, the +/- handlers that request a
    counter write, and the place icons. */
module CounterGame {
  import opened Wrappers
  import opened Domain
  import StableSort
  import EventRepository

  /** The component's `attendees` prop: the uid and username of each current attendee. */
  datatype AttendeeInfo = AttendeeInfo(uid: string, username: string)

  /** A leaderboard row: the participant's counter data decorated with name, place and host flag. */
  datatype LeaderboardEntry =
    LeaderboardEntry(userId: string, count: int, goal: int, username: string, place: int, isHost: bool)

  const UnknownUser: string := "Unknown User"

  /** `attendees.some(a => a.uid === uid)` */
  predicate IsAttendee(attendees: seq<AttendeeInfo>, uid: string) {
    exists i :: 0 <= i < |attendees| && attendees[i].uid == uid
  }

  /** `attendees.find(a => a.uid === uid)`: the first attendee with that uid. */
  function FindAttendee(attendees: seq<AttendeeInfo>, uid: string): (r: Option<AttendeeInfo>)
    ensures r.Some? <==> IsAttendee(attendees, uid)
    ensures r.Some? ==> exists i :: 0 <= i < |attendees| && attendees[i] == r.value && attendees[i].uid == uid
                                   && forall j :: 0 <= j < i ==> attendees[j].uid != uid
  {
    if attendees == [] then None
    else if attendees[0].uid == uid then Some(attendees[0])
    else
      var r := FindAttendee(attendees[1..], uid);
      assert IsAttendee(attendees[1..], uid) ==> IsAttendee(attendees, uid);
      assert IsAttendee(attendees, uid) ==> IsAttendee(attendees[1..], uid) by {
        if IsAttendee(attendees, uid) {
          var i :| 0 <= i < |attendees| && attendees[i].uid == uid;
          assert attendees[1..][i - 1].uid == uid;
        }
      }
      if r.Some? then
        assert exists i :: 0 <= i < |attendees| && attendees[i] == r.value && attendees[i].uid == uid
                           && forall j :: 0 <= j < i ==> attendees[j].uid != uid by {
          var i :| 0 <= i < |attendees[1..]| && attendees[1..][i] == r.value && attendees[1..][i].uid == uid
                   && forall j :: 0 <= j < i ==> attendees[1..][j].uid != uid;
          assert attendees[i + 1] == r.value;
          forall j | 0 <= j < i + 1 ensures attendees[j].uid != uid {
            if j > 0 { assert attendees[j] == attendees[1..][j - 1]; }
          }
        }
        r
      else r
  }

  /** `attendee?.username || 'Unknown User'`: the fallback also covers an empty username. */
  function DisplayName(attendees: seq<AttendeeInfo>, uid: string): (name: string)
    ensures name != ""
    ensures !IsAttendee(attendees, uid) ==> name == UnknownUser
  {
    match FindAttendee(attendees, uid)
    case Some(a) => if a.username != "" then a.username else UnknownUser
    case None => UnknownUser
  }

  /** The `.map` step: the participant's data spread, then username, host flag and place 0. */
  function Decorate(d: CounterGameData, attendees: seq<AttendeeInfo>, createdBy: string): LeaderboardEntry {
    LeaderboardEntry(d.userId, d.count, d.goal, DisplayName(attendees, d.userId), 0, d.userId == createdBy)
  }

  /** The `.filter(...).map(...)` over Object.entries(participants): only current attendees,
      each decorated. Every writer of a participants entry stores userId equal to its key, so
      the entries are given as the list of values. */
  function Candidates(participants: seq<CounterGameData>, attendees: seq<AttendeeInfo>, createdBy: string)
    : (r: seq<LeaderboardEntry>)
    ensures |r| <= |participants|
    ensures forall e :: e in r ==>
              exists k :: 0 <= k < |participants| && IsAttendee(attendees, participants[k].userId)
                          && e == Decorate(participants[k], attendees, createdBy)
    ensures forall k :: 0 <= k < |participants| && IsAttendee(attendees, participants[k].userId) ==>
              Decorate(participants[k], attendees, createdBy) in r
  {
    if participants == [] then []
    else
      var init, last := participants[..|participants| - 1], participants[|participants| - 1];
      var r' := Candidates(init, attendees, createdBy);
      var r := r' + (if IsAttendee(attendees, last.userId) then [Decorate(last, attendees, createdBy)] else []);
      assert forall k :: 0 <= k < |init| ==> init[k] == participants[k];
      r
  }

  /** `count >= goal`; 0/0 counts as completed. */
  predicate Completed(e: LeaderboardEntry) {
    e.count >= e.goal
  }

  /** The sort comparator: completed before incomplete, then count descending. */
  function Compare(a: LeaderboardEntry, b: LeaderboardEntry): int {
    var aCompleted := Completed(a);
    var bCompleted := Completed(b);
    if aCompleted != bCompleted then (if bCompleted then 1 else -1)
    else b.count - a.count
  }

  /** The comparator as a lexicographic key: completion first, then the count negated. */
  function RankKey(e: LeaderboardEntry): StableSort.Key {
    (if Completed(e) then 0 else 1, -e.count)
  }

  /** The key orders entries exactly as the comparator does. */
  lemma CompareAgreesWithRankKey(a: LeaderboardEntry, b: LeaderboardEntry)
    ensures Compare(a, b) < 0 <==> StableSort.KeyLess(RankKey(a), RankKey(b))
    ensures Compare(a, b) == 0 <==> RankKey(a) == RankKey(b)
    ensures Compare(a, b) > 0 <==> StableSort.KeyLess(RankKey(b), RankKey(a))
  {
  }

  /** Every entry with its place reset to 0, the value it had before places were assigned. */
  function Unplaced(s: seq<LeaderboardEntry>): (r: seq<LeaderboardEntry>)
    ensures |r| == |s|
  {
    seq(|s|, i requires 0 <= i < |s| => s[i].(place := 0))
  }

  /** The `forEach` step: place = index + 1. */
  function WithPlaces(s: seq<LeaderboardEntry>): (r: seq<LeaderboardEntry>)
    ensures |r| == |s|
    ensures forall i :: 0 <= i < |s| ==> r[i] == s[i].(place := i + 1)
  {
    seq(|s|, i requires 0 <= i < |s| => s[i].(place := i + 1))
  }

  /** The leaderboard the effect at lines 54-87 stores. */
  function Leaderboard(participants: seq<CounterGameData>, attendees: seq<AttendeeInfo>, createdBy: string)
    : seq<LeaderboardEntry>
  {
    WithPlaces(StableSort.Sort(Candidates(participants, attendees, createdBy), RankKey))
  }

  /** The effect: filter and decorate, sort in place with the comparator, then number the rows. */
  method ComputeLeaderboard(participants: seq<CounterGameData>, attendees: seq<AttendeeInfo>, createdBy: string)
    returns (board: seq<LeaderboardEntry>)
    ensures board == Leaderboard(participants, attendees, createdBy)
  {
    var data := Candidates(participants, attendees, createdBy);
    var a := new LeaderboardEntry[|data|](i requires 0 <= i < |data| => data[i]);
    assert a[..] == data;
    StableSort.SortInPlace(a, RankKey);
    AssignPlaces(a);
    board := a[..];
  }

  /** The `forEach` that numbers the sorted rows in place. */
  method AssignPlaces(a: array<LeaderboardEntry>)
    modifies a
    ensures a[..] == WithPlaces(old(a[..]))
  {
    ghost var sorted := a[..];
    var i := 0;
    while i < a.Length
      invariant 0 <= i <= a.Length
      invariant forall k :: 0 <= k < i ==> a[k] == sorted[k].(place := k + 1)
      invariant forall k :: i <= k < a.Length ==> a[k] == sorted[k]
    {
      a[i] := a[i].(place := i + 1);
      i := i + 1;
    }
  }

  /** Rows are exactly the decorated participants that are current attendees (a permutation of
      them), each carrying its participant's count and goal, the host flag of the creator and
      the name of its attendee. */
  lemma {:induction false} LeaderboardMembers(participants: seq<CounterGameData>, attendees: seq<AttendeeInfo>, createdBy: string)
    ensures var board := Leaderboard(participants, attendees, createdBy);
            multiset(Unplaced(board)) == multiset(Candidates(participants, attendees, createdBy))
    ensures forall e :: e in Leaderboard(participants, attendees, createdBy) ==>
              && IsAttendee(attendees, e.userId)
              && (e.isHost <==> e.userId == createdBy)
              && e.username == DisplayName(attendees, e.userId)
  {
    var c := Candidates(participants, attendees, createdBy);
    var sorted := StableSort.Sort(c, RankKey);
    CandidateRows(participants, attendees, createdBy);
    SortedFrom(c);
    assert Unplaced(WithPlaces(sorted)) == sorted;
    forall e | e in WithPlaces(sorted)
      ensures IsAttendee(attendees, e.userId) && (e.isHost <==> e.userId == createdBy)
              && e.username == DisplayName(attendees, e.userId)
    {
      var i :| 0 <= i < |WithPlaces(sorted)| && WithPlaces(sorted)[i] == e;
      assert sorted[i] in sorted;
    }
  }

  /** Every decorated candidate is unplaced, an attendee, flagged as host exactly when it is
      the creator, and named after its attendee. */
  lemma CandidateRows(participants: seq<CounterGameData>, attendees: seq<AttendeeInfo>, createdBy: string)
    ensures forall e :: e in Candidates(participants, attendees, createdBy) ==>
              && e.place == 0
              && IsAttendee(attendees, e.userId)
              && (e.isHost <==> e.userId == createdBy)
              && e.username == DisplayName(attendees, e.userId)
  {
  }

  /** The sort only rearranges: every row of the result is a row of the input. */
  lemma SortedFrom(c: seq<LeaderboardEntry>)
    ensures forall e :: e in StableSort.Sort(c, RankKey) ==> e in c
  {
    forall e | e in StableSort.Sort(c, RankKey) ensures e in c {
      assert e in multiset(StableSort.Sort(c, RankKey));
    }
  }

  /** Completed rows precede incomplete rows; within one completion status counts do not
      increase down the board. */
  lemma LeaderboardOrder(participants: seq<CounterGameData>, attendees: seq<AttendeeInfo>, createdBy: string)
    ensures var board := Leaderboard(participants, attendees, createdBy);
            forall i, j :: 0 <= i < j < |board| ==>
              && (Completed(board[i]) || !Completed(board[j]))
              && (Completed(board[i]) == Completed(board[j]) ==> board[i].count >= board[j].count)
  {
    var c := Candidates(participants, attendees, createdBy);
    StableSort.SortIsSorted(c, RankKey);
  }

  /** Rows that the comparator ties keep the order of Object.entries (the sort is stable). */
  lemma LeaderboardStable(participants: seq<CounterGameData>, attendees: seq<AttendeeInfo>, createdBy: string, k: StableSort.Key)
    ensures StableSort.WithKey(Unplaced(Leaderboard(participants, attendees, createdBy)), RankKey, k)
         == StableSort.WithKey(Candidates(participants, attendees, createdBy), RankKey, k)
  {
    var c := Candidates(participants, attendees, createdBy);
    var sorted := StableSort.Sort(c, RankKey);
    assert forall e :: e in c ==> e.place == 0;
    assert forall i :: 0 <= i < |sorted| ==> sorted[i] in multiset(c);
    assert Unplaced(WithPlaces(sorted)) == sorted;
    StableSort.SortIsStable(c, RankKey, k);
  }

  /** getPlaceIcon's cases. */
  datatype PlaceIcon = Trophy | Medal | Award | Number(n: int)

  function PlaceIconFor(place: int): (icon: PlaceIcon)
    ensures icon.Number? <==> place != 1 && place != 2 && place != 3
    ensures icon.Number? ==> icon.n == place
  {
    match place
    case 1 => Trophy
    case 2 => Medal
    case 3 => Award
    case _ => Number(place)
  }

  /** On a leaderboard exactly the first three rows get an icon, in the order trophy, medal,
      award; every other row shows its place number. */
  lemma PodiumIcons(participants: seq<CounterGameData>, attendees: seq<AttendeeInfo>, createdBy: string, i: nat)
    requires i < |Leaderboard(participants, attendees, createdBy)|
    ensures var icon := PlaceIconFor(Leaderboard(participants, attendees, createdBy)[i].place);
            && (i == 0 <==> icon == Trophy)
            && (i == 1 <==> icon == Medal)
            && (i == 2 <==> icon == Award)
            && (i >= 3 <==> icon == Number(i + 1))
  {
  }

  /** The store write a +/- button requests. */
  datatype CounterWrite = CounterWrite(userId: string, count: int, goal: int)

  /** handleCountChange: nothing without a signed-in user, loaded game data and an entry of the
      user's own; otherwise the count moves by one and the goal is passed through. */
  function CountChange(currentUser: Option<string>, participants: Option<map<string, CounterGameData>>, increment: bool)
    : (w: Option<CounterWrite>)
    ensures w.Some? <==> currentUser.Some? && participants.Some? && currentUser.value in participants.value
    ensures w.Some? ==>
              var d := participants.value[currentUser.value];
              && w.value.userId == currentUser.value
              && w.value.count == (if increment then d.count + 1 else d.count - 1)
              && w.value.goal == d.goal
  {
    if currentUser.None? || participants.None? then None
    else if currentUser.value !in participants.value then None
    else
      var d := participants.value[currentUser.value];
      Some(CounterWrite(currentUser.value, if increment then d.count + 1 else d.count - 1, d.goal))
  }

  /** handleGoalChange: the same, with the goal moving and the count passed through. */
  function GoalChange(currentUser: Option<string>, participants: Option<map<string, CounterGameData>>, increment: bool)
    : (w: Option<CounterWrite>)
    ensures w.Some? <==> currentUser.Some? && participants.Some? && currentUser.value in participants.value
    ensures w.Some? ==>
              var d := participants.value[currentUser.value];
              && w.value.userId == currentUser.value
              && w.value.count == d.count
              && w.value.goal == (if increment then d.goal + 1 else d.goal - 1)
  {
    if currentUser.None? || participants.None? then None
    else if currentUser.value !in participants.value then None
    else
      var d := participants.value[currentUser.value];
      Some(CounterWrite(currentUser.value, d.count, if increment then d.goal + 1 else d.goal - 1))
  }

  /** The event after updateCounterGameData stores the write, in counter mode. */
  function Stored(ev: EventDoc, w: CounterWrite): EventDoc {
    EventRepository.WithParticipant(ev, CounterGameData(w.userId, EventRepository.ClampCounter(w.count),
                                                        EventRepository.ClampCounter(w.goal)))
  }

  /** A press on the counter buttons, as the store applies it to the event the page shows:
      from an entry in [0, 1000], + and - move the count (or the goal) by one without leaving
      that range, the other value is stored as it was, and no other participant changes. */
  lemma PressStored(currentUser: Option<string>, ev: EventDoc, increment: bool)
    requires currentUser.Some? && ev.participants.Some? && currentUser.value in ev.participants.value
    requires 0 <= ev.participants.value[currentUser.value].count <= EventRepository.CounterMax
    requires 0 <= ev.participants.value[currentUser.value].goal <= EventRepository.CounterMax
    ensures var uid, d := currentUser.value, ev.participants.value[currentUser.value];
            var count := if increment then (if d.count < EventRepository.CounterMax then d.count + 1 else d.count)
                         else (if d.count > 0 then d.count - 1 else 0);
            Stored(ev, CountChange(currentUser, ev.participants, increment).value).participants
              == Some(ev.participants.value[uid := CounterGameData(uid, count, d.goal)])
    ensures var uid, d := currentUser.value, ev.participants.value[currentUser.value];
            var goal := if increment then (if d.goal < EventRepository.CounterMax then d.goal + 1 else d.goal)
                        else (if d.goal > 0 then d.goal - 1 else 0);
            Stored(ev, GoalChange(currentUser, ev.participants, increment).value).participants
              == Some(ev.participants.value[uid := CounterGameData(uid, d.count, goal)])
  {
  }
}
