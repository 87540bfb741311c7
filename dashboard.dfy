/** The dashboard's per-tab event selection (the `eventCards` memo of
    src/presentation/pages/Dashboard.tsx). Dates are integer timestamps; `now` is a parameter. */
module Dashboard {
  import opened Wrappers
  import opened Domain
  import opened StableSort
  import opened Sequences

  datatype Tab = CreatedTab | UpcomingTab | AttendedTab | AllTab

  /** No id occurs twice. */
  predicate DistinctIds(s: seq<Event>) {
    forall i, j :: 0 <= i < j < |s| ==> s[i].id != s[j].id
  }

  /** `events.filter(event => event.date > now)`: the events strictly after `now`, in order. */
  function DatedAfter(s: seq<Event>, now: int): (r: seq<Event>)
    ensures forall e :: e in r <==> e in s && e.doc.date > now
    ensures forall e :: multiset(r)[e] == if e.doc.date > now then multiset(s)[e] else 0
    ensures |r| <= |s|
  {
    if s == [] then []
    else
      assert s == s[..|s| - 1] + [s[|s| - 1]];
      DatedAfter(s[..|s| - 1], now) + (if s[|s| - 1].doc.date > now then [s[|s| - 1]] else [])
  }

  /** `events.filter(event => event.date < now)`: the events strictly before `now`, in order. */
  function DatedBefore(s: seq<Event>, now: int): (r: seq<Event>)
    ensures forall e :: e in r <==> e in s && e.doc.date < now
    ensures forall e :: multiset(r)[e] == if e.doc.date < now then multiset(s)[e] else 0
    ensures |r| <= |s|
  {
    if s == [] then []
    else
      assert s == s[..|s| - 1] + [s[|s| - 1]];
      DatedBefore(s[..|s| - 1], now) + (if s[|s| - 1].doc.date < now then [s[|s| - 1]] else [])
  }

  /** One step of the filter: the last element is kept exactly when it passes. */
  lemma DatedAfterSnoc(s: seq<Event>, now: int)
    requires s != []
    ensures DatedAfter(s, now) == DatedAfter(s[..|s| - 1], now) + (if s[|s| - 1].doc.date > now then [s[|s| - 1]] else [])
  {
  }

  /** The filter distributes over concatenation, so it keeps the input's relative order. */
  lemma {:induction false} DatedAfterAppend(a: seq<Event>, b: seq<Event>, now: int)
    ensures DatedAfter(a + b, now) == DatedAfter(a, now) + DatedAfter(b, now)
    decreases |b|
  {
    if b == [] {
      assert a + b == a;
    } else {
      var init, last := b[..|b| - 1], b[|b| - 1];
      InitOfAppend(a, b);
      DatedAfterSnoc(a + b, now);
      DatedAfterSnoc(b, now);
      DatedAfterAppend(a, init, now);
      ConcatAssoc(DatedAfter(a, now), DatedAfter(init, now), if last.doc.date > now then [last] else []);
    }
  }

  /** One step of the filter: the last element is kept exactly when it passes. */
  lemma DatedBeforeSnoc(s: seq<Event>, now: int)
    requires s != []
    ensures DatedBefore(s, now) == DatedBefore(s[..|s| - 1], now) + (if s[|s| - 1].doc.date < now then [s[|s| - 1]] else [])
  {
  }

  /** The filter distributes over concatenation, so it keeps the input's relative order. */
  lemma {:induction false} DatedBeforeAppend(a: seq<Event>, b: seq<Event>, now: int)
    ensures DatedBefore(a + b, now) == DatedBefore(a, now) + DatedBefore(b, now)
    decreases |b|
  {
    if b == [] {
      assert a + b == a;
    } else {
      var init, last := b[..|b| - 1], b[|b| - 1];
      InitOfAppend(a, b);
      DatedBeforeSnoc(a + b, now);
      DatedBeforeSnoc(b, now);
      DatedBeforeAppend(a, init, now);
      ConcatAssoc(DatedBefore(a, now), DatedBefore(init, now), if last.doc.date < now then [last] else []);
    }
  }

  /** A list extended at the end keeps distinct ids exactly when the new id is new. */
  lemma DistinctSnoc(s: seq<Event>, e: Event)
    ensures IdsOf(s + [e]) == IdsOf(s) + [e.id]
    ensures DistinctIds(s + [e]) <==> DistinctIds(s) && e.id !in IdsOf(s)
  {
    assert (s + [e])[..|s|] == s;
    if DistinctIds(s + [e]) {
      forall i, j | 0 <= i < j < |s| ensures s[i].id != s[j].id {
        assert s[i] == (s + [e])[i] && s[j] == (s + [e])[j];
      }
    }
  }

  /** The position of the first event with the given id. */
  function PositionOf(d: seq<Event>, id: string): (i: nat)
    requires id in IdsOf(d)
    ensures i < |d| && d[i].id == id
    ensures forall j :: 0 <= j < i ==> d[j].id != id
  {
    var init := d[..|d| - 1];
    assert IdsOf(d) == IdsOf(init) + [d[|d| - 1].id];
    if id in IdsOf(init) then PositionOf(init, id) else |d| - 1
  }

  /** `Array.from(new Map(s.map(e => [e.id, e])).values())`: a Map keeps each key at the
      position where it was first inserted, and a later set of the same key replaces the value. */
  function DedupeById(s: seq<Event>): (r: seq<Event>)
    ensures DistinctIds(r)
    ensures forall id :: id in IdsOf(r) <==> id in IdsOf(s)
    ensures |r| <= |s|
  {
    if s == [] then []
    else
      var d, e := DedupeById(s[..|s| - 1]), s[|s| - 1];
      assert IdsOf(s) == IdsOf(s[..|s| - 1]) + [e.id];
      if e.id in IdsOf(d) then
        var r := d[PositionOf(d, e.id) := e];
        assert IdsOf(r) == IdsOf(d);
        r
      else
        DistinctSnoc(d, e);
        d + [e]
  }

  /** The index of the last event of `s` with the given id. */
  function LastIndex(s: seq<Event>, id: string): (i: nat)
    requires id in IdsOf(s)
    ensures i < |s| && s[i].id == id
    ensures forall j :: i < j < |s| ==> s[j].id != id
  {
    assert IdsOf(s) == IdsOf(s[..|s| - 1]) + [s[|s| - 1].id];
    if s[|s| - 1].id == id then |s| - 1 else LastIndex(s[..|s| - 1], id)
  }

  /** Below the last element, the first and last positions of another id are those of the
      prefix. */
  lemma IndexInPrefix(s: seq<Event>, id: string)
    requires s != [] && id in IdsOf(s[..|s| - 1]) && s[|s| - 1].id != id
    ensures id in IdsOf(s)
    ensures LastIndex(s, id) == LastIndex(s[..|s| - 1], id)
    ensures PositionOf(s, id) == PositionOf(s[..|s| - 1], id)
  {
    assert IdsOf(s) == IdsOf(s[..|s| - 1]) + [s[|s| - 1].id];
  }

  /** `e` is the last event of `s` with its id. */
  predicate IsLastOf(s: seq<Event>, e: Event) {
    e.id in IdsOf(s) && e == s[LastIndex(s, e.id)]
  }

  /** Map semantics, value side: every entry is the last event stored under its id. */
  lemma {:induction false} DedupeKeepsLastValue(s: seq<Event>)
    ensures forall k :: 0 <= k < |DedupeById(s)| ==> IsLastOf(s, DedupeById(s)[k])
  {
    if s != [] {
      var init, e := s[..|s| - 1], s[|s| - 1];
      var d := DedupeById(init);
      DedupeKeepsLastValue(init);
      assert IdsOf(s) == IdsOf(init) + [e.id];
      var r := DedupeById(s);
      forall k | 0 <= k < |r|
        ensures IsLastOf(s, r[k])
      {
        if k < |d| && IdsOf(d)[k] != e.id {
          DedupeCarriesOver(init, e, k);
          assert IsLastOf(init, d[k]);
          IndexInPrefix(s, d[k].id);
          assert s[LastIndex(init, d[k].id)] == init[LastIndex(init, d[k].id)];
        } else {
          DedupeReplaces(init, e, k);
          assert LastIndex(s, e.id) == |s| - 1;
        }
      }
    }
  }

  /** After appending `e`, an entry whose id is not `e`'s is carried over unchanged. */
  lemma DedupeCarriesOver(init: seq<Event>, e: Event, k: int)
    requires 0 <= k < |DedupeById(init)| && IdsOf(DedupeById(init))[k] != e.id
    ensures k < |DedupeById(init + [e])| && DedupeById(init + [e])[k] == DedupeById(init)[k]
  {
    var d := DedupeById(init);
    DedupeSnoc(init, e);
    if e.id in IdsOf(d) {
      var p := PositionOf(d, e.id);
      assert p != k;
    }
  }

  /** After appending `e`, the entry at `e`'s id, or the entry added at the end, is `e`. */
  lemma DedupeReplaces(init: seq<Event>, e: Event, k: int)
    requires 0 <= k < |DedupeById(init + [e])|
    requires k >= |DedupeById(init)| || IdsOf(DedupeById(init))[k] == e.id
    ensures DedupeById(init + [e])[k] == e
  {
    var d := DedupeById(init);
    DedupeSnoc(init, e);
    if e.id in IdsOf(d) {
      var p := PositionOf(d, e.id);
      assert k < |d|;
      assert d[k].id == d[p].id;
      assert k == p;
    } else {
      assert k == |d|;
    }
  }

  /** Reference definition of first-occurrence order: each id is kept where it first occurs
      and dropped where it recurs. */
  function FirstOccurrences(ids: seq<string>): seq<string> {
    if ids == [] then []
    else
      var init, x := ids[..|ids| - 1], ids[|ids| - 1];
      FirstOccurrences(init) + (if x in init then [] else [x])
  }

  /** Map semantics, order side: the entries' ids are the input's ids in the order in which
      they first occur. */
  lemma {:induction false} DedupeKeepsFirstOrder(s: seq<Event>)
    ensures IdsOf(DedupeById(s)) == FirstOccurrences(IdsOf(s))
  {
    if s != [] {
      var init, e := s[..|s| - 1], s[|s| - 1];
      assert init + [e] == s;
      DedupeKeepsFirstOrder(init);
      if e.id in IdsOf(init) {
        FirstOrderKnown(init, e);
      } else {
        FirstOrderNew(init, e);
      }
    }
  }

  /** The step of DedupeKeepsFirstOrder for an id seen before: neither side changes. */
  lemma FirstOrderKnown(init: seq<Event>, e: Event)
    requires IdsOf(DedupeById(init)) == FirstOccurrences(IdsOf(init))
    requires e.id in IdsOf(init)
    ensures IdsOf(DedupeById(init + [e])) == FirstOccurrences(IdsOf(init + [e]))
  {
    var d := DedupeById(init);
    assert e.id in IdsOf(d);
    DedupeSnoc(init, e);
    var p := PositionOf(d, e.id);
    assert DedupeById(init + [e]) == d[p := e];
    IdsOfReplace(d, p, e);
    IdsSnoc(init, e);
    FirstOccurrencesSnoc(IdsOf(init), e.id);
    assert FirstOccurrences(IdsOf(init + [e])) == FirstOccurrences(IdsOf(init)) + [];
  }

  /** The step of DedupeKeepsFirstOrder for a new id: both sides gain it at the end. */
  lemma FirstOrderNew(init: seq<Event>, e: Event)
    requires IdsOf(DedupeById(init)) == FirstOccurrences(IdsOf(init))
    requires e.id !in IdsOf(init)
    ensures IdsOf(DedupeById(init + [e])) == FirstOccurrences(IdsOf(init + [e]))
  {
    var d := DedupeById(init);
    DedupeSnoc(init, e);
    IdsSnoc(d, e);
    IdsSnoc(init, e);
    FirstOccurrencesSnoc(IdsOf(init), e.id);
  }

  lemma IdsSnoc(s: seq<Event>, e: Event)
    ensures IdsOf(s + [e]) == IdsOf(s) + [e.id]
  {
    assert (s + [e])[..|s|] == s;
  }

  lemma FirstOccurrencesSnoc(ids: seq<string>, x: string)
    ensures FirstOccurrences(ids + [x]) == FirstOccurrences(ids) + (if x in ids then [] else [x])
  {
    assert (ids + [x])[..|ids|] == ids;
  }

  /** One step of the Map construction: a known id is overwritten in place, a new one appended. */
  lemma DedupeSnoc(init: seq<Event>, e: Event)
    ensures e.id in IdsOf(DedupeById(init)) ==>
              DedupeById(init + [e]) == DedupeById(init)[PositionOf(DedupeById(init), e.id) := e]
    ensures e.id !in IdsOf(DedupeById(init)) ==> DedupeById(init + [e]) == DedupeById(init) + [e]
  {
    assert (init + [e])[..|init|] == init;
  }

  lemma IdsOfReplace(d: seq<Event>, p: nat, e: Event)
    requires p < |d| && d[p].id == e.id
    ensures IdsOf(d[p := e]) == IdsOf(d)
  {
  }

  /** Inserting keeps the ids, adds the inserted one, and keeps them distinct. */
  lemma {:induction false} InsertLastKeepsIds(s: seq<Event>, x: Event, key: Event -> Key)
    ensures forall id :: id in IdsOf(InsertLast(s, x, key)) <==> id in IdsOf(s) || id == x.id
    ensures DistinctIds(s) && x.id !in IdsOf(s) ==> DistinctIds(InsertLast(s, x, key))
    decreases |s|
  {
    if s == [] || !KeyLess(key(x), key(s[|s| - 1])) {
      DistinctSnoc(s, x);
    } else {
      var init, last := s[..|s| - 1], s[|s| - 1];
      assert s == init + [last];
      InsertLastKeepsIds(init, x, key);
      DistinctSnoc(init, last);
      DistinctSnoc(InsertLast(init, x, key), last);
    }
  }

  /** Sorting keeps the ids and keeps them distinct. */
  lemma {:induction false} SortKeepsIds(s: seq<Event>, key: Event -> Key)
    ensures forall id :: id in IdsOf(Sort(s, key)) <==> id in IdsOf(s)
    ensures DistinctIds(s) ==> DistinctIds(Sort(s, key))
  {
    if s != [] {
      var init, last := s[..|s| - 1], s[|s| - 1];
      assert s == init + [last];
      SortKeepsIds(init, key);
      DistinctSnoc(init, last);
      InsertLastKeepsIds(Sort(init, key), last, key);
    }
  }

  /** The ascending date order of the 'upcoming' tab, `a.date - b.date`. */
  function ByDate(e: Event): Key {
    (e.doc.date, 0)
  }

  /** The descending date order of the 'attended' tab, `b.date - a.date`. */
  function ByDateDescending(e: Event): Key {
    (-e.doc.date, 0)
  }

  /** The 'upcoming' tab: created and attended events after `now`, deduplicated by id, by date. */
  function Upcoming(userEvents: seq<Event>, attendedEvents: seq<Event>, now: int): seq<Event> {
    Sort(DedupeById(DatedAfter(userEvents + attendedEvents, now)), ByDate)
  }

  /** The 'attended' tab: attended events before `now`, latest first. */
  function PastAttended(attendedEvents: seq<Event>, now: int): seq<Event> {
    Sort(DatedBefore(attendedEvents, now), ByDateDescending)
  }

  /** The 'all' tab: created and attended events, deduplicated by id. */
  function AllEvents(userEvents: seq<Event>, attendedEvents: seq<Event>): seq<Event> {
    DedupeById(userEvents + attendedEvents)
  }

  /** The events a tab shows; the 'created' tab shows the user's events as they are. */
  function SelectEvents(tab: Tab, userEvents: seq<Event>, attendedEvents: seq<Event>, now: int): seq<Event> {
    match tab
    case CreatedTab => userEvents
    case UpcomingTab => Upcoming(userEvents, attendedEvents, now)
    case AttendedTab => PastAttended(attendedEvents, now)
    case AllTab => AllEvents(userEvents, attendedEvents)
  }

  /** Every entry of the deduplicated list comes from the input. */
  lemma DedupeMembers(s: seq<Event>)
    ensures forall e :: e in DedupeById(s) ==> e in s
  {
    DedupeKeepsLastValue(s);
    forall e | e in DedupeById(s) ensures e in s {
      var k :| 0 <= k < |DedupeById(s)| && DedupeById(s)[k] == e;
      assert IsLastOf(s, DedupeById(s)[k]);
    }
  }

  /** 'upcoming': created and attended events strictly after `now`, each id once, every
      such id present, in ascending date order. */
  lemma UpcomingSelection(userEvents: seq<Event>, attendedEvents: seq<Event>, now: int)
    ensures forall e :: e in Upcoming(userEvents, attendedEvents, now) ==>
              (e in userEvents || e in attendedEvents) && e.doc.date > now
    ensures DistinctIds(Upcoming(userEvents, attendedEvents, now))
    ensures forall e :: (e in userEvents || e in attendedEvents) && e.doc.date > now ==>
              e.id in IdsOf(Upcoming(userEvents, attendedEvents, now))
    ensures forall i, j :: 0 <= i < j < |Upcoming(userEvents, attendedEvents, now)| ==>
              Upcoming(userEvents, attendedEvents, now)[i].doc.date <= Upcoming(userEvents, attendedEvents, now)[j].doc.date
  {
    var f := DatedAfter(userEvents + attendedEvents, now);
    var d := DedupeById(f);
    SortKeepsIds(d, ByDate);
    UpcomingMembers(f);
    UpcomingComplete(f);
    UpcomingSorted(d);
  }

  lemma UpcomingMembers(f: seq<Event>)
    ensures forall e :: e in Sort(DedupeById(f), ByDate) ==> e in f
  {
    var d := DedupeById(f);
    DedupeMembers(f);
    forall e | e in Sort(d, ByDate) ensures e in f {
      assert e in multiset(Sort(d, ByDate));
    }
  }

  lemma UpcomingComplete(f: seq<Event>)
    ensures forall e :: e in f ==> e.id in IdsOf(Sort(DedupeById(f), ByDate))
  {
    var d := DedupeById(f);
    SortKeepsIds(d, ByDate);
    forall e | e in f ensures e.id in IdsOf(Sort(d, ByDate)) {
      var k :| 0 <= k < |f| && f[k] == e;
      assert IdsOf(f)[k] == e.id;
    }
  }

  lemma UpcomingSorted(d: seq<Event>)
    ensures forall i, j :: 0 <= i < j < |Sort(d, ByDate)| ==> Sort(d, ByDate)[i].doc.date <= Sort(d, ByDate)[j].doc.date
  {
    SortIsSorted(d, ByDate);
    var r := Sort(d, ByDate);
    forall i, j | 0 <= i < j < |r| ensures r[i].doc.date <= r[j].doc.date {
      assert !KeyLess(ByDate(r[j]), ByDate(r[i]));
    }
  }

  /** 'attended': exactly the attended events strictly before `now` (duplicates kept), in
      descending date order. */
  lemma AttendedSelection(attendedEvents: seq<Event>, now: int)
    ensures multiset(PastAttended(attendedEvents, now)) == multiset(DatedBefore(attendedEvents, now))
    ensures forall e :: e in PastAttended(attendedEvents, now) <==> e in attendedEvents && e.doc.date < now
    ensures forall i, j :: 0 <= i < j < |PastAttended(attendedEvents, now)| ==>
              PastAttended(attendedEvents, now)[i].doc.date >= PastAttended(attendedEvents, now)[j].doc.date
  {
    var f := DatedBefore(attendedEvents, now);
    SortIsSorted(f, ByDateDescending);
    var r := Sort(f, ByDateDescending);
    forall e ensures e in r <==> e in f {
      assert e in r <==> e in multiset(r);
      assert e in f <==> e in multiset(f);
    }
    forall i, j | 0 <= i < j < |r| ensures r[i].doc.date >= r[j].doc.date {
      assert !KeyLess(ByDateDescending(r[j]), ByDateDescending(r[i]));
    }
  }

  /** 'all': created and attended events, each id once, every id present, with no date filter. */
  lemma AllSelection(userEvents: seq<Event>, attendedEvents: seq<Event>)
    ensures DistinctIds(AllEvents(userEvents, attendedEvents))
    ensures forall id :: id in IdsOf(AllEvents(userEvents, attendedEvents)) <==> id in IdsOf(userEvents + attendedEvents)
    ensures forall e :: e in AllEvents(userEvents, attendedEvents) ==> e in userEvents || e in attendedEvents
  {
    DedupeMembers(userEvents + attendedEvents);
  }

  /** An event dated exactly `now` is in neither the 'upcoming' nor the 'attended' tab. */
  lemma NowIsInNeither(userEvents: seq<Event>, attendedEvents: seq<Event>, now: int, e: Event)
    requires e.doc.date == now
    ensures e !in SelectEvents(UpcomingTab, userEvents, attendedEvents, now)
    ensures e !in SelectEvents(AttendedTab, userEvents, attendedEvents, now)
  {
    assert e !in Upcoming(userEvents, attendedEvents, now) by {
      UpcomingSelection(userEvents, attendedEvents, now);
    }
    assert e !in PastAttended(attendedEvents, now) by {
      AttendedSelection(attendedEvents, now);
    }
  }

  /** The text shown for an empty tab. */
  function EmptyMessage(tab: Tab): string {
    match tab
    case CreatedTab => "No events created yet"
    case UpcomingTab => "No upcoming events"
    case AttendedTab => "No past events attended"
    case AllTab => "No events found"
  }

  /** What the memo renders: nothing while loading, the tab's message for an empty selection,
      otherwise one card per selected event. */
  datatype Cards = Loading | Empty(message: string) | EventCards(events: seq<Event>)

  function EventCardsFor(isLoading: bool, tab: Tab, userEvents: seq<Event>, attendedEvents: seq<Event>, now: int)
    : (r: Cards)
    ensures isLoading <==> r == Loading
    ensures r.Empty? <==> !isLoading && SelectEvents(tab, userEvents, attendedEvents, now) == []
    ensures r.Empty? ==> r.message == EmptyMessage(tab)
    ensures r.EventCards? ==> r.events == SelectEvents(tab, userEvents, attendedEvents, now) && r.events != []
  {
    if isLoading then Loading
    else
      var shown := SelectEvents(tab, userEvents, attendedEvents, now);
      if shown == [] then Empty(EmptyMessage(tab)) else EventCards(shown)
  }
}
