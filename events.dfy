/** `EventService`: community events, their search, the days that have events, recommendations
    drawn from the categories users search most, and the record of what users searched for. */
module Events {
  import opened Wrappers
  import opened Seqs
  import opened Text
  import opened Sorting
  import Domain

  datatype EventCategory =
    CommunityMeeting | TownHall | PublicHearing | Recreation | Education | Health | Safety
    | Environment | Arts | Sports | Festival | Workshop | Other

  /** An event; times are in seconds. */
  datatype Event = Event(
    id: int,
    name: string,
    description: string,
    category: EventCategory,
    location: string,
    startDate: int,
    endDate: Option<int>,
    createdAt: int,
    isActive: bool)

  function StartDate(e: Event): int
  {
    e.startDate
  }

  /** One item recorded by the search-pattern tracker. */
  datatype SearchRecord = TermSearch(term: string) | CategorySearch(category: EventCategory) | DateSearch(date: int)

  // ----- Search -----

  /** The text filter of `SearchEventsAsync`: the term occurs, ignoring case, in the name, the
      description or the location. */
  predicate MentionsTerm(e: Event, term: string)
  {
    ContainsIgnoreCase(e.name, term) || ContainsIgnoreCase(e.description, term)
    || ContainsIgnoreCase(e.location, term)
  }

  /** The date filter: the event starts or ends on the day of `date`. */
  predicate OnDay(e: Event, date: int)
  {
    Domain.Day(e.startDate) == Domain.Day(date) || (e.endDate.Some? && Domain.Day(e.endDate.value) == Domain.Day(date))
  }

  /** An event is a search hit when it is active and passes every filter that was given: a blank
      term, an absent category and an absent date filter nothing. */
  predicate Hit(e: Event, term: string, category: Option<EventCategory>, date: Option<int>)
  {
    && e.isActive
    && (IsBlank(term) || MentionsTerm(e, term))
    && (category.None? || e.category == category.value)
    && (date.None? || OnDay(e, date.value))
  }

  /** The filter pipeline of `SearchEventsAsync` before the ordering: active events, then the
      term filter unless the term is blank, then the category and date filters when given. */
  function Filtered(events: seq<Event>, term: string, category: Option<EventCategory>, date: Option<int>)
    : seq<Event>
  {
    var active := Where(events, (e: Event) => e.isActive);
    var byTerm := if IsBlank(term) then active else Where(active, (e: Event) => MentionsTerm(e, term));
    var byCategory := if category.None? then byTerm else Where(byTerm, (e: Event) => e.category == category.value);
    if date.None? then byCategory else Where(byCategory, (e: Event) => OnDay(e, date.value))
  }

  /** The pipeline keeps every copy of a hit and nothing else. */
  lemma FilteredMultiset(events: seq<Event>, term: string, category: Option<EventCategory>, date: Option<int>, e: Event)
    ensures multiset(Filtered(events, term, category, date))[e]
            == if Hit(e, term, category, date) then multiset(events)[e] else 0
  {
    var active := Where(events, (e: Event) => e.isActive);
    WhereMultiset(events, (e: Event) => e.isActive, e);
    var byTerm := if IsBlank(term) then active else Where(active, (e: Event) => MentionsTerm(e, term));
    if !IsBlank(term) {
      WhereMultiset(active, (e: Event) => MentionsTerm(e, term), e);
    }
    var byCategory := if category.None? then byTerm else Where(byTerm, (e: Event) => e.category == category.value);
    if category.Some? {
      WhereMultiset(byTerm, (e: Event) => e.category == category.value, e);
    }
    if date.Some? {
      WhereMultiset(byCategory, (e: Event) => OnDay(e, date.value), e);
    }
  }

  // ----- Days with events -----

  /** The days on which an active event of `events` starts or ends. */
  function EventDays(events: seq<Event>): set<int>
  {
    if events == [] then {}
    else
      var e := events[|events| - 1];
      EventDays(events[..|events| - 1])
      + (if e.isActive then {Domain.Day(e.startDate)} + (if e.endDate.Some? then {Domain.Day(e.endDate.value)} else {}) else {})
  }

  /** Every day listed is the start or end day of an active event. */
  lemma {:induction false} EventDaysSound(events: seq<Event>, d: int)
    requires d in EventDays(events)
    ensures exists i :: 0 <= i < |events| && events[i].isActive
              && (Domain.Day(events[i].startDate) == d || (events[i].endDate.Some? && Domain.Day(events[i].endDate.value) == d))
  {
    var n := |events| - 1;
    var e := events[n];
    if !(e.isActive && (Domain.Day(e.startDate) == d || (e.endDate.Some? && Domain.Day(e.endDate.value) == d))) {
      EventDaysSound(events[..n], d);
      var i :| 0 <= i < n && events[..n][i].isActive
               && (Domain.Day(events[..n][i].startDate) == d
                   || (events[..n][i].endDate.Some? && Domain.Day(events[..n][i].endDate.value) == d));
      assert events[..n][i] == events[i];
    }
  }

  /** The start day and the end day of every active event are listed. */
  lemma {:induction false} EventDaysComplete(events: seq<Event>, i: int)
    requires 0 <= i < |events| && events[i].isActive
    ensures Domain.Day(events[i].startDate) in EventDays(events)
    ensures events[i].endDate.Some? ==> Domain.Day(events[i].endDate.value) in EventDays(events)
  {
    var n := |events| - 1;
    if i < n {
      EventDaysComplete(events[..n], i);
      assert events[..n][i] == events[i];
    }
  }

  // ----- Recommendations -----

  /** The identifiers of `events`. */
  function EventIds(events: seq<Event>): set<int>
  {
    if events == [] then {} else EventIds(events[..|events| - 1]) + {events[|events| - 1].id}
  }

  /** Every event's identifier is listed. */
  lemma {:induction false} EventIdsMember(events: seq<Event>, i: int)
    requires 0 <= i < |events|
    ensures events[i].id in EventIds(events)
  {
    var n := |events| - 1;
    if i < n {
      EventIdsMember(events[..n], i);
      assert events[..n][i] == events[i];
    }
  }

  /** No identifier occurs twice. */
  ghost predicate DistinctIds(events: seq<Event>)
  {
    forall i, j :: 0 <= i < j < |events| ==> events[i].id != events[j].id
  }

  /** `GroupBy(e => e.Id).Select(g => g.First())`: the first event of each identifier, in the
      order the identifiers first occur. */
  function FirstPerId(events: seq<Event>): (r: seq<Event>)
    ensures |r| <= |events|
    ensures multiset(r) <= multiset(events)
  {
    if events == [] then []
    else
      var e := events[|events| - 1];
      var rest := FirstPerId(events[..|events| - 1]);
      assert events == events[..|events| - 1] + [e];
      if e.id in EventIds(rest) then rest else rest + [e]
  }

  /** No identifier survives twice, and every identifier survives. */
  lemma {:induction false} FirstPerIdDistinct(events: seq<Event>)
    ensures DistinctIds(FirstPerId(events))
    ensures EventIds(FirstPerId(events)) == EventIds(events)
  {
    if events != [] {
      var n := |events| - 1;
      var rest := FirstPerId(events[..n]);
      FirstPerIdDistinct(events[..n]);
      if events[n].id !in EventIds(rest) {
        forall i | 0 <= i < |rest| ensures rest[i].id != events[n].id {
          EventIdsMember(rest, i);
        }
        assert (rest + [events[n]])[..|rest|] == rest;
      }
    }
  }

  /** The upcoming active events of category `c`, earliest first, at most two. */
  function Upcoming(events: seq<Event>, c: EventCategory, now: int): (r: seq<Event>)
    ensures |r| <= 2
    ensures forall e :: e in r ==> e in events && e.category == c && e.isActive && e.startDate >= now
  {
    var inCategory := Where(events, (e: Event) => e.category == c);
    var upcoming := Where(inCategory, (e: Event) => e.isActive && e.startDate >= now);
    var sorted := SortBy(upcoming, StartDate);
    forall e | e in sorted ensures e in events && e.category == c && e.isActive && e.startDate >= now {
      assert e in multiset(upcoming);
      WhereMultiset(inCategory, (e: Event) => e.isActive && e.startDate >= now, e);
      WhereMultiset(events, (e: Event) => e.category == c, e);
    }
    Take(sorted, 2)
  }

  /** The candidates gathered for the categories `top`, in order. */
  function Candidates(events: seq<Event>, top: seq<EventCategory>, now: int): (r: seq<Event>)
    ensures |r| <= 2 * |top|
    ensures forall e :: e in r ==> e in events && e.category in top && e.isActive && e.startDate >= now
  {
    if top == [] then []
    else
      var rest := Candidates(events, top[..|top| - 1], now);
      rest + Upcoming(events, top[|top| - 1], now)
  }

  /** How many of `events` have category `c`. */
  function CountCategory(events: seq<Event>, c: EventCategory): nat
  {
    if events == [] then 0
    else CountCategory(events[..|events| - 1], c) + if events[|events| - 1].category == c then 1 else 0
  }

  /** Counting by category adds up over concatenation. */
  lemma {:induction false} CountCategoryConcat(a: seq<Event>, b: seq<Event>, c: EventCategory)
    ensures CountCategory(a + b, c) == CountCategory(a, c) + CountCategory(b, c)
    decreases |b|
  {
    if b != [] {
      var n := |b| - 1;
      CountCategoryConcat(a, b[..n], c);
      assert (a + b)[..|a + b| - 1] == a + b[..n];
      assert (a + b)[|a + b| - 1] == b[n];
    } else {
      assert a + b == a;
    }
  }

  /** A sequence with no event of category `c` counts none. */
  lemma {:induction false} CountCategoryNone(events: seq<Event>, c: EventCategory)
    requires forall e :: e in events ==> e.category != c
    ensures CountCategory(events, c) == 0
  {
    if events != [] {
      var n := |events| - 1;
      assert forall e :: e in events[..n] ==> e in events;
      CountCategoryNone(events[..n], c);
    }
  }

  /** Counting by category sees only the multiset of events. */
  lemma {:induction false} CountCategoryMultiset(a: seq<Event>, b: seq<Event>, c: EventCategory)
    requires multiset(a) <= multiset(b)
    ensures CountCategory(a, c) <= CountCategory(b, c)
    decreases |b|
  {
    if b == [] {
      assert a == [];
    } else {
      var n := |b| - 1;
      var x := b[n];
      assert b == b[..n] + [x];
      if x in multiset(a) {
        var k :| 0 <= k < |a| && a[k] == x;
        var a' := a[..k] + a[k + 1..];
        assert a == a[..k] + [x] + a[k + 1..];
        assert multiset(a') == multiset(a) - multiset{x};
        CountCategoryMultiset(a', b[..n], c);
        CountCategoryConcat(a[..k], [x], c);
        CountCategoryConcat(a[..k] + [x], a[k + 1..], c);
        CountCategoryConcat(a[..k], a[k + 1..], c);
        CountCategoryConcat(b[..n], [x], c);
      } else {
        assert multiset(a) <= multiset(b[..n]);
        CountCategoryMultiset(a, b[..n], c);
        CountCategoryConcat(b[..n], [x], c);
      }
    }
  }

  /** With distinct top categories, the candidates hold at most two events of any category. */
  lemma {:induction false} CandidatesPerCategory(events: seq<Event>, top: seq<EventCategory>, now: int, c: EventCategory)
    requires Distinct(top)
    ensures CountCategory(Candidates(events, top, now), c) <= 2
  {
    if top != [] {
      var n := |top| - 1;
      var rest := Candidates(events, top[..n], now);
      var last := Upcoming(events, top[n], now);
      CountCategoryConcat(rest, last, c);
      CountCategoryMultiset(last, last, c);
      assert CountCategory(last, c) <= |last| by {
        CountBound(last, c);
      }
      if c == top[n] {
        forall e | e in rest ensures e.category != c {
          assert e.category in top[..n];
        }
        CountCategoryNone(rest, c);
      } else {
        CandidatesPerCategory(events, top[..n], now, c);
        forall e | e in last ensures e.category != c {
        }
        CountCategoryNone(last, c);
      }
    }
  }

  /** A count never exceeds the length. */
  lemma {:induction false} CountBound(events: seq<Event>, c: EventCategory)
    ensures CountCategory(events, c) <= |events|
  {
    if events != [] {
      CountBound(events[..|events| - 1], c);
    }
  }

  /** The post-processing of `GetRecommendedEventsAsync`: the first event of each identifier among
      the candidates, at most six. */
  function Recommended(events: seq<Event>, top: seq<EventCategory>, now: int): seq<Event>
  {
    Take(FirstPerId(Candidates(events, top, now)), 6)
  }

  /** Recommendations are at most six upcoming active events of the top categories with distinct
      identifiers. */
  lemma RecommendedProperties(events: seq<Event>, top: seq<EventCategory>, now: int)
    ensures var r := Recommended(events, top, now);
      && |r| <= 6 && DistinctIds(r)
      && (forall e :: e in r ==> e in events && e.category in top && e.isActive && e.startDate >= now)
  {
    var candidates := Candidates(events, top, now);
    var unique := FirstPerId(candidates);
    var r := Take(unique, 6);
    FirstPerIdDistinct(candidates);
    assert unique == r + unique[|r|..];
    forall e | e in r ensures e in candidates {
      assert e in multiset(unique);
    }
  }

  /** Every candidate is among the upcoming events of its own category. */
  lemma {:induction false} CandidatesFrom(events: seq<Event>, top: seq<EventCategory>, now: int, e: Event)
    requires e in Candidates(events, top, now)
    ensures e in Upcoming(events, e.category, now)
  {
    var n := |top| - 1;
    var rest := Candidates(events, top[..n], now);
    if e in rest {
      CandidatesFrom(events, top[..n], now, e);
    }
  }

  /** Events with distinct identifiers, every one of category `c` drawn from `pool`, hold at most
      `|pool|` of category `c`. */
  lemma {:induction false} CountDistinctIn(r: seq<Event>, c: EventCategory, pool: set<Event>)
    requires DistinctIds(r)
    requires forall e :: e in r && e.category == c ==> e in pool
    ensures CountCategory(r, c) <= |pool|
  {
    if r != [] {
      var n := |r| - 1;
      var x := r[n];
      if x.category == c {
        forall e | e in r[..n] && e.category == c ensures e in pool - {x} {
          var i :| 0 <= i < n && r[..n][i] == e;
          assert r[i].id != r[n].id;
        }
        CountDistinctIn(r[..n], c, pool - {x});
      } else {
        CountDistinctIn(r[..n], c, pool);
      }
    }
  }

  /** A sequence has no more distinct elements than positions. */
  lemma {:induction false} ElementsBound(s: seq<Event>)
    ensures |set e | e in s| <= |s|
  {
    if s != [] {
      var n := |s| - 1;
      ElementsBound(s[..n]);
      assert (set e | e in s) == (set e | e in s[..n]) + {s[n]} by {
        assert s == s[..n] + [s[n]];
      }
    }
  }

  /** At most two recommendations share a category, whatever the top categories are: the
      candidates of category `c` all come from the one list of its two upcoming events, and
      identifiers are not repeated. */
  lemma RecommendedPerCategory(events: seq<Event>, top: seq<EventCategory>, now: int, c: EventCategory)
    ensures CountCategory(Recommended(events, top, now), c) <= 2
  {
    var candidates := Candidates(events, top, now);
    var unique := FirstPerId(candidates);
    var r := Take(unique, 6);
    RecommendedProperties(events, top, now);
    assert unique == r + unique[|r|..];
    var upcoming := Upcoming(events, c, now);
    forall e | e in r && e.category == c ensures e in upcoming {
      assert e in multiset(unique);
      CandidatesFrom(events, top, now, e);
    }
    CountDistinctIn(r, c, set e | e in upcoming);
    ElementsBound(upcoming);
  }

  // ----- Search tracking -----

  /** What `TrackSearch` records, in order: the term unless blank, the category and the date
      when given. */
  function Recorded(term: string, category: Option<EventCategory>, date: Option<int>): (r: seq<SearchRecord>)
    ensures |r| <= 3
    ensures TermSearch(term) in r <==> !IsBlank(term)
    ensures forall c :: CategorySearch(c) in r <==> category == Some(c)
    ensures forall d :: DateSearch(d) in r <==> date == Some(d)
    ensures forall x :: x in r ==> x == TermSearch(term) || x.CategorySearch? || x.DateSearch?
  {
    (if IsBlank(term) then [] else [TermSearch(term)])
    + (if category.Some? then [CategorySearch(category.value)] else [])
    + (if date.Some? then [DateSearch(date.value)] else [])
  }

  // ----- Seeding -----

  /** The sample events numbered from `first` on, in order, all active. */
  function Numbered(samples: seq<Event>, first: int): (r: seq<Event>)
    ensures |r| == |samples|
    ensures forall i :: 0 <= i < |r| ==>
              r[i].id == first + i && r[i].isActive && r[i].name == samples[i].name
              && r[i].category == samples[i].category && r[i].startDate == samples[i].startDate
  {
    seq(|samples|, i requires 0 <= i < |samples| => samples[i].(id := first + i, isActive := true))
  }

  /** The categories of `events`, as the category manager collects them. */
  function CategoriesOf(events: seq<Event>): set<EventCategory>
  {
    if events == [] then {} else CategoriesOf(events[..|events| - 1]) + {events[|events| - 1].category}
  }

  class EventService {
    /** The event store, in the order events were added. */
    var events: seq<Event>
    /** The category manager's set of categories. */
    var categories: set<EventCategory>
    /** The search-pattern tracker's record of searches, oldest first. */
    var searches: seq<SearchRecord>
    /** The identifier the next event receives. */
    var nextId: int

    /** Identifiers are distinct and below the counter, and the category set is exactly the
        categories of the stored events. */
    ghost predicate Valid()
      reads this
    {
      && DistinctIds(events) && nextId >= 1
      && (forall i :: 0 <= i < |events| ==> 1 <= events[i].id < nextId)
      && categories == CategoriesOf(events)
    }

    /** The service with `samples` (the sample events) stored under identifiers 1, 2, ...:
        the samples are numbered as the list is built, then stored one at a time, each
        registering its category. */
    constructor (samples: seq<Event>)
      ensures Valid()
      ensures events == Numbered(samples, 1) && nextId == |samples| + 1 && searches == []
    {
      var sampleEvents := Numbered(samples, 1);
      nextId := |samples| + 1;
      events, categories, searches := [], {}, [];
      new;
      var i := 0;
      while i < |sampleEvents|
        invariant 0 <= i <= |sampleEvents|
        invariant events == sampleEvents[..i] && categories == CategoriesOf(events)
        invariant nextId == |samples| + 1 && searches == []
      {
        var ev := sampleEvents[i];
        assert sampleEvents[..i + 1] == sampleEvents[..i] + [ev];
        assert (events + [ev])[..|events|] == events;
        events := events + [ev];
        categories := categories + {ev.category};
        i := i + 1;
      }
      assert sampleEvents[..i] == sampleEvents;
    }

    /** `SearchEventsAsync`: the active events that pass the term, category and date filters in
        turn, ordered by start date. */
    function SearchEvents(term: string, category: Option<EventCategory>, date: Option<int>): (r: seq<Event>)
      reads this
      ensures SortedBy(r, StartDate)
      ensures forall e :: multiset(r)[e] == if Hit(e, term, category, date) then multiset(events)[e] else 0
    {
      var hits := Filtered(events, term, category, date);
      forall e ensures multiset(hits)[e] == if Hit(e, term, category, date) then multiset(events)[e] else 0 {
        FilteredMultiset(events, term, category, date, e);
      }
      SortBy(hits, StartDate)
    }

    /** `GetEventDatesAsync`: the start and end days of the active events. */
    method GetEventDates() returns (dates: set<int>)
      ensures dates == EventDays(events)
    {
      dates := {};
      var i := 0;
      while i < |events|
        invariant 0 <= i <= |events|
        invariant dates == EventDays(events[..i])
      {
        var ev := events[i];
        assert events[..i + 1][..i] == events[..i];
        if ev.isActive {
          dates := dates + {Domain.Day(ev.startDate)};
          if ev.endDate.Some? {
            dates := dates + {Domain.Day(ev.endDate.value)};
          }
        }
        i := i + 1;
      }
      assert i == |events|;
      assert events[..i] == events;
    }

    /** `GetRecommendedEventsAsync` at time `now`, given the tracker's top categories `top`: up
        to two upcoming events per category, then the first event of each identifier, at most
        six. */
    method GetRecommendedEvents(top: seq<EventCategory>, now: int) returns (r: seq<Event>)
      ensures r == Recommended(events, top, now)
    {
      var recommendations := [];
      var i := 0;
      while i < |top|
        invariant 0 <= i <= |top|
        invariant recommendations == Candidates(events, top[..i], now)
      {
        assert top[..i + 1][..i] == top[..i];
        recommendations := recommendations + Upcoming(events, top[i], now);
        i := i + 1;
      }
      assert i == |top|;
      assert top[..i] == top;
      r := Take(FirstPerId(recommendations), 6);
    }

    /** `TrackSearch`: hands the tracker the term unless blank, the category and the date when
        given. */
    method TrackSearch(term: string, category: Option<EventCategory>, date: Option<int>)
      modifies this
      ensures searches == old(searches) + Recorded(term, category, date)
      ensures events == old(events) && categories == old(categories) && nextId == old(nextId)
    {
      if !IsBlank(term) {
        searches := searches + [TermSearch(term)];
      }
      if category.Some? {
        searches := searches + [CategorySearch(category.value)];
      }
      if date.Some? {
        searches := searches + [DateSearch(date.value)];
      }
    }

    /** `CreateEventAsync` at time `now`: the event gets the next identifier, the creation time
        and the active flag, is stored and its category registered. */
    method CreateEvent(ev: Event, now: int) returns (id: int)
      requires Valid()
      modifies this
      ensures Valid()
      ensures id == old(nextId) && nextId == id + 1
      ensures events == old(events) + [ev.(id := id, createdAt := now, isActive := true)]
      ensures categories == old(categories) + {ev.category}
      ensures searches == old(searches)
    {
      id := nextId;
      nextId := nextId + 1;
      var created := ev.(id := id, createdAt := now, isActive := true);
      assert (events + [created])[..|events|] == events;
      assert CategoriesOf(events + [created]) == categories + {created.category};
      events := events + [created];
      categories := categories + {created.category};
    }
  }
}
