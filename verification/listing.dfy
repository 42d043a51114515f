/**
 * The barrage listing, `GET /barrages`: the events that pass every supplied
 * filter, ordered by time only. The store breaks ties in time arbitrarily, so a
 * listing is specified relationally (IsValidListing) and GetBarrage computes
 * one admissible answer.
 */
module Listing {
  import opened Wrappers
  import opened Models
  import Text
  import Sorting

  datatype SortMode = ASC | DESC

  /** The query parameters; an absent parameter is None. */
  datatype BarrageQuery = BarrageQuery(
    sort: SortMode,
    username: Option<string>,
    dtMin: Option<int>,
    dtMax: Option<int>
  )

  /** The literal that selects each sort mode in the query string. */
  function SortModeName(m: SortMode): string {
    match m
    case ASC => "ASC"
    case DESC => "DESC"
  }

  /** Query-string validation of `sort`: only the two literals are accepted. */
  function ParseSortMode(s: string): (r: Option<SortMode>)
    ensures r.Some? <==> s == "ASC" || s == "DESC"
    ensures r.Some? ==> SortModeName(r.value) == s
  {
    if s == "ASC" then Some(ASC)
    else if s == "DESC" then Some(DESC)
    else None
  }

  /** Parsing recovers every sort mode from its literal. */
  lemma ParseSortModeRoundTrip(m: SortMode)
    ensures ParseSortMode(SortModeName(m)) == Some(m)
  {
  }

  /**
   * An event passes the query: the nickname filter applies only for a non-empty
   * username, and each time bound is inclusive.
   */
  predicate Matches(q: BarrageQuery, e: Event) {
    && (q.username.Some? && q.username.value != "" ==> Text.ContainsIgnoreCase(e.nickname, q.username.value))
    && (q.dtMin.Some? ==> e.time >= q.dtMin.value)
    && (q.dtMax.Some? ==> e.time <= q.dtMax.value)
  }

  function Direction(m: SortMode): Sorting.Direction {
    match m
    case ASC => Sorting.Ascending
    case DESC => Sorting.Descending
  }

  function TimeOf(e: Event): int {
    e.time
  }

  /** r holds every matching event exactly as often as events does, and nothing else. */
  ghost predicate SameMatches(events: seq<Event>, q: BarrageQuery, r: seq<Event>) {
    forall e :: multiset(r)[e] == if Matches(q, e) then multiset(events)[e] else 0
  }

  /** An admissible response: the matching events, ordered by time in the requested direction. */
  ghost predicate IsValidListing(events: seq<Event>, q: BarrageQuery, r: seq<Event>) {
    && SameMatches(events, q, r)
    && Sorting.SortedBy(r, TimeOf, Direction(q.sort))
  }

  /** The query filter, keeping the store's order. */
  function Filter(events: seq<Event>, q: BarrageQuery): (r: seq<Event>)
    ensures SameMatches(events, q, r)
  {
    if events == [] then []
    else
      assert events == [events[0]] + events[1..];
      (if Matches(q, events[0]) then [events[0]] else []) + Filter(events[1..], q)
  }

  /** One admissible response to the listing query. */
  function GetBarrage(events: seq<Event>, q: BarrageQuery): (r: seq<Event>)
    ensures IsValidListing(events, q, r)
  {
    Sorting.Sort(Filter(events, q), TimeOf, Direction(q.sort))
  }

  /** Every admissible response lists the same timestamps in the same order. */
  lemma ListingTimesDetermined(events: seq<Event>, q: BarrageQuery, r1: seq<Event>, r2: seq<Event>)
    requires IsValidListing(events, q, r1) && IsValidListing(events, q, r2)
    ensures |r1| == |r2|
    ensures forall i :: 0 <= i < |r1| ==> r1[i].time == r2[i].time
  {
    assert multiset(r1) == multiset(r2);
    Sorting.SortedSameKeys(r1, r2, TimeOf, Direction(q.sort));
  }

  /** Every listed event passes all filters, and every event of the log that passes is listed. */
  lemma ListingMembership(events: seq<Event>, q: BarrageQuery, r: seq<Event>, e: Event)
    requires IsValidListing(events, q, r)
    ensures e in r <==> e in events && Matches(q, e)
  {
    assert e in r <==> multiset(r)[e] > 0;
    assert e in events <==> multiset(events)[e] > 0;
  }

  /** Crossed time bounds admit only the empty response. */
  lemma CrossedBoundsEmpty(events: seq<Event>, q: BarrageQuery, r: seq<Event>)
    requires IsValidListing(events, q, r)
    requires q.dtMin.Some? && q.dtMax.Some? && q.dtMin.value > q.dtMax.value
    ensures r == []
  {
    assert forall e :: !Matches(q, e);
    assert multiset(r) == multiset{};
    assert |r| == |multiset(r)|;
  }

  /** An empty username filters nothing: it answers exactly like an absent one. */
  lemma EmptyUsernameIsAbsent(events: seq<Event>, q: BarrageQuery, r: seq<Event>)
    requires q.username == Some("")
    ensures IsValidListing(events, q, r) <==> IsValidListing(events, q.(username := None), r)
  {
    assert forall e :: Matches(q, e) == Matches(q.(username := None), e);
  }
}
