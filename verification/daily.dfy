/**
 * The part the trend and stacked reports share: the trailing window
 * `time > now() - interval`, and `GROUP BY DATE_TRUNC('day', time)
 * ORDER BY MIN(time)`. A bucket keeps its day's events in log order, so each
 * report's aggregates are functions of one bucket.
 */
module Daily {
  import opened Models
  import Settings

  /** Calendar day of a timestamp, truncated in the assumed UTC+8 zone (floor division). */
  function DayOf(t: int): int {
    (t + Settings.UtcOffset) / Settings.MicrosPerDay
  }

  /** Day truncation is monotone. */
  lemma DayOfMonotone(a: int, b: int)
    requires a <= b
    ensures DayOf(a) <= DayOf(b)
  {
  }

  /** An event of an earlier day happened strictly earlier. */
  lemma EarlierDayEarlierTime(a: int, b: int)
    requires DayOf(a) < DayOf(b)
    ensures a < b
  {
    if b <= a {
      DayOfMonotone(b, a);
    }
  }

  /** The events strictly after cutoff, in log order. */
  function Window(events: seq<Event>, cutoff: int): (r: seq<Event>)
    ensures forall e :: e in r <==> e in events && e.time > cutoff
    ensures |r| <= |events|
  {
    if events == [] then []
    else (if events[0].time > cutoff then [events[0]] else []) + Window(events[1..], cutoff)
  }

  /** w holds each event strictly after cutoff as often as the log does, and nothing else. */
  ghost predicate IsWindow(w: seq<Event>, events: seq<Event>, cutoff: int) {
    forall e :: multiset(w)[e] == if e.time > cutoff then multiset(events)[e] else 0
  }

  /** The window keeps exactly the events after the cutoff, with their multiplicities. */
  lemma {:induction false} WindowExact(events: seq<Event>, cutoff: int)
    ensures IsWindow(Window(events, cutoff), events, cutoff)
  {
    if events != [] {
      WindowExact(events[1..], cutoff);
      assert events == [events[0]] + events[1..];
    }
  }

  /** The events of day d, in log order. */
  function OnDay(events: seq<Event>, d: int): (r: seq<Event>)
    ensures forall e :: e in r <==> e in events && DayOf(e.time) == d
  {
    if events == [] then []
    else (if DayOf(events[0].time) == d then [events[0]] else []) + OnDay(events[1..], d)
  }

  /** s holds each event of day d as often as the log does, and nothing else. */
  ghost predicate IsDay(s: seq<Event>, events: seq<Event>, d: int) {
    forall e :: multiset(s)[e] == if DayOf(e.time) == d then multiset(events)[e] else 0
  }

  /** A day's selection keeps exactly that day's events, with their multiplicities. */
  lemma {:induction false} OnDayExact(events: seq<Event>, d: int)
    ensures IsDay(OnDay(events, d), events, d)
  {
    if events != [] {
      OnDayExact(events[1..], d);
      assert events == [events[0]] + events[1..];
    }
  }

  datatype Bucket = Bucket(day: int, members: seq<Event>)

  /** The day of each bucket, in bucket order: the chart's x axis. */
  function Days(bs: seq<Bucket>): seq<int> {
    seq(|bs|, i requires 0 <= i < |bs| => bs[i].day)
  }

  lemma DaysIndex(bs: seq<Bucket>)
    ensures |Days(bs)| == |bs|
    ensures forall i :: 0 <= i < |bs| ==> Days(bs)[i] == bs[i].day
  {
  }

  predicate StrictlyIncreasing(s: seq<int>) {
    forall i, j :: 0 <= i < j < |s| ==> s[i] < s[j]
  }

  /** The number of events held by all buckets together. */
  function Total(bs: seq<Bucket>): nat {
    if bs == [] then 0 else |bs[0].members| + Total(bs[1..])
  }

  /** Buckets ordered by day, one per day, none empty. */
  predicate WellFormed(bs: seq<Bucket>) {
    && StrictlyIncreasing(Days(bs))
    && forall i :: 0 <= i < |bs| ==> bs[i].members != []
  }

  /** The events bucketed under day x (none when x has no bucket). */
  function Members(bs: seq<Bucket>, x: int): seq<Event> {
    if bs == [] then [] else if bs[0].day == x then bs[0].members else Members(bs[1..], x)
  }

  /** Files e under its day: into the existing bucket, or a new one in day order. */
  function Add(e: Event, bs: seq<Bucket>): seq<Bucket> {
    var d := DayOf(e.time);
    if bs == [] then [Bucket(d, [e])]
    else if bs[0].day == d then [Bucket(d, [e] + bs[0].members)] + bs[1..]
    else if d < bs[0].day then [Bucket(d, [e])] + bs
    else [bs[0]] + Add(e, bs[1..])
  }

  lemma WellFormedTail(bs: seq<Bucket>)
    requires WellFormed(bs) && bs != []
    ensures WellFormed(bs[1..])
    ensures forall i :: 0 <= i < |bs| - 1 ==> bs[0].day < bs[1..][i].day
  {
    DaysIndex(bs);
    DaysIndex(bs[1..]);
    assert forall i :: 0 <= i < |bs| - 1 ==> bs[1..][i] == bs[i + 1];
  }

  lemma DaysCons(b: Bucket, rest: seq<Bucket>)
    ensures Days([b] + rest) == [b.day] + Days(rest)
  {
  }

  lemma {:induction false} AddDays(e: Event, bs: seq<Bucket>)
    ensures forall x :: x in Days(Add(e, bs)) <==> x in Days(bs) || x == DayOf(e.time)
  {
    var d := DayOf(e.time);
    if bs == [] {
      assert Days(Add(e, bs)) == [d];
    } else {
      assert bs == [bs[0]] + bs[1..];
      DaysCons(bs[0], bs[1..]);
      if bs[0].day == d {
        DaysCons(Bucket(d, [e] + bs[0].members), bs[1..]);
      } else if d < bs[0].day {
        DaysCons(Bucket(d, [e]), bs);
      } else {
        AddDays(e, bs[1..]);
        DaysCons(bs[0], Add(e, bs[1..]));
      }
    }
  }

  /** A non-empty bucket for an earlier day may lead well-formed buckets. */
  lemma PrependBucket(b: Bucket, rest: seq<Bucket>)
    requires WellFormed(rest) && b.members != []
    requires forall j :: 0 <= j < |rest| ==> b.day < rest[j].day
    ensures WellFormed([b] + rest)
  {
    var r := [b] + rest;
    DaysIndex(r);
    DaysIndex(rest);
    forall i, j | 0 <= i < j < |r|
      ensures Days(r)[i] < Days(r)[j]
    {
      assert r[j] == rest[j - 1];
      if i > 0 {
        assert r[i] == rest[i - 1];
      }
    }
    assert forall i :: 0 < i < |r| ==> r[i] == rest[i - 1];
  }

  lemma {:induction false} AddWellFormed(e: Event, bs: seq<Bucket>)
    requires WellFormed(bs)
    ensures WellFormed(Add(e, bs))
  {
    var d := DayOf(e.time);
    if bs == [] {
      assert Days(Add(e, bs)) == [d];
    } else {
      WellFormedTail(bs);
      if bs[0].day == d {
        PrependBucket(Bucket(d, [e] + bs[0].members), bs[1..]);
      } else if d < bs[0].day {
        PrependBucket(Bucket(d, [e]), bs);
      } else {
        AddWellFormed(e, bs[1..]);
        AddDays(e, bs[1..]);
        var rest := Add(e, bs[1..]);
        forall j | 0 <= j < |rest|
          ensures bs[0].day < rest[j].day
        {
          DaysIndex(rest);
          assert rest[j].day == Days(rest)[j];
          assert rest[j].day in Days(rest);
        }
        PrependBucket(bs[0], rest);
      }
    }
  }

  lemma {:induction false} AddTotal(e: Event, bs: seq<Bucket>)
    ensures Total(Add(e, bs)) == Total(bs) + 1
  {
    var d := DayOf(e.time);
    if bs == [] {
    } else if bs[0].day == d {
      assert Add(e, bs)[1..] == bs[1..];
    } else if d < bs[0].day {
      assert Add(e, bs)[1..] == bs;
    } else {
      AddTotal(e, bs[1..]);
      assert Add(e, bs)[1..] == Add(e, bs[1..]);
    }
  }

  lemma {:induction false} AddMembers(e: Event, bs: seq<Bucket>, x: int)
    requires WellFormed(bs)
    ensures Members(Add(e, bs), x) == (if x == DayOf(e.time) then [e] else []) + Members(bs, x)
  {
    var d := DayOf(e.time);
    if bs == [] {
    } else if bs[0].day == d {
      assert Add(e, bs)[1..] == bs[1..];
    } else if d < bs[0].day {
      assert Add(e, bs)[1..] == bs;
      if x == d {
        MembersBelow(bs, x);
      }
    } else {
      WellFormedTail(bs);
      AddMembers(e, bs[1..], x);
      assert Add(e, bs)[1..] == Add(e, bs[1..]);
    }
  }

  /** No day below the first bucket's has members. */
  lemma MembersBelow(bs: seq<Bucket>, x: int)
    requires WellFormed(bs) && bs != [] && x < bs[0].day
    ensures Members(bs, x) == []
    decreases |bs|
  {
    if |bs| > 1 {
      WellFormedTail(bs);
      MembersBelow(bs[1..], x);
    }
  }

  /** In well-formed buckets a day has a bucket exactly when it has members. */
  lemma {:induction false} DaysAreMemberDays(bs: seq<Bucket>, x: int)
    requires WellFormed(bs)
    ensures x in Days(bs) <==> Members(bs, x) != []
    ensures forall i :: 0 <= i < |bs| ==> bs[i].members == Members(bs, bs[i].day)
  {
    if bs != [] {
      WellFormedTail(bs);
      DaysAreMemberDays(bs[1..], x);
      assert Days(bs) == [bs[0].day] + Days(bs[1..]);
      forall i | 0 < i < |bs|
        ensures bs[i].members == Members(bs, bs[i].day)
      {
        assert bs[i] == bs[1..][i - 1];
      }
    }
  }

  /**
   * GROUP BY day, ORDER BY the earliest time: one bucket per day that has
   * events, in increasing day order, holding exactly that day's events.
   */
  function Group(events: seq<Event>): (r: seq<Bucket>)
    ensures WellFormed(r)
    ensures Total(r) == |events|
    ensures forall x :: Members(r, x) == OnDay(events, x)
  {
    if events == [] then []
    else
      var rest := Group(events[1..]);
      AddWellFormed(events[0], rest);
      AddTotal(events[0], rest);
      forall x ensures Members(Add(events[0], rest), x) == OnDay(events, x) {
        AddMembers(events[0], rest, x);
      }
      Add(events[0], rest)
  }

  /** Each bucket holds exactly its day's events, and the buckets cover every day that has events. */
  lemma GroupBuckets(events: seq<Event>)
    ensures forall x :: x in Days(Group(events)) <==> OnDay(events, x) != []
    ensures forall i :: 0 <= i < |Group(events)| ==>
      Group(events)[i].members == OnDay(events, Group(events)[i].day)
  {
    forall x
      ensures x in Days(Group(events)) <==> OnDay(events, x) != []
    {
      DaysAreMemberDays(Group(events), x);
    }
    DaysAreMemberDays(Group(events), 0);
  }

  /**
   * ORDER BY MIN(time) over day buckets: every event of an earlier bucket
   * happened strictly before every event of a later bucket.
   */
  lemma GroupOrderedByTime(events: seq<Event>, i: int, j: int, a: Event, b: Event)
    requires 0 <= i < j < |Group(events)|
    requires a in Group(events)[i].members && b in Group(events)[j].members
    ensures a.time < b.time
  {
    var g := Group(events);
    GroupBuckets(events);
    assert DayOf(a.time) == g[i].day && DayOf(b.time) == g[j].day;
    assert Days(g)[i] < Days(g)[j];
    EarlierDayEarlierTime(a.time, b.time);
  }

  /** A strictly increasing sequence is determined by its set of elements. */
  lemma {:induction false} StrictlyIncreasingUnique(s: seq<int>, t: seq<int>)
    requires StrictlyIncreasing(s) && StrictlyIncreasing(t)
    requires forall x :: x in s <==> x in t
    ensures s == t
    decreases |s|
  {
    if s == [] {
      forall x
        ensures multiset(t)[x] == 0
      {
        assert x !in t;
      }
      assert multiset(t) == multiset{};
      assert |t| == |multiset(t)|;
    } else {
      assert s[0] in s;
      assert s[0] in t;
      assert t[0] in t;
      assert t[0] in s;
      assert s[0] == t[0];
      forall x
        ensures x in s[1..] <==> x in t[1..]
      {
        assert x in s[1..] <==> x in s && x != s[0];
        assert x in t[1..] <==> x in t && x != t[0];
      }
      StrictlyIncreasingUnique(s[1..], t[1..]);
      assert s == [s[0]] + s[1..] && t == [t[0]] + t[1..];
    }
  }

  /**
   * The day order leaves no freedom: any increasing list of exactly the days
   * that have events is the list of buckets' days.
   */
  lemma DaysDetermined(events: seq<Event>, days: seq<int>)
    requires StrictlyIncreasing(days)
    requires forall x :: x in days <==> OnDay(events, x) != []
    ensures days == Days(Group(events))
  {
    GroupBuckets(events);
    StrictlyIncreasingUnique(days, Days(Group(events)));
  }
}
