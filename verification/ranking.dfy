/**
 * The ranking report: senders of the trailing 24 hours by number of barrages,
 * each shown under the nickname of their latest barrage in that window, at most
 * ten, most active first. `ORDER BY count DESC LIMIT 10` and `DISTINCT ON`
 * leave ties to the store, so a ranking is specified relationally
 * (IsValidRanking) and RankRows computes one admissible answer.
 */
module RankingReport {
  import opened Wrappers
  import opened Models
  import opened Schemas
  import Settings
  import Daily
  import Sorting

  const SeriesName: string := "发送弹幕数"

  /** `LIMIT 10` */
  const Limit: nat := 10

  /** The events the ranking aggregates: `time > now() - interval '24 hours'`. */
  function DayWindow(events: seq<Event>, now: int): seq<Event> {
    Daily.Window(events, now - Settings.Hours24)
  }

  function Min(a: int, b: int): int {
    if a <= b then a else b
  }

  function UserIds(es: seq<Event>): set<string> {
    set e | e in es :: e.userid
  }

  predicate NoDup<T(==)>(s: seq<T>) {
    forall i, j :: 0 <= i < j < |s| ==> s[i] != s[j]
  }

  /** The distinct senders: `GROUP BY userid`. */
  function Senders(es: seq<Event>): (r: seq<string>)
    ensures NoDup(r)
    ensures forall u :: u in r <==> u in UserIds(es)
  {
    if es == [] then []
    else
      var rest := Senders(es[1..]);
      assert es == [es[0]] + es[1..];
      assert forall u :: u in UserIds(es) <==> u == es[0].userid || u in UserIds(es[1..]);
      if es[0].userid in rest then rest else [es[0].userid] + rest
  }

  /** `count(*)` of one sender's barrages. */
  function CountBy(es: seq<Event>, u: string): (r: nat)
    ensures r > 0 <==> u in UserIds(es)
  {
    if es == [] then 0
    else
      assert es == [es[0]] + es[1..];
      assert forall v :: v in UserIds(es) <==> v == es[0].userid || v in UserIds(es[1..]);
      (if es[0].userid == u then 1 else 0) + CountBy(es[1..], u)
  }

  /** `DISTINCT ON (userid) ... ORDER BY userid, time DESC`: a latest barrage of the sender. */
  function Latest(es: seq<Event>, u: string): (r: Option<Event>)
    ensures r.Some? <==> u in UserIds(es)
    ensures r.Some? ==> r.value in es && r.value.userid == u
    ensures r.Some? ==> forall e :: e in es && e.userid == u ==> e.time <= r.value.time
  {
    if es == [] then None
    else
      assert es == [es[0]] + es[1..];
      assert forall v :: v in UserIds(es) <==> v == es[0].userid || v in UserIds(es[1..]);
      var rest := Latest(es[1..], u);
      if es[0].userid != u then rest
      else if rest.Some? && rest.value.time > es[0].time then rest
      else Some(es[0])
  }

  /** name is the nickname of one of u's latest barrages in es. */
  predicate IsLatestName(es: seq<Event>, u: string, name: string) {
    exists l :: l in es && l.userid == u && l.nickname == name &&
      forall e :: e in es && e.userid == u ==> e.time <= l.time
  }

  datatype RankRow = RankRow(userid: string, count: nat, nickname: string)

  function CountOf(row: RankRow): int {
    row.count
  }

  /** A row that reports sender u truthfully. */
  predicate RowFits(es: seq<Event>, row: RankRow) {
    && row.userid in UserIds(es)
    && row.count == CountBy(es, row.userid)
    && IsLatestName(es, row.userid, row.nickname)
  }

  function RowIds(rows: seq<RankRow>): set<string> {
    set row | row in rows :: row.userid
  }

  predicate DistinctIds(rows: seq<RankRow>) {
    forall i, j :: 0 <= i < j < |rows| ==> rows[i].userid != rows[j].userid
  }

  /**
   * An admissible ranking: min(10, #senders) distinct senders, each with their
   * count and latest nickname, counts non-increasing, and no sender left out
   * with a larger count than a listed one.
   */
  predicate IsValidRanking(es: seq<Event>, rows: seq<RankRow>) {
    && |rows| == Min(Limit, |UserIds(es)|)
    && DistinctIds(rows)
    && (forall i :: 0 <= i < |rows| ==> RowFits(es, rows[i]))
    && Sorting.SortedBy(rows, CountOf, Sorting.Descending)
    && (forall u :: u in UserIds(es) && u !in RowIds(rows) ==>
          forall i :: 0 <= i < |rows| ==> CountBy(es, u) <= rows[i].count)
  }

  /** The ranking row of sender u: `rank INNER JOIN name ON userid`. */
  function RowFor(es: seq<Event>, u: string): (r: RankRow)
    requires u in UserIds(es)
    ensures RowFits(es, r) && r.userid == u
  {
    var l := Latest(es, u).value;
    RankRow(u, CountBy(es, u), l.nickname)
  }

  function Join(es: seq<Event>, us: seq<string>): seq<RankRow>
    requires forall u :: u in us ==> u in UserIds(es)
  {
    seq(|us|, i requires 0 <= i < |us| => RowFor(es, us[i]))
  }

  function ToSet<T(==)>(s: seq<T>): set<T> {
    set x | x in s
  }

  lemma {:induction false} DistinctCard<T>(s: seq<T>)
    requires NoDup(s)
    ensures |ToSet(s)| == |s|
  {
    if s != [] {
      assert ToSet(s) == {s[0]} + ToSet(s[1..]);
      assert s[0] !in ToSet(s[1..]);
      DistinctCard(s[1..]);
    }
  }

  lemma {:induction false} DistinctMultiplicity<T>(s: seq<T>, x: T)
    requires NoDup(s)
    ensures multiset(s)[x] <= 1
  {
    if s != [] {
      assert s == [s[0]] + s[1..];
      DistinctMultiplicity(s[1..], x);
      if s[0] == x {
        assert x !in s[1..];
      }
    }
  }

  lemma RepeatMultiplicity<T>(s: seq<T>, i: int, j: int)
    requires 0 <= i < j < |s| && s[i] == s[j]
    ensures multiset(s)[s[i]] >= 2
  {
    assert s == s[..j] + s[j..];
    assert s[i] in s[..j];
    assert s[j] in s[j..];
  }

  /** The joined rows of distinct senders are distinct, one per sender. */
  lemma JoinFacts(es: seq<Event>, us: seq<string>)
    requires forall u :: u in us ==> u in UserIds(es)
    requires NoDup(us)
    ensures |Join(es, us)| == |us|
    ensures forall i :: 0 <= i < |us| ==> Join(es, us)[i] == RowFor(es, us[i])
    ensures NoDup(Join(es, us))
    ensures forall row :: row in Join(es, us) ==> row.userid in UserIds(es) && row == RowFor(es, row.userid)
  {
    var rows := Join(es, us);
    forall i, j | 0 <= i < j < |rows|
      ensures rows[i] != rows[j]
    {
      assert rows[i].userid == us[i] && rows[j].userid == us[j];
    }
  }

  /** A permutation of rows in which each row is determined by its sender keeps the senders distinct. */
  lemma PermutationKeepsIdsDistinct(es: seq<Event>, rows: seq<RankRow>, sorted: seq<RankRow>)
    requires NoDup(rows)
    requires forall row :: row in rows ==> row.userid in UserIds(es) && row == RowFor(es, row.userid)
    requires multiset(sorted) == multiset(rows)
    ensures DistinctIds(sorted)
  {
    forall i, j | 0 <= i < j < |sorted|
      ensures sorted[i].userid != sorted[j].userid
    {
      assert sorted[i] in multiset(rows) && sorted[j] in multiset(rows);
      if sorted[i].userid == sorted[j].userid {
        assert sorted[i] == sorted[j];
        RepeatMultiplicity(sorted, i, j);
        DistinctMultiplicity(rows, sorted[i]);
      }
    }
  }

  /** A sender whose row falls outside the kept prefix counts no more than any kept row. */
  lemma LeftOutCountsLess(es: seq<Event>, rows: seq<RankRow>, sorted: seq<RankRow>, n: int, u: string, i: int)
    requires Sorting.SortedBy(sorted, CountOf, Sorting.Descending)
    requires multiset(sorted) == multiset(rows)
    requires forall row :: row in rows ==> row.userid in UserIds(es) && row == RowFor(es, row.userid)
    requires exists row :: row in rows && row.userid == u
    requires 0 <= i < n <= |sorted|
    requires u !in RowIds(sorted[..n])
    ensures CountBy(es, u) <= sorted[i].count
  {
    var row :| row in rows && row.userid == u;
    assert row in multiset(sorted);
    var m :| 0 <= m < |sorted| && sorted[m] == row;
  }

  /** The number of joined rows is the number of senders. */
  lemma JoinSize(es: seq<Event>)
    ensures |Join(es, Senders(es))| == |UserIds(es)|
  {
    var us := Senders(es);
    DistinctCard(us);
    assert ToSet(us) == UserIds(es);
  }

  /** Sorting the joined rows and keeping ten yields an admissible ranking. */
  lemma TopRowsValid(es: seq<Event>, sorted: seq<RankRow>)
    requires Sorting.SortedBy(sorted, CountOf, Sorting.Descending)
    requires multiset(sorted) == multiset(Join(es, Senders(es)))
    ensures IsValidRanking(es, sorted[..Min(Limit, |sorted|)])
  {
    var us := Senders(es);
    var rows := Join(es, us);
    var n := Min(Limit, |sorted|);
    JoinFacts(es, us);
    JoinSize(es);
    assert |sorted| == |multiset(sorted)| == |multiset(rows)| == |UserIds(es)|;
    PermutationKeepsIdsDistinct(es, rows, sorted);
    assert DistinctIds(sorted[..n]);
    TopRowsFit(es, rows, sorted, n);
    TopNoneAbove(es, sorted, n);
  }

  lemma TopNoneAbove(es: seq<Event>, sorted: seq<RankRow>, n: int)
    requires Sorting.SortedBy(sorted, CountOf, Sorting.Descending)
    requires multiset(sorted) == multiset(Join(es, Senders(es)))
    requires 0 <= n <= |sorted|
    ensures forall u :: u in UserIds(es) && u !in RowIds(sorted[..n]) ==>
      forall i :: 0 <= i < n ==> CountBy(es, u) <= sorted[..n][i].count
  {
    var us := Senders(es);
    var rows := Join(es, us);
    JoinFacts(es, us);
    forall u, i | u in UserIds(es) && u !in RowIds(sorted[..n]) && 0 <= i < n
      ensures CountBy(es, u) <= sorted[..n][i].count
    {
      var k :| 0 <= k < |us| && us[k] == u;
      assert rows[k] in rows && rows[k].userid == u;
      LeftOutCountsLess(es, rows, sorted, n, u, i);
    }
  }

  lemma TopRowsFit(es: seq<Event>, rows: seq<RankRow>, sorted: seq<RankRow>, n: int)
    requires forall row :: row in rows ==> row.userid in UserIds(es) && row == RowFor(es, row.userid)
    requires multiset(sorted) == multiset(rows)
    requires 0 <= n <= |sorted|
    ensures forall i :: 0 <= i < n ==> RowFits(es, sorted[..n][i])
  {
    forall i | 0 <= i < n
      ensures RowFits(es, sorted[..n][i])
    {
      assert sorted[i] in multiset(rows);
      assert sorted[..n][i] == sorted[i];
    }
  }

  /**
   * One admissible ranking: the joined rows of all senders, sorted by count
   * descending, the first ten kept.
   */
  function RankRows(es: seq<Event>): (r: seq<RankRow>)
    ensures IsValidRanking(es, r)
  {
    var sorted := Sorting.Sort(Join(es, Senders(es)), CountOf, Sorting.Descending);
    TopRowsValid(es, sorted);
    sorted[..Min(Limit, |sorted|)]
  }

  /** Rows with distinct senders name as many senders as there are rows. */
  lemma RowIdsCard(rows: seq<RankRow>)
    requires DistinctIds(rows)
    ensures |RowIds(rows)| == |rows|
  {
    var ids := seq(|rows|, i requires 0 <= i < |rows| => rows[i].userid);
    DistinctCard(ids);
    forall u
      ensures u in ToSet(ids) <==> u in RowIds(rows)
    {
      if u in RowIds(rows) {
        var row :| row in rows && row.userid == u;
        var k :| 0 <= k < |rows| && rows[k] == row;
        assert ids[k] == u;
      }
    }
    assert ToSet(ids) == RowIds(rows);
  }

  /** Every admissible ranking lists all senders of the window when there are at most ten. */
  lemma AllListedWhenFew(es: seq<Event>, rows: seq<RankRow>)
    requires IsValidRanking(es, rows)
    requires |UserIds(es)| <= Limit
    ensures RowIds(rows) == UserIds(es)
  {
    RowIdsCard(rows);
    assert forall row :: row in rows ==> RowFits(es, row);
    assert RowIds(rows) <= UserIds(es);
    assert |UserIds(es) - RowIds(rows)| == 0;
  }

  /** `UserRanking(name=nickname, value=count)` for each row. */
  function Entries(rows: seq<RankRow>): seq<UserRanking> {
    seq(|rows|, i requires 0 <= i < |rows| => UserRanking(rows[i].nickname, rows[i].count))
  }

  /** The entry shows the count and a latest nickname of some sender of es. */
  predicate EntryFits(es: seq<Event>, entry: UserRanking) {
    exists u :: u in UserIds(es) && entry.value == CountBy(es, u) >= 1 && IsLatestName(es, u, entry.name)
  }

  /** The entries of an admissible ranking, read without the sender ids. */
  predicate EntriesFit(es: seq<Event>, data: seq<UserRanking>) {
    && |data| == Min(Limit, |UserIds(es)|)
    && (forall i, j :: 0 <= i < j < |data| ==> data[i].value >= data[j].value)
    && (forall i :: 0 <= i < |data| ==> EntryFits(es, data[i]))
  }

  lemma ValidRankingEntries(es: seq<Event>, rows: seq<RankRow>)
    requires IsValidRanking(es, rows)
    ensures EntriesFit(es, Entries(rows))
  {
    var data := Entries(rows);
    assert |data| == Min(Limit, |UserIds(es)|);
    assert forall i, j :: 0 <= i < j < |data| ==> data[i].value >= data[j].value by {
      assert Sorting.SortedBy(rows, CountOf, Sorting.Descending);
    }
    EntriesNamed(es, rows);
  }

  lemma EntriesNamed(es: seq<Event>, rows: seq<RankRow>)
    requires forall i :: 0 <= i < |rows| ==> RowFits(es, rows[i])
    ensures forall i :: 0 <= i < |rows| ==> EntryFits(es, Entries(rows)[i])
  {
    forall i | 0 <= i < |rows|
      ensures EntryFits(es, Entries(rows)[i])
    {
      var u := rows[i].userid;
      assert RowFits(es, rows[i]);
      assert u in UserIds(es) && Entries(rows)[i].value == CountBy(es, u) >= 1 && IsLatestName(es, u, Entries(rows)[i].name);
    }
  }

  /**
   * `get_ranking_data`: one series whose entries are those of an admissible
   * ranking of the window (distinct senders, top counts, latest nicknames), so
   * at most ten entries, values non-increasing, each the 24-hour count of a
   * sender shown under that sender's latest nickname.
   */
  function RankingData(events: seq<Event>, now: int): (r: Ranking)
    ensures |r.series| == 1 && r.series[0].name == SeriesName
    ensures exists rows :: IsValidRanking(DayWindow(events, now), rows) && r.series[0].data == Entries(rows)
    ensures EntriesFit(DayWindow(events, now), r.series[0].data)
  {
    var rows := RankRows(DayWindow(events, now));
    ValidRankingEntries(DayWindow(events, now), rows);
    Ranking([RankingSeries(SeriesName, Entries(rows))])
  }

  /**
   * A sender who wrote as "Alice" and an hour later as "Alicia" inside the
   * window is ranked once, as "Alicia" with value 2.
   */
  lemma LatestNicknameExample(t: int)
    ensures RankingData([Event(1, "u1", "Alice", t, None, false),
                         Event(2, "u1", "Alicia", t + Settings.MicrosPerHour, None, false)],
                        t + 2 * Settings.MicrosPerHour).series[0].data
            == [UserRanking("Alicia", 2)]
  {
    var e1 := Event(1, "u1", "Alice", t, None, false);
    var e2 := Event(2, "u1", "Alicia", t + Settings.MicrosPerHour, None, false);
    var now := t + 2 * Settings.MicrosPerHour;
    ExampleWindow(e1, e2, now);
    ExampleEntries(e1, e2, RankingData([e1, e2], now).series[0].data);
  }

  lemma ExampleWindow(e1: Event, e2: Event, now: int)
    requires now - Settings.Hours24 < e1.time && now - Settings.Hours24 < e2.time
    ensures DayWindow([e1, e2], now) == [e1, e2]
  {
    assert [e1, e2][1..] == [e2];
    assert Daily.Window([e2], now - Settings.Hours24) == [e2];
  }

  lemma ExampleEntries(e1: Event, e2: Event, data: seq<UserRanking>)
    requires e1 == Event(1, "u1", "Alice", e1.time, None, false)
    requires e2 == Event(2, "u1", "Alicia", e1.time + Settings.MicrosPerHour, None, false)
    requires EntriesFit([e1, e2], data)
    ensures data == [UserRanking("Alicia", 2)]
  {
    var es := [e1, e2];
    assert UserIds(es) == {"u1"} by {
      assert e1 in es && e2 in es;
      assert forall e :: e in es ==> e == e1 || e == e2;
    }
    assert |data| == 1;
    assert EntryFits(es, data[0]);
    var u :| u in UserIds(es) && data[0].value == CountBy(es, u) && IsLatestName(es, u, data[0].name);
    assert CountBy(es, "u1") == 2 by {
      assert es[1..] == [e2];
    }
    var l :| l in es && l.userid == u && l.nickname == data[0].name &&
      forall e :: e in es && e.userid == u ==> e.time <= l.time;
    assert e2 in es;
    assert l == e2;
  }
}
