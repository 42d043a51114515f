# fairy-note barrage reports, modelled in Dafny

fairy-note is a small backend that serves the chat ("barrage") log of one live-stream room. Its logic sits on the read side, `fairy_note/routers.py`. There is one filtered, sorted listing (`GET /barrages`). There are also three dashboard reports, each an SQL aggregate with a little Python after it:

- **trend**: barrages per calendar day over the trailing week;
- **stacked**: per day, the total, the fan-club barrages, the noble barrages and a derived "normal" count;
- **ranking**: the ten most active senders of the trailing 24 hours, each under their latest nickname.

The model treats the event log as an immutable snapshot `seq<Event>` and takes "now" as a parameter. Each operation is a pure function of the two. Where the SQL leaves tie order to the database (`ORDER BY time`, `ORDER BY count DESC`, `DISTINCT ON`), the result is specified as a relation: `Listing.IsValidListing` and `RankingReport.IsValidRanking`. The function then computes one admissible answer and is proved to satisfy that relation.

Representation choices:

- Times are integers counting microseconds since the Unix epoch.
- A calendar day is `Daily.DayOf(t) = floor((t + 8h) / 24h)`. This assumes that `DATE_TRUNC('day', time)` cuts days at UTC+8, the zone the application configures for its ORM, Asia/Shanghai (`fairy_note/settings.py:35`). The raw SQL actually truncates in the database session's zone (see `Daily.DayOf` under "## Left out"). Every proved property holds for any fixed offset.
- Day labels stay as day numbers.
- An event carries the two payload fields the reports read:
  - `brid`: the text of `chatmsg->>'brid'`, `None` when the key is absent or JSON null;
  - `hasNc`: whether the key `nc` is present.
- `ROOM_ID` is a parameter, `roomId`.
- A time bound of the listing applies whenever it is supplied. The guard `if dt_min:` tests a datetime, and a datetime is never falsy. The guard `if username:` skips both an absent and an empty username.

Modules, following the source: `Models` (the `DouyuBarrage` row), `Schemas` (the chart shapes), `Settings` (window lengths, zone offset), `Listing` (`get_barrage`), `Text` (`icontains`), `Sorting` (ordering by one key), `Daily` (window and day grouping shared by trend and stacked), `TrendReport`, `StackedReport`, `RankingReport`, and `Wrappers` (`Option`).

Points where the code's behaviour is easy to misread:

- `get_barrage` (routers.py:77-84) returns the whole query set. No row cap is modelled.
- `chatmsg->'nc' IS NOT NULL` (routers.py:123) is true for a JSON `null` value too. So `hasNc` means the key is present.
- `ORDER BY count DESC` (routers.py:172) gives non-increasing counts, not strictly decreasing ones, and so does the model.

## Model

| member | source | states |
|---|---|---|
| `Listing.ParseSortMode` | fairy_note/routers.py:50-52 | `sort` is accepted exactly when it is the literal `ASC` or `DESC`, and the mode parsed is the one that literal names |
| `Listing.ParseSortModeRoundTrip` | fairy_note/routers.py:50-52 | parsing the literal of each sort mode gives that mode back |
| `Listing.Filter` | fairy_note/routers.py:70-76 | the result holds every event that passes all supplied filters, as often as the log holds it, and no other event |
| `Listing.GetBarrage` | fairy_note/routers.py:63-84 | the response is a permutation of the matching events, ordered by time ascending for `ASC` and descending for `DESC` |
| `Listing.ListingTimesDetermined` | fairy_note/routers.py:77-84 | any two admissible responses list the same timestamps in the same order; only events with equal times may trade places |
| `Listing.ListingMembership` | fairy_note/routers.py:70-76 | an event appears in an admissible response iff it is in the log and passes every supplied filter |
| `Listing.CrossedBoundsEmpty` | fairy_note/routers.py:73-76 | with `dt_min > dt_max` the only admissible response is empty |
| `Listing.EmptyUsernameIsAbsent` | fairy_note/routers.py:71-72 | an empty `username` filters nothing: the admissible responses are those of a query without it |
| `Text.Contains` | fairy_note/routers.py:72 | the left-to-right scan says yes iff the value occurs as a contiguous run at some position of the field |
| `Text.ContainsIgnoresQueryCase` | fairy_note/routers.py:72 | `icontains` gives the same answer for a value and its lower-cased form |
| `Sorting.Sort` | fairy_note/routers.py:77-84 | the result is a permutation of the input, ordered by the key in the requested direction |
| `Sorting.SortedSameKeys` | fairy_note/routers.py:77-84 | two sorted permutations of one multiset have equal key sequences |
| `Daily.Window` | fairy_note/routers.py:96 | an event is in the window iff it is in the log and its time is strictly after the cutoff |
| `Daily.WindowExact` | fairy_note/routers.py:96 | the window holds each event strictly after the cutoff as often as the log holds it, and no other event |
| `Daily.OnDayExact` | fairy_note/routers.py:93-97 | a day's selection holds each event falling on that day as often as the log holds it, and no other event |
| `Daily.DayOfMonotone` | fairy_note/routers.py:93 | day truncation never puts a later time on an earlier day |
| `Daily.Group` | fairy_note/routers.py:93-98 | the buckets have strictly increasing days, none is empty, together they hold every event once, and each holds exactly its day's events |
| `Daily.GroupBuckets` | fairy_note/routers.py:97 | a day has a bucket iff some event falls on it, and the bucket holds that day's events |
| `Daily.GroupOrderedByTime` | fairy_note/routers.py:98 | every event of an earlier bucket is strictly earlier than every event of a later one, so ordering by `MIN(time)` is ordering by day |
| `Daily.DaysDetermined` | fairy_note/routers.py:97-98 | any strictly increasing list of exactly the days that have events is the buckets' day list, so the axis order leaves no freedom |
| `TrendReport.TrendData` | fairy_note/routers.py:89-111 | one series; the axis and the series have equal length; the axis lists each day with windowed events once, in increasing order; each count is that day's number of windowed events and at least 1; the counts sum to the window size |
| `TrendReport.TrendWindow` | fairy_note/routers.py:96-107 | only events strictly after `now - 1 week` are counted, and an empty window gives an empty axis and series |
| `StackedReport.CountFans` | fairy_note/routers.py:120-121 | a day's fan count never exceeds its number of barrages |
| `StackedReport.CountNoble` | fairy_note/routers.py:122-123 | a day's noble count never exceeds its number of barrages |
| `StackedReport.StackedData` | fairy_note/routers.py:114-146 | the trend's axis; three series named normal, fans, noble in that order, each as long as the axis; per day fans and noble at most the total, normal + fans + noble = total, and normal = (neither) - (both) |
| `StackedReport.AllMinusFansMinusNoble` | fairy_note/routers.py:135 | total - fans - noble equals the barrages that are neither fan nor noble minus those that are both |
| `StackedReport.NegativeNormal` | fairy_note/routers.py:135 | a day whose only barrage is both a fan and a noble barrage gets normal = -1 |
| `StackedReport.StackedDataCorrected` | fairy_note/routers.py:135-136 | with normal counting the barrages that are neither, every normal is between 0 and the total, and normal plus the fan-or-noble barrages is the total |
| `StackedReport.AgreeWithoutOverlap` | fairy_note/routers.py:119-135 | when no windowed barrage is both fan and noble, the report as written equals the corrected one |
| `StackedReport.StackedSumsToTrend` | fairy_note/routers.py:96-136 | for the same log and `now`, each day's normal + fans + noble equals the trend report's count for that day |
| `RankingReport.Senders` | fairy_note/routers.py:164-168 | the grouped senders are distinct and are exactly the senders of the window |
| `RankingReport.CountBy` | fairy_note/routers.py:165 | a sender's count is positive iff the sender has a barrage in the window |
| `RankingReport.Latest` | fairy_note/routers.py:153-159 | for a sender of the window it returns one of that sender's barrages with no later barrage of theirs, and nothing for anyone else |
| `RankingReport.RowFor` | fairy_note/routers.py:161-171 | the joined row of a sender carries that sender's count and the nickname of one of their latest barrages |
| `RankingReport.RankRows` | fairy_note/routers.py:152-174 | min(10, #senders) rows; distinct senders; each with its count and latest nickname; counts non-increasing; no sender left out has a count above a listed one |
| `RankingReport.AllListedWhenFew` | fairy_note/routers.py:172-173 | with at most ten senders in the window, every admissible ranking lists all of them |
| `RankingReport.RankingData` | fairy_note/routers.py:149-182 | one series whose entries are those of an admissible ranking of the 24-hour window: min(10, #senders) distinct senders, counts non-increasing, no sender left out above a listed one, each shown with its count (at least 1) under a latest nickname |
| `RankingReport.LatestNicknameExample` | fairy_note/routers.py:153-158 | a sender who wrote as "Alice" and an hour later as "Alicia" is ranked once, as "Alicia" with value 2 |

## Left out

- Authentication, JWT issue and check, the users router, password reset and the superuser script (routers.py:32-47, 209-229; `create_superuser.py`). These are delegated to `fastapi_users`, which is not part of this model.
- `get_dashboard_data` (routers.py:193-204). It only calls the three reports and packs their results.
- StackedReport.StackedSumsToTrend: holds for one log and one `now`. The dashboard runs the trend and stacked queries in separate `in_transaction()` blocks (routers.py:90, 115), so `NOW()` and the snapshot may differ between them, and the two charts are then not promised to share an axis or agree per day.
- Transactions and connections (`in_transaction`). Each report is a pure function of one snapshot.
- Settings loading, app wiring, CORS and start-up (`settings.py`, `factory.py`, `main.py`). `ROOM_ID` and "now" are parameters, and the zone offset is a constant.
- Pydantic's coercion of integer counts into the `List[str]` of `ChartSeries.data` (schemas.py:28). This is serialisation only.
- Daily.DayOf: assumes UTC+8. `DATE_TRUNC('day', time)` (routers.py:93, 97, 118, 126) runs as raw SQL on a timestamptz column, so it truncates in the PostgreSQL session's `TimeZone`. Neither routers.py nor settings.py sets that zone; `"timezone": "Asia/Shanghai"` (settings.py:35) configures the ORM only. Under another session zone, events near midnight fall on a different day than in the model.
- `strftime("%Y/%m/%d")` day labels and real calendar and time-zone arithmetic. Days are integers from a monotone truncation.
- Text.Lower: folds the ASCII letters only. The database's case folding for `icontains` covers all of Unicode.
- Text.Contains: treats the username as a literal substring. How the ORM escapes LIKE wildcards is not modelled.
- The bytes and width limits of the columns (`userid` max 20, `nickname` max 100 characters). The reports do not depend on them.

## Findings

| source | as written | input that shows it | evidently intended | confidence | as-written member | corrected member |
|---|---|---|---|---|---|---|
| fairy_note/routers.py:135 | `normal = all - fans - noble` subtracts a barrage that is both a fan-club and a noble barrage twice | one barrage in the window with `brid` equal to `ROOM_ID` and an `nc` key: that day's normal value is -1 | normal counts the barrages that are neither fan nor noble, so it is never negative | medium; not executed | `StackedReport.NegativeNormal` | `StackedReport.StackedDataCorrected` |
