/**
 `GET /journal-insights`: how many entries carry each emotion and each
 sentiment, and how many entries were made on each calendar day.
 */
module Insights {
  import opened Wrappers
  import opened Text
  import opened Calendar
  import opened Models

  /* ---------- Count maps ---------- */

  /** `GROUP BY label` with `count()`: each label that occurs, mapped to the
      number of its occurrences. */
  function Tally(labels: seq<string>): (m: map<string, nat>)
    ensures forall k :: k in m <==> k in labels
    ensures forall k :: k in m ==> m[k] == multiset(labels)[k]
  {
    if |labels| == 0 then map[]
    else
      var rest := Tally(labels[1..]);
      var k := labels[0];
      assert labels == [k] + labels[1..];
      rest[k := (if k in rest then rest[k] else 0) + 1]
  }

  function Emotions(store: Store): (labels: seq<string>)
    ensures |labels| == |store|
    ensures forall i :: 0 <= i < |store| ==> labels[i] == store[i].emotion
  {
    seq(|store|, i requires 0 <= i < |store| => store[i].emotion)
  }

  function Sentiments(store: Store): (labels: seq<string>)
    ensures |labels| == |store|
    ensures forall i :: 0 <= i < |store| ==> labels[i] == store[i].sentiment
  {
    seq(|store|, i requires 0 <= i < |store| => store[i].sentiment)
  }

  ghost function SomeKey(m: map<string, nat>): (k: string)
    requires |m| > 0
    ensures k in m
  {
    var k :| k in m; k
  }

  /** The sum of the counts in a count map. */
  ghost function SumValues(m: map<string, nat>): nat
    decreases |m|
  {
    if |m| == 0 then 0
    else
      var k := SomeKey(m);
      assert (m - {k}).Keys == m.Keys - {k};
      m[k] + SumValues(m - {k})
  }

  /** The sum does not depend on which key is taken out first. */
  lemma {:induction false} SumValuesRemove(m: map<string, nat>, k: string)
    requires k in m
    ensures SumValues(m) == m[k] + SumValues(m - {k})
    decreases |m|
  {
    var k' := SomeKey(m);
    if k' != k {
      assert (m - {k'}).Keys == m.Keys - {k'};
      assert (m - {k}).Keys == m.Keys - {k};
      SumValuesRemove(m - {k'}, k);
      SumValuesRemove(m - {k}, k');
      assert (m - {k'}) - {k} == (m - {k}) - {k'};
    }
  }

  /** Raising one count by one raises the sum by one. */
  lemma BumpSum(m: map<string, nat>, k: string)
    ensures SumValues(m[k := (if k in m then m[k] else 0) + 1]) == SumValues(m) + 1
  {
    var m' := m[k := (if k in m then m[k] else 0) + 1];
    SumValuesRemove(m', k);
    if k in m {
      SumValuesRemove(m, k);
      assert m' - {k} == m - {k};
    } else {
      assert m' - {k} == m;
    }
  }

  /** Tallying one more label bumps its count. */
  lemma TallyCons(labels: seq<string>)
    requires |labels| > 0
    ensures var rest, k := Tally(labels[1..]), labels[0];
      Tally(labels) == rest[k := (if k in rest then rest[k] else 0) + 1]
  {
  }

  /** The counts of a tally add up to the number of labels. */
  lemma {:induction false} TallySum(labels: seq<string>)
    ensures SumValues(Tally(labels)) == |labels|
  {
    if |labels| > 0 {
      var tail, k := labels[1..], labels[0];
      var m := Tally(tail);
      var m' := m[k := (if k in m then m[k] else 0) + 1];
      TallySum(tail);
      TallyCons(labels);
      BumpSum(m, k);
      assert SumValues(m') == |tail| + 1;
    }
  }

  /* ---------- Timeline ---------- */

  /** A day number within the calendar's range. */
  type DayIndex = n: nat | n < DayCount

  /** The date key of a point in time: `timestamp.date().isoformat()`. */
  function DateKey(t: Tick): (s: string)
    ensures |s| == 10 && IsoDateShape(s)
    ensures DigitsValue(s[..4]) == DateOf(t).year
    ensures DigitsValue(s[5..7]) == DateOf(t).month
    ensures DigitsValue(s[8..]) == DateOf(t).day
  {
    IsoDate(DateOf(t))
  }

  /** Two points in time share a date key exactly when they fall on the same day. */
  lemma DateKeyOfDay(t: Tick, d: DayIndex)
    ensures DateKey(t) == IsoDate(DateOfDay(d)) <==> DayOf(t) == d
  {
    IsoDateOrder(DateOf(t), DateOfDay(d));
    DateOfDayOrder(DayOf(t), d);
    DateOfDayOrder(d, DayOf(t));
  }

  lemma DateKeyOfEveryDay(t: Tick)
    ensures forall d: DayIndex :: DateKey(t) == IsoDate(DateOfDay(d)) <==> DayOf(t) == d
  {
    forall d: DayIndex ensures DateKey(t) == IsoDate(DateOfDay(d)) <==> DayOf(t) == d {
      DateKeyOfDay(t, d);
    }
  }

  /** `date_counts[date]`: the number of entries whose timestamp falls on `date`. */
  function EntriesOn(store: Store, date: string): nat {
    if |store| == 0 then 0
    else
      var e := store[0];
      (if e.timestamp.Some? && DateKey(e.timestamp.value) == date then 1 else 0)
        + EntriesOn(store[1..], date)
  }

  /** The number of entries that have a timestamp. */
  function Stamped(store: Store): (n: nat)
    ensures n <= |store|
  {
    if |store| == 0 then 0
    else (if store[0].timestamp.Some? then 1 else 0) + Stamped(store[1..])
  }

  /** The day of every entry that has a timestamp, in storage order. */
  function StampedDays(store: Store): (days: seq<DayIndex>)
    ensures |days| == Stamped(store)
    ensures forall d: DayIndex :: multiset(days)[d] == EntriesOn(store, IsoDate(DateOfDay(d)))
  {
    if |store| == 0 then []
    else
      var e := store[0];
      var rest := StampedDays(store[1..]);
      if e.timestamp.Some? then
        var day: DayIndex := DayOf(e.timestamp.value);
        DateKeyOfEveryDay(e.timestamp.value);
        assert multiset([day] + rest) == multiset{day} + multiset(rest);
        [day] + rest
      else rest
  }

  /** A per-day count. */
  datatype DayTally = DayTally(day: DayIndex, count: nat)

  /** Strictly ascending days, each with a positive count. */
  predicate WellFormedTimeline(tl: seq<DayTally>) {
    && (forall i, j :: 0 <= i < j < |tl| ==> tl[i].day < tl[j].day)
    && (forall i :: 0 <= i < |tl| ==> tl[i].count >= 1)
  }

  /** The count recorded for day `d`, or 0 when the day is absent. */
  function CountOn(tl: seq<DayTally>, d: nat): nat {
    if |tl| == 0 then 0
    else (if tl[0].day == d then tl[0].count else 0) + CountOn(tl[1..], d)
  }

  function TotalCount(tl: seq<DayTally>): nat {
    if |tl| == 0 then 0 else tl[0].count + TotalCount(tl[1..])
  }

  lemma {:induction false} CountOnBelowFirst(tl: seq<DayTally>, d: nat)
    requires WellFormedTimeline(tl)
    requires |tl| == 0 || d < tl[0].day
    ensures CountOn(tl, d) == 0
  {
    if |tl| > 0 {
      assert WellFormedTimeline(tl[1..]);
      CountOnBelowFirst(tl[1..], d);
    }
  }

  /** In a well-formed timeline the count of a listed day is its entry's count. */
  lemma {:induction false} CountOnAt(tl: seq<DayTally>, i: nat)
    requires WellFormedTimeline(tl)
    requires i < |tl|
    ensures CountOn(tl, tl[i].day) == tl[i].count
  {
    assert WellFormedTimeline(tl[1..]);
    if i == 0 {
      CountOnBelowFirst(tl[1..], tl[0].day);
    } else {
      CountOnAt(tl[1..], i - 1);
    }
  }

  /** A day with a positive count is listed. */
  lemma {:induction false} CountOnListed(tl: seq<DayTally>, d: nat)
    requires CountOn(tl, d) > 0
    ensures exists i :: 0 <= i < |tl| && tl[i].day == d
  {
    if tl[0].day != d {
      CountOnListed(tl[1..], d);
      var i :| 0 <= i < |tl[1..]| && tl[1..][i].day == d;
      assert tl[i + 1].day == d;
    }
  }

  /** Putting a positive count for an earlier day in front keeps a timeline
      well formed and adds that count to its day. */
  lemma ConsTimeline(h: DayTally, tl: seq<DayTally>)
    requires WellFormedTimeline(tl)
    requires h.count >= 1 && (|tl| == 0 || h.day < tl[0].day)
    ensures WellFormedTimeline([h] + tl)
    ensures forall d :: CountOn([h] + tl, d) == CountOn(tl, d) + (if d == h.day then h.count else 0)
    ensures TotalCount([h] + tl) == TotalCount(tl) + h.count
  {
    var r := [h] + tl;
    assert r[1..] == tl;
    forall i, j | 0 <= i < j < |r| ensures r[i].day < r[j].day {
      if i == 0 && j > 1 {
        assert tl[0].day < tl[j - 1].day;
      }
    }
  }

  /** `date_counts[day] += 1` on a timeline kept sorted by day. */
  function AddDay(day: DayIndex, tl: seq<DayTally>): (r: seq<DayTally>)
    requires WellFormedTimeline(tl)
    ensures WellFormedTimeline(r)
    ensures forall d :: CountOn(r, d) == CountOn(tl, d) + (if d == day then 1 else 0)
    ensures TotalCount(r) == TotalCount(tl) + 1
    ensures r[0].day == day || (|tl| > 0 && r[0].day == tl[0].day)
  {
    if |tl| == 0 then [DayTally(day, 1)]
    else
      assert WellFormedTimeline(tl[1..]);
      var h := tl[0];
      assert tl == [h] + tl[1..];
      if day == h.day then
        ConsTimeline(DayTally(day, h.count + 1), tl[1..]);
        ConsTimeline(h, tl[1..]);
        [DayTally(day, h.count + 1)] + tl[1..]
      else if day < h.day then
        ConsTimeline(DayTally(day, 1), tl);
        CountOnBelowFirst(tl, day);
        [DayTally(day, 1)] + tl
      else
        var rest := AddDay(day, tl[1..]);
        ConsTimeline(h, tl[1..]);
        ConsTimeline(h, rest);
        [h] + rest
  }

  /** The per-day counts of a list of days, ascending by day. */
  function DayTimeline(days: seq<DayIndex>): (tl: seq<DayTally>)
    ensures WellFormedTimeline(tl)
    ensures forall d :: CountOn(tl, d) == multiset(days)[d]
    ensures TotalCount(tl) == |days|
  {
    if |days| == 0 then []
    else
      assert days == [days[0]] + days[1..];
      AddDay(days[0], DayTimeline(days[1..]))
  }

  /** One point of the response's `timeline`. */
  datatype TimelinePoint = TimelinePoint(date: string, count: nat)

  function TotalPoints(points: seq<TimelinePoint>): nat {
    if |points| == 0 then 0 else points[0].count + TotalPoints(points[1..])
  }

  function ToPoints(tl: seq<DayTally>): (points: seq<TimelinePoint>)
    ensures |points| == |tl|
    ensures forall i :: 0 <= i < |tl| ==>
      points[i] == TimelinePoint(IsoDate(DateOfDay(tl[i].day)), tl[i].count)
    ensures TotalPoints(points) == TotalCount(tl)
  {
    var points := seq(|tl|, i requires 0 <= i < |tl| => TimelinePoint(IsoDate(DateOfDay(tl[i].day)), tl[i].count));
    PointsTotal(tl, points);
    points
  }

  /** Points that copy the counts of a timeline add up to its total. */
  lemma {:induction false} PointsTotal(tl: seq<DayTally>, points: seq<TimelinePoint>)
    requires |points| == |tl|
    requires forall i :: 0 <= i < |tl| ==> points[i].count == tl[i].count
    ensures TotalPoints(points) == TotalCount(tl)
  {
    if |tl| > 0 {
      PointsTotal(tl[1..], points[1..]);
    }
  }

  lemma DayKeyOrder(a: DayIndex, b: DayIndex)
    requires a < b
    ensures LexLess(IsoDate(DateOfDay(a)), IsoDate(DateOfDay(b)))
  {
    DateOfDayOrder(a, b);
    IsoDateOrder(DateOfDay(a), DateOfDay(b));
  }

  /** Ascending days give ascending ISO date strings. */
  lemma PointsAscending(tl: seq<DayTally>, r: seq<TimelinePoint>)
    requires WellFormedTimeline(tl) && |r| == |tl|
    requires forall i :: 0 <= i < |tl| ==> r[i].date == IsoDate(DateOfDay(tl[i].day))
    ensures forall i, j :: 0 <= i < j < |r| ==> LexLess(r[i].date, r[j].date)
  {
    forall i, j | 0 <= i < j < |r| ensures LexLess(r[i].date, r[j].date) {
      DayKeyOrder(tl[i].day, tl[j].day);
    }
  }

  /** Each point of the timeline of a store counts the entries made on its date. */
  lemma PointsCount(store: Store, days: seq<DayIndex>, tl: seq<DayTally>, r: seq<TimelinePoint>)
    requires forall d: DayIndex :: multiset(days)[d] == EntriesOn(store, IsoDate(DateOfDay(d)))
    requires WellFormedTimeline(tl) && forall d :: CountOn(tl, d) == multiset(days)[d]
    requires |r| == |tl|
    requires forall i :: 0 <= i < |tl| ==> r[i] == TimelinePoint(IsoDate(DateOfDay(tl[i].day)), tl[i].count)
    ensures forall i :: 0 <= i < |r| ==> r[i].count >= 1 && r[i].count == EntriesOn(store, r[i].date)
  {
    forall i | 0 <= i < |r| ensures r[i].count == EntriesOn(store, r[i].date) {
      var d := tl[i].day;
      CountOnAt(tl, i);
      assert CountOn(tl, d) == multiset(days)[d];
    }
  }

  /** The day of a stored entry with a timestamp has a positive count. */
  lemma EntryDayCounted(store: Store, e: Entry)
    requires e in store && e.timestamp.Some?
    ensures CountOn(DayTimeline(StampedDays(store)), DayOf(e.timestamp.value)) >= 1
  {
    var t := e.timestamp.value;
    DateKeyOfDay(t, DayOf(t));
    EntriesOnPositive(store, e);
  }

  /** A day with a positive count has a point carrying its date. */
  lemma PointOfDay(tl: seq<DayTally>, r: seq<TimelinePoint>, d: DayIndex)
    requires |r| == |tl|
    requires forall i :: 0 <= i < |tl| ==> r[i] == TimelinePoint(IsoDate(DateOfDay(tl[i].day)), tl[i].count)
    requires CountOn(tl, d) >= 1
    ensures exists i :: 0 <= i < |r| && r[i].date == IsoDate(DateOfDay(d))
  {
    CountOnListed(tl, d);
    var i :| 0 <= i < |tl| && tl[i].day == d;
    assert r[i].date == IsoDate(DateOfDay(d));
  }

  /** The date of every stored entry with a timestamp has a point. */
  lemma PointsCover(store: Store, tl: seq<DayTally>, r: seq<TimelinePoint>)
    requires tl == DayTimeline(StampedDays(store)) && r == ToPoints(tl)
    ensures forall e :: e in store && e.timestamp.Some? ==>
      exists i :: 0 <= i < |r| && r[i].date == DateKey(e.timestamp.value)
  {
    forall e | e in store && e.timestamp.Some?
      ensures exists i :: 0 <= i < |r| && r[i].date == DateKey(e.timestamp.value)
    {
      var t := e.timestamp.value;
      EntryDayCounted(store, e);
      PointOfDay(tl, r, DayOf(t));
      DateKeyOfDay(t, DayOf(t));
    }
  }

  /** What the response's `timeline` promises about a table: the dates
      strictly ascend as strings, each count is positive and is the number of
      entries made on its date, the date of every timestamped entry is
      listed, and the counts add up to the number of timestamped entries. */
  predicate IsTimelineOf(store: Store, r: seq<TimelinePoint>) {
    && (forall i, j :: 0 <= i < j < |r| ==> LexLess(r[i].date, r[j].date))
    && (forall i :: 0 <= i < |r| ==> r[i].count >= 1 && r[i].count == EntriesOn(store, r[i].date))
    && (forall e :: e in store && e.timestamp.Some? ==>
          exists i :: 0 <= i < |r| && r[i].date == DateKey(e.timestamp.value))
    && TotalPoints(r) == Stamped(store)
  }

  /** `sorted(date_counts.items())`: one point per date on which some entry
      was made, dates strictly ascending as Python strings, each count the
      number of entries made that day; entries without a timestamp are
      skipped. */
  function Timeline(store: Store): (r: seq<TimelinePoint>)
    ensures IsTimelineOf(store, r)
  {
    var days := StampedDays(store);
    var tl := DayTimeline(days);
    var r := ToPoints(tl);
    TimelineOfDays(store, days, tl, r);
    r
  }

  lemma TimelineOfDays(store: Store, days: seq<DayIndex>, tl: seq<DayTally>, r: seq<TimelinePoint>)
    requires days == StampedDays(store) && tl == DayTimeline(days) && r == ToPoints(tl)
    ensures IsTimelineOf(store, r)
  {
    PointsAscending(tl, r);
    PointsCount(store, days, tl, r);
    PointsCover(store, tl, r);
    assert TotalPoints(r) == TotalCount(tl) == |days| == Stamped(store);
  }

  /** A stored entry with a timestamp is counted on its own date. */
  lemma {:induction false} EntriesOnPositive(store: Store, e: Entry)
    requires e in store && e.timestamp.Some?
    ensures EntriesOn(store, DateKey(e.timestamp.value)) >= 1
  {
    if store[0] != e {
      EntriesOnPositive(store[1..], e);
    }
  }

  /* ---------- The endpoint ---------- */

  datatype InsightsResponse = InsightsResponse(
    emotionCounts: map<string, nat>,
    sentimentCounts: map<string, nat>,
    timeline: seq<TimelinePoint>)

  function GetInsights(store: Store): (r: InsightsResponse)
    ensures forall k :: k in r.emotionCounts <==> exists i :: 0 <= i < |store| && store[i].emotion == k
    ensures forall k :: k in r.sentimentCounts <==> exists i :: 0 <= i < |store| && store[i].sentiment == k
    ensures forall k :: k in r.emotionCounts ==> r.emotionCounts[k] == multiset(Emotions(store))[k]
    ensures forall k :: k in r.sentimentCounts ==> r.sentimentCounts[k] == multiset(Sentiments(store))[k]
    ensures IsTimelineOf(store, r.timeline)
  {
    var emotions := Tally(Emotions(store));
    var sentiments := Tally(Sentiments(store));
    LabelsPresent(store);
    InsightsResponse(emotions, sentiments, Timeline(store))
  }

  lemma LabelsPresent(store: Store)
    ensures forall k :: k in Emotions(store) <==> exists i :: 0 <= i < |store| && store[i].emotion == k
    ensures forall k :: k in Sentiments(store) <==> exists i :: 0 <= i < |store| && store[i].sentiment == k
  {
  }

  /** A tally is sparse: every count in it is at least 1. */
  lemma TallyPositive(labels: seq<string>)
    ensures forall k :: k in Tally(labels) ==> Tally(labels)[k] >= 1
  {
    var m := Tally(labels);
    forall k | k in m ensures m[k] >= 1 {
      assert k in multiset(labels);
    }
  }

  /** Every count is at least 1, the emotion counts and the sentiment counts
      each add up to the number of entries, and the timeline counts add up to
      the number of entries that have a timestamp. */
  lemma InsightsTotals(store: Store)
    ensures forall k :: k in GetInsights(store).emotionCounts ==> GetInsights(store).emotionCounts[k] >= 1
    ensures forall k :: k in GetInsights(store).sentimentCounts ==> GetInsights(store).sentimentCounts[k] >= 1
    ensures SumValues(GetInsights(store).emotionCounts) == |store|
    ensures SumValues(GetInsights(store).sentimentCounts) == |store|
    ensures TotalPoints(GetInsights(store).timeline) == Stamped(store)
  {
    TallyPositive(Emotions(store));
    TallyPositive(Sentiments(store));
    TallySum(Emotions(store));
    TallySum(Sentiments(store));
  }

  /** No entries: empty maps and an empty timeline, not an error. */
  lemma InsightsOfEmptyStore()
    ensures GetInsights([]) == InsightsResponse(map[], map[], [])
  {
  }
}
