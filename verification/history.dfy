/**
 `GET /journal-history`: optional filters on emotion, sentiment and a date
 range, joined by AND, with the rows returned newest id first.
 */
module History {
  import opened Wrappers
  import opened Text
  import opened Calendar
  import opened Models

  const DateFormatDetail := "Invalid date format, use YYYY-MM-DD"

  /** The four optional query parameters, as received. */
  datatype HistoryQuery = HistoryQuery(
    emotion: Option<string>,
    sentiment: Option<string>,
    startDate: Option<string>,
    endDate: Option<string>)

  /** Python truthiness of an optional string: present and not empty. */
  predicate Given(p: Option<string>) {
    p.Some? && |p.value| > 0
  }

  /** The conditions the WHERE clause is built from; `None` means no condition. */
  datatype Filter = Filter(
    emotion: Option<string>,
    sentiment: Option<string>,
    start: Option<Tick>,
    end: Option<Tick>)

  /** A date parameter turned into a bound: absent, midnight of the date it
      names, or a 400 error when it is not a date. */
  function ParseBound(p: Option<string>): (r: Result<Option<Tick>, ApiError>)
    ensures r.Err? <==> Given(p) && ParseIsoDate(p.value).None?
    ensures r.Err? ==> r.error == BadRequest(DateFormatDetail)
    ensures r.Ok? ==> (r.value.Some? <==> Given(p))
    ensures r.Ok? && r.value.Some? ==>
      IsoDate(DateOf(r.value.value)) == p.value && r.value.value % TicksPerDay == 0
  {
    if !Given(p) then Ok(None)
    else match ParseIsoDate(p.value)
      case None => Err(BadRequest(DateFormatDetail))
      case Some(d) => Ok(Some(StartOfDay(d)))
  }

  /** A text parameter turned into an equality condition. */
  function TextCondition(p: Option<string>): (r: Option<string>)
    ensures r.Some? <==> Given(p)
    ensures r.Some? ==> r.value == p.value
  {
    if Given(p) then p else None
  }

  /** The filters of the query, or the error the first bad date raises. */
  function BuildFilter(q: HistoryQuery): (r: Result<Filter, ApiError>)
    ensures r.Err? <==>
      (Given(q.startDate) && ParseIsoDate(q.startDate.value).None?) ||
      (Given(q.endDate) && ParseIsoDate(q.endDate.value).None?)
    ensures r.Err? ==> r.error == BadRequest(DateFormatDetail)
    ensures r.Ok? ==> r.value.emotion == TextCondition(q.emotion)
    ensures r.Ok? ==> r.value.sentiment == TextCondition(q.sentiment)
    ensures r.Ok? ==> ParseBound(q.startDate) == Ok(r.value.start)
    ensures r.Ok? ==> ParseBound(q.endDate) == Ok(r.value.end)
  {
    match ParseBound(q.startDate)
    case Err(e) => Err(e)
    case Ok(start) =>
      match ParseBound(q.endDate)
      case Err(e) => Err(e)
      case Ok(end) => Ok(Filter(TextCondition(q.emotion), TextCondition(q.sentiment), start, end))
  }

  /** The WHERE clause as SQLite evaluates it: equality on the text columns,
      text comparison on the stored timestamp, and a NULL timestamp failing
      every comparison. */
  predicate Matches(e: Entry, f: Filter) {
    && (f.emotion.None? || e.emotion == f.emotion.value)
    && (f.sentiment.None? || e.sentiment == f.sentiment.value)
    && (f.start.None? ||
        (e.timestamp.Some? && !LexLess(StorageText(e.timestamp.value), StorageText(f.start.value))))
    && (f.end.None? ||
        (e.timestamp.Some? && !LexLess(StorageText(f.end.value), StorageText(e.timestamp.value))))
  }

  /** The filters read as conditions on points in time: inclusive bounds,
      and no bound admits an entry without a timestamp. */
  predicate Admits(f: Filter, e: Entry) {
    && (f.emotion.Some? ==> e.emotion == f.emotion.value)
    && (f.sentiment.Some? ==> e.sentiment == f.sentiment.value)
    && (f.start.Some? ==> e.timestamp.Some? && f.start.value <= e.timestamp.value)
    && (f.end.Some? ==> e.timestamp.Some? && e.timestamp.value <= f.end.value)
  }

  /** The SQL text comparisons decide exactly the inclusive time bounds. */
  lemma MatchesMeansAdmits(e: Entry, f: Filter)
    ensures Matches(e, f) <==> Admits(f, e)
  {
    if e.timestamp.Some? {
      if f.start.Some? {
        StorageTextOrder(e.timestamp.value, f.start.value);
      }
      if f.end.Some? {
        StorageTextOrder(f.end.value, e.timestamp.value);
      }
    }
  }

  /** The rows the WHERE clause keeps, in storage order. */
  function Select(store: Store, f: Filter): (r: Store)
    ensures forall x :: multiset(r)[x] == (if Matches(x, f) then multiset(store)[x] else 0)
    ensures UniqueIds(store) ==> UniqueIds(r)
  {
    KeepWhere(store, x => Matches(x, f))
  }

  predicate DescendingIds(s: seq<Entry>) {
    forall i, j :: 0 <= i < j < |s| ==> s[i].id >= s[j].id
  }

  predicate StrictlyDescendingIds(s: seq<Entry>) {
    forall i, j :: 0 <= i < j < |s| ==> s[i].id > s[j].id
  }

  lemma DescendingTail(s: seq<Entry>)
    requires DescendingIds(s) && |s| > 0
    ensures DescendingIds(s[1..]) && (|s| > 1 ==> s[1..][0].id <= s[0].id)
  {
  }

  lemma ConsDescending(h: Entry, rest: seq<Entry>)
    requires DescendingIds(rest) && (|rest| == 0 || rest[0].id <= h.id)
    ensures DescendingIds([h] + rest)
  {
    var s := [h] + rest;
    forall i, j | 0 <= i < j < |s| ensures s[i].id >= s[j].id {
      assert s[j] == rest[j - 1];
      if i > 0 {
        assert s[i] == rest[i - 1];
      } else {
        assert rest[0].id >= rest[j - 1].id;
      }
    }
  }

  lemma ConsStrictlyDescending(h: Entry, rest: seq<Entry>)
    requires StrictlyDescendingIds(rest) && (|rest| == 0 || rest[0].id < h.id)
    ensures StrictlyDescendingIds([h] + rest)
  {
    var s := [h] + rest;
    forall i, j | 0 <= i < j < |s| ensures s[i].id > s[j].id {
      assert s[j] == rest[j - 1];
      if i > 0 {
        assert s[i] == rest[i - 1];
      } else if j > 1 {
        assert rest[0].id > rest[j - 1].id;
      }
    }
  }

  /** One step of insertion sort: `e` placed before the first entry whose
      id it is not below. */
  function InsertByIdDesc(e: Entry, s: seq<Entry>): (r: seq<Entry>)
    requires DescendingIds(s)
    ensures DescendingIds(r)
    ensures multiset(r) == multiset(s) + multiset{e}
    ensures r[0] == e || (|s| > 0 && r[0] == s[0])
  {
    if |s| == 0 || e.id >= s[0].id then
      assert multiset([e] + s) == multiset{e} + multiset(s);
      ConsDescending(e, s);
      [e] + s
    else
      var h := s[0];
      DescendingTail(s);
      var rest := InsertByIdDesc(e, s[1..]);
      assert multiset(s) == multiset{h} + multiset(s[1..]) by {
        assert s == [h] + s[1..];
      }
      assert multiset([h] + rest) == multiset{h} + multiset(rest);
      ConsDescending(h, rest);
      [h] + rest
  }

  lemma {:induction false} InsertKeepsStrict(e: Entry, s: seq<Entry>)
    requires StrictlyDescendingIds(s)
    requires forall k :: 0 <= k < |s| ==> s[k].id != e.id
    ensures StrictlyDescendingIds(InsertByIdDesc(e, s))
  {
    if |s| == 0 || e.id >= s[0].id {
      ConsStrictlyDescending(e, s);
    } else {
      var tail := s[1..];
      InsertKeepsStrict(e, tail);
      var rest := InsertByIdDesc(e, tail);
      assert |tail| > 0 ==> tail[0].id < s[0].id;
      ConsStrictlyDescending(s[0], rest);
    }
  }

  /** `ORDER BY id DESC`: the same rows, largest id first. */
  function SortByIdDesc(s: seq<Entry>): (r: seq<Entry>)
    ensures DescendingIds(r)
    ensures multiset(r) == multiset(s)
  {
    if |s| == 0 then []
    else
      assert multiset(s) == multiset{s[0]} + multiset(s[1..]) by {
        assert s == [s[0]] + s[1..];
      }
      InsertByIdDesc(s[0], SortByIdDesc(s[1..]))
  }

  /** When ids are unique the sorted rows have strictly decreasing ids. */
  lemma {:induction false} SortKeepsStrict(s: seq<Entry>)
    requires UniqueIds(s)
    ensures StrictlyDescendingIds(SortByIdDesc(s))
  {
    if |s| > 0 {
      TailKeepsUnique(s);
      SortKeepsStrict(s[1..]);
      var rest := SortByIdDesc(s[1..]);
      forall k | 0 <= k < |rest| ensures rest[k].id != s[0].id {
        assert rest[k] in multiset(s[1..]);
      }
      InsertKeepsStrict(s[0], rest);
    }
  }

  /** The endpoint: the matching rows, largest id first, or a 400 error for
      a date parameter that is not a date. */
  function History(store: Store, q: HistoryQuery): (r: Result<seq<Entry>, ApiError>)
    ensures r.Err? <==> BuildFilter(q).Err?
    ensures r.Err? ==> r.error == BadRequest(DateFormatDetail)
    ensures r.Ok? ==> DescendingIds(r.value)
    ensures r.Ok? ==> forall x ::
      multiset(r.value)[x] == (if Matches(x, BuildFilter(q).value) then multiset(store)[x] else 0)
  {
    match BuildFilter(q)
    case Err(e) => Err(e)
    case Ok(f) => Ok(SortByIdDesc(Select(store, f)))
  }

  /** Ids are the primary key, so the rows come back with strictly
      decreasing ids. */
  lemma HistoryStrictlyDescending(store: Store, q: HistoryQuery)
    requires UniqueIds(store)
    requires History(store, q).Ok?
    ensures StrictlyDescendingIds(History(store, q).value)
  {
    var f := BuildFilter(q).value;
    SortKeepsStrict(Select(store, f));
  }

  /** Filter soundness and completeness: an entry is returned exactly when it
      is stored and satisfies every supplied condition, with both date bounds
      inclusive and compared as points in time. */
  lemma HistoryContents(store: Store, q: HistoryQuery, f: Filter, e: Entry)
    requires BuildFilter(q) == Ok(f)
    ensures History(store, q).Ok?
    ensures e in History(store, q).value <==> e in store && Admits(f, e)
  {
    MatchesMeansAdmits(e, f);
    var r := History(store, q).value;
    assert e in r <==> e in multiset(r);
  }

  /** With no filters every stored entry comes back once, largest id first. */
  lemma HistoryWithoutFilters(store: Store, q: HistoryQuery)
    requires !Given(q.emotion) && !Given(q.sentiment) && !Given(q.startDate) && !Given(q.endDate)
    ensures History(store, q).Ok?
    ensures multiset(History(store, q).value) == multiset(store)
    ensures UniqueIds(store) ==> StrictlyDescendingIds(History(store, q).value)
  {
    if UniqueIds(store) {
      HistoryStrictlyDescending(store, q);
    }
    var f := BuildFilter(q).value;
    assert f == Filter(None, None, None, None);
    var r := History(store, q).value;
    forall x ensures multiset(r)[x] == multiset(store)[x] {
      assert Matches(x, f);
    }
  }

  /** A date parameter that is not a `YYYY-MM-DD` date is a 400 error. */
  lemma BadDateRejected(store: Store, q: HistoryQuery)
    requires (Given(q.startDate) && ParseIsoDate(q.startDate.value).None?) ||
             (Given(q.endDate) && ParseIsoDate(q.endDate.value).None?)
    ensures History(store, q) == Err(BadRequest(DateFormatDetail))
  {
  }

  /** Queries whose parameters agree up to Python truthiness. */
  predicate SameParameters(q1: HistoryQuery, q2: HistoryQuery) {
    && TextCondition(q1.emotion) == TextCondition(q2.emotion)
    && TextCondition(q1.sentiment) == TextCondition(q2.sentiment)
    && TextCondition(q1.startDate) == TextCondition(q2.startDate)
    && TextCondition(q1.endDate) == TextCondition(q2.endDate)
  }

  /** An empty parameter behaves exactly like an omitted one. */
  lemma EmptyParameterIsOmitted(store: Store, q: HistoryQuery)
    ensures History(store, q.(emotion := Some(""))) == History(store, q.(emotion := None))
    ensures History(store, q.(sentiment := Some(""))) == History(store, q.(sentiment := None))
    ensures History(store, q.(startDate := Some(""))) == History(store, q.(startDate := None))
    ensures History(store, q.(endDate := Some(""))) == History(store, q.(endDate := None))
  {
    SameParametersSameHistory(store, q.(emotion := Some("")), q.(emotion := None));
    SameParametersSameHistory(store, q.(sentiment := Some("")), q.(sentiment := None));
    SameParametersSameHistory(store, q.(startDate := Some("")), q.(startDate := None));
    SameParametersSameHistory(store, q.(endDate := Some("")), q.(endDate := None));
  }

  lemma SameParametersSameHistory(store: Store, q1: HistoryQuery, q2: HistoryQuery)
    requires SameParameters(q1, q2)
    ensures History(store, q1) == History(store, q2)
  {
    assert ParseBound(q1.startDate) == ParseBound(q2.startDate);
    assert ParseBound(q1.endDate) == ParseBound(q2.endDate);
  }

  /** A date parameter naming a date is read as midnight at its start. */
  lemma BoundOfDate(p: Option<string>, d: Date)
    requires ValidDate(d)
    requires p == Some(IsoDate(d))
    ensures ParseBound(p) == Ok(Some(StartOfDay(d)))
  {
    ParseIsoDateRoundTrip(d);
  }

  /** The end bound is midnight at the start of the end date, so an entry
      made later on that day is not returned. */
  lemma EndDateStopsAtMidnight(store: Store, q: HistoryQuery, d: Date, e: Entry)
    requires ValidDate(d)
    requires q.endDate == Some(IsoDate(d))
    requires BuildFilter(q).Ok?
    requires e.timestamp.Some? && DateOf(e.timestamp.value) == d
    requires e.timestamp.value % TicksPerDay != 0
    ensures e !in History(store, q).value
  {
    var f := BuildFilter(q).value;
    BoundOfDate(q.endDate, d);
    WithinDay(e.timestamp.value, d);
    assert !Admits(f, e);
    HistoryContents(store, q, f, e);
  }

  /** A start date admits the whole of that day. */
  lemma StartDateCoversWholeDay(store: Store, q: HistoryQuery, d: Date, e: Entry)
    requires ValidDate(d)
    requires q.startDate == Some(IsoDate(d))
    requires !Given(q.emotion) && !Given(q.sentiment) && !Given(q.endDate)
    requires e in store
    requires e.timestamp.Some? && DateOf(e.timestamp.value) == d
    ensures History(store, q).Ok?
    ensures e in History(store, q).value
  {
    BoundOfDate(q.startDate, d);
    var f := BuildFilter(q).value;
    WithinDay(e.timestamp.value, d);
    assert Admits(f, e);
    HistoryContents(store, q, f, e);
  }

  /** The date range as written, in calendar terms: a start date admits every
      entry dated on or after it, and an end date admits only entries up to
      the midnight that starts it. */
  lemma HistoryDateBounds(store: Store, q: HistoryQuery, e: Entry)
    requires BuildFilter(q).Ok?
    ensures History(store, q).Ok?
    ensures e in History(store, q).value <==>
      && e in store && TextConditionsHold(q, e)
      && (Given(q.startDate) ==>
            && e.timestamp.Some? && ParseIsoDate(q.startDate.value).Some?
            && !DateLess(DateOf(e.timestamp.value), ParseIsoDate(q.startDate.value).value))
      && (Given(q.endDate) ==>
            && e.timestamp.Some? && ParseIsoDate(q.endDate.value).Some?
            && e.timestamp.value <= StartOfDay(ParseIsoDate(q.endDate.value).value))
  {
    var f := BuildFilter(q).value;
    HistoryContents(store, q, f, e);
    if e.timestamp.Some? && Given(q.startDate) {
      StartOfDayBound(e.timestamp.value, ParseIsoDate(q.startDate.value).value);
    }
  }

  /* ---------- Whole-day end dates ---------- */

  /** The end bound an inclusive end date calls for: the last microsecond of
      the date, in place of the midnight at its start. */
  function ParseEndOfDay(p: Option<string>): (r: Result<Option<Tick>, ApiError>)
    ensures r.Err? <==> ParseBound(p).Err?
    ensures r.Err? ==> r.error == BadRequest(DateFormatDetail)
    ensures r.Ok? ==> (r.value.Some? <==> Given(p))
    ensures r.Ok? && r.value.Some? ==>
      DateOf(r.value.value) == ParseIsoDate(p.value).value
      && r.value.value == ParseBound(p).value.value + TicksPerDay - 1
  {
    if !Given(p) then Ok(None)
    else match ParseIsoDate(p.value)
      case None => Err(BadRequest(DateFormatDetail))
      case Some(d) => Ok(Some(EndOfDay(d)))
  }

  /** The filters with the end bound moved to the end of its day. */
  function WholeDayFilter(q: HistoryQuery): (r: Result<Filter, ApiError>)
    ensures r.Err? <==> BuildFilter(q).Err?
    ensures r.Err? ==> r.error == BadRequest(DateFormatDetail)
    ensures r.Ok? ==> ParseEndOfDay(q.endDate) == Ok(r.value.end)
    ensures r.Ok? ==> r.value.(end := BuildFilter(q).value.end) == BuildFilter(q).value
  {
    match BuildFilter(q)
    case Err(e) => Err(e)
    case Ok(f) => Ok(f.(end := ParseEndOfDay(q.endDate).value))
  }

  /** The history with the date range read as whole days, both dates
      included: the reading the front end's two date pickers suggest
      (frontend/src/pages/history.tsx, lines 70-71). */
  function WholeDayHistory(store: Store, q: HistoryQuery): (r: Result<seq<Entry>, ApiError>)
    ensures r.Err? <==> History(store, q).Err?
    ensures r.Err? ==> r.error == BadRequest(DateFormatDetail)
    ensures r.Ok? ==> DescendingIds(r.value)
    ensures r.Ok? ==> forall x ::
      multiset(r.value)[x] == (if Matches(x, WholeDayFilter(q).value) then multiset(store)[x] else 0)
  {
    match WholeDayFilter(q)
    case Err(e) => Err(e)
    case Ok(f) => Ok(SortByIdDesc(Select(store, f)))
  }

  /** The text conditions of a query, as conditions on an entry. */
  predicate TextConditionsHold(q: HistoryQuery, e: Entry) {
    && (Given(q.emotion) ==> e.emotion == q.emotion.value)
    && (Given(q.sentiment) ==> e.sentiment == q.sentiment.value)
  }

  /** The date range of a query, as a condition on an entry's calendar date:
      `start_date <= date(timestamp) <= end_date` for the dates given. */
  predicate WithinDates(q: HistoryQuery, e: Entry) {
    && (Given(q.startDate) ==>
          && e.timestamp.Some? && ParseIsoDate(q.startDate.value).Some?
          && !DateLess(DateOf(e.timestamp.value), ParseIsoDate(q.startDate.value).value))
    && (Given(q.endDate) ==>
          && e.timestamp.Some? && ParseIsoDate(q.endDate.value).Some?
          && !DateLess(ParseIsoDate(q.endDate.value).value, DateOf(e.timestamp.value)))
  }

  /** The whole-day filter admits an entry exactly when its text conditions
      hold and its date lies in the range, both ends included. */
  lemma WholeDayAdmits(q: HistoryQuery, e: Entry)
    requires BuildFilter(q).Ok?
    ensures Admits(WholeDayFilter(q).value, e) <==> TextConditionsHold(q, e) && WithinDates(q, e)
  {
    var f := WholeDayFilter(q).value;
    if e.timestamp.Some? {
      var t := e.timestamp.value;
      if Given(q.startDate) {
        StartOfDayBound(t, ParseIsoDate(q.startDate.value).value);
      }
      if Given(q.endDate) {
        EndOfDayBound(t, ParseIsoDate(q.endDate.value).value);
      }
    }
  }

  /** An entry is returned exactly when it is stored, its text conditions
      hold and its date lies within the range. */
  lemma WholeDayHistoryContents(store: Store, q: HistoryQuery, e: Entry)
    requires BuildFilter(q).Ok?
    ensures WholeDayHistory(store, q).Ok?
    ensures e in WholeDayHistory(store, q).value <==>
      e in store && TextConditionsHold(q, e) && WithinDates(q, e)
  {
    var f := WholeDayFilter(q).value;
    MatchesMeansAdmits(e, f);
    WholeDayAdmits(q, e);
    var r := WholeDayHistory(store, q).value;
    assert e in r <==> e in multiset(r);
  }

  /** The end date as written drops the rest of its own day: an entry made
      after midnight on the end date is not returned, though its date is
      within the range and the whole-day reading returns it. */
  lemma EndDateDiscrepancy(store: Store, d: Date, e: Entry)
    requires ValidDate(d)
    requires e in store
    requires e.timestamp.Some? && DateOf(e.timestamp.value) == d
    requires e.timestamp.value % TicksPerDay != 0
    ensures var q := HistoryQuery(None, None, None, Some(IsoDate(d)));
      && History(store, q).Ok? && e !in History(store, q).value
      && WithinDates(q, e)
      && WholeDayHistory(store, q).Ok? && e in WholeDayHistory(store, q).value
  {
    var q := HistoryQuery(None, None, None, Some(IsoDate(d)));
    ParseIsoDateRoundTrip(d);
    BoundOfDate(q.endDate, d);
    EndDateStopsAtMidnight(store, q, d, e);
    assert !DateLess(d, d);
    WholeDayHistoryContents(store, q, e);
  }

  /* ---------- The JSON rows ---------- */

  /** One element of the response array; `timestamp` is `null` when the row
      has none. */
  datatype Record = Record(
    id: int,
    text: string,
    sentiment: string,
    emotion: string,
    affirmation: string,
    timestamp: Option<string>)

  function ToRecord(e: Entry): (r: Record)
    ensures r.id == e.id && r.text == e.text && r.sentiment == e.sentiment
    ensures r.emotion == e.emotion && r.affirmation == e.affirmation
    ensures r.timestamp.Some? <==> e.timestamp.Some?
    ensures e.timestamp.Some? ==> r.timestamp == Some(IsoDateTime(e.timestamp.value))
  {
    Record(e.id, e.text, e.sentiment, e.emotion, e.affirmation,
      if e.timestamp.Some? then Some(IsoDateTime(e.timestamp.value)) else None)
  }

  /** The JSON row loses nothing: distinct rows give distinct records. */
  lemma ToRecordInjective(e1: Entry, e2: Entry)
    ensures ToRecord(e1) == ToRecord(e2) <==> e1 == e2
  {
    if e1.timestamp.Some? && e2.timestamp.Some? {
      IsoDateTimeInjective(e1.timestamp.value, e2.timestamp.value);
    }
  }

  /** The response body: the history rows in the same order, serialised. */
  function HistoryResponse(store: Store, q: HistoryQuery): (r: Result<seq<Record>, ApiError>)
    ensures r.Err? <==> History(store, q).Err?
    ensures r.Err? ==> r.error == History(store, q).error
    ensures r.Ok? ==> |r.value| == |History(store, q).value|
    ensures r.Ok? ==> forall i :: 0 <= i < |r.value| ==> r.value[i] == ToRecord(History(store, q).value[i])
  {
    match History(store, q)
    case Err(e) => Err(e)
    case Ok(rows) => Ok(seq(|rows|, i requires 0 <= i < |rows| => ToRecord(rows[i])))
  }
}
