/**
 Python's `datetime` as the journal back end uses it: the proleptic Gregorian
 calendar of years 1 to 9999, points in time as microsecond ticks counted from
 0001-01-01 00:00:00, the ISO text forms of `date.isoformat()` and
 `datetime.isoformat()`, `datetime.fromisoformat()` on a `YYYY-MM-DD` string,
 and the fixed-width text SQLite stores a `DateTime` column as.
 */
module Calendar {
  import opened Wrappers
  import opened Text

  const MaxYear := 9999

  /** A calendar date; `ValidDate` says when it names a real day. */
  datatype Date = Date(year: int, month: int, day: int)

  predicate IsLeapYear(y: int) {
    y % 4 == 0 && (y % 100 != 0 || y % 400 == 0)
  }

  function DaysInYear(y: int): int {
    if IsLeapYear(y) then 366 else 365
  }

  function DaysInMonth(y: int, m: int): int
    requires 1 <= m <= 12
  {
    if m == 2 then (if IsLeapYear(y) then 29 else 28)
    else if m == 4 || m == 6 || m == 9 || m == 11 then 30
    else 31
  }

  predicate ValidDate(d: Date) {
    && 1 <= d.year <= MaxYear
    && 1 <= d.month <= 12
    && 1 <= d.day <= DaysInMonth(d.year, d.month)
  }

  /** Chronological order of dates: by year, then month, then day. */
  predicate DateLess(a: Date, b: Date) {
    || a.year < b.year
    || (a.year == b.year && a.month < b.month)
    || (a.year == b.year && a.month == b.month && a.day < b.day)
  }

  /* ---------- Day numbers ---------- */

  /** Days from 0001-01-01 to January 1st of year `y`. */
  function DaysBeforeYear(y: int): int
    requires y >= 1
  {
    var k := y - 1;
    365 * k + k / 4 - k / 100 + k / 400
  }

  /** Days from January 1st to the first day of month `m` of year `y`. */
  function DaysBeforeMonth(y: int, m: int): int
    requires 1 <= m <= 12
  {
    var common :=
      if m == 1 then 0 else if m == 2 then 31 else if m == 3 then 59
      else if m == 4 then 90 else if m == 5 then 120 else if m == 6 then 151
      else if m == 7 then 181 else if m == 8 then 212 else if m == 9 then 243
      else if m == 10 then 273 else if m == 11 then 304 else 334;
    if m > 2 && IsLeapYear(y) then common + 1 else common
  }

  /** Number of days from 0001-01-01 through 9999-12-31. */
  const DayCount: nat := 3652059

  /** Each of the leap-year cycles counted in `DaysBeforeYear` grows by one
      exactly when the next year closes it. */
  lemma FourYearStep(k: nat)
    ensures (k + 1) / 4 == k / 4 + (if (k + 1) % 4 == 0 then 1 else 0)
  {
  }

  lemma CenturyStep(k: nat)
    ensures (k + 1) / 100 == k / 100 + (if (k + 1) % 100 == 0 then 1 else 0)
    ensures (k + 1) % 100 == 0 ==> (k + 1) % 4 == 0
  {
  }

  lemma FourCenturyStep(k: nat)
    ensures (k + 1) / 400 == k / 400 + (if (k + 1) % 400 == 0 then 1 else 0)
    ensures (k + 1) % 400 == 0 ==> (k + 1) % 100 == 0
  {
  }

  lemma DaysBeforeNextYear(y: int)
    requires y >= 1
    ensures DaysBeforeYear(y + 1) == DaysBeforeYear(y) + DaysInYear(y)
  {
    var k := y - 1;
    FourYearStep(k);
    CenturyStep(k);
    FourCenturyStep(k);
  }

  lemma {:induction false} DaysBeforeYearMonotone(y1: int, y2: int)
    requires 1 <= y1 < y2
    ensures DaysBeforeYear(y1 + 1) <= DaysBeforeYear(y2)
    decreases y2 - y1
  {
    if y1 + 1 < y2 {
      DaysBeforeYearMonotone(y1 + 1, y2);
      DaysBeforeNextYear(y1 + 1);
    }
  }

  lemma YearEndsInRange(y: int)
    requires 1 <= y <= MaxYear
    ensures DaysBeforeYear(y + 1) <= DayCount
  {
    if y < MaxYear {
      DaysBeforeYearMonotone(y + 1, MaxYear + 1);
      DaysBeforeNextYear(y + 1);
    }
  }

  lemma MonthFitsYear(y: int, m: int)
    requires 1 <= m <= 12
    ensures DaysBeforeMonth(y, m) + DaysInMonth(y, m) <= DaysInYear(y)
    ensures m < 12 ==> DaysBeforeMonth(y, m + 1) == DaysBeforeMonth(y, m) + DaysInMonth(y, m)
    ensures m == 12 ==> DaysBeforeMonth(y, m) + DaysInMonth(y, m) == DaysInYear(y)
  {
  }

  lemma MonthsOrdered(y: int, m1: int, m2: int)
    requires 1 <= m1 < m2 <= 12
    ensures DaysBeforeMonth(y, m1) + DaysInMonth(y, m1) <= DaysBeforeMonth(y, m2)
  {
  }

  /** Days from 0001-01-01 to `d`: Python's `d.toordinal() - 1`. */
  function DayNumber(d: Date): (n: nat)
    requires ValidDate(d)
    ensures DaysBeforeYear(d.year) <= n < DaysBeforeYear(d.year + 1)
    ensures n < DayCount
  {
    MonthFitsYear(d.year, d.month);
    DaysBeforeNextYear(d.year);
    YearEndsInRange(d.year);
    DaysBeforeYear(d.year) + DaysBeforeMonth(d.year, d.month) + d.day - 1
  }

  /** Day numbers follow the calendar order of dates. */
  lemma DayNumberFollowsDateOrder(a: Date, b: Date)
    requires ValidDate(a) && ValidDate(b)
    requires DateLess(a, b)
    ensures DayNumber(a) < DayNumber(b)
  {
    if a.year < b.year {
      DaysBeforeYearMonotone(a.year, b.year);
    } else if a.month < b.month {
      MonthsOrdered(a.year, a.month, b.month);
    }
  }

  /** Comparing day numbers is comparing dates; in particular day numbers are
      one-to-one on valid dates. */
  lemma DayNumberOrder(a: Date, b: Date)
    requires ValidDate(a) && ValidDate(b)
    ensures DayNumber(a) < DayNumber(b) <==> DateLess(a, b)
    ensures DayNumber(a) == DayNumber(b) <==> a == b
  {
    if DateLess(a, b) {
      DayNumberFollowsDateOrder(a, b);
    } else if DateLess(b, a) {
      DayNumberFollowsDateOrder(b, a);
    } else {
      assert a == b;
    }
  }

  /** The year that day number `n` falls in, searched upwards from year `y`. */
  function YearOfDay(n: nat, y: int): (r: int)
    requires 1 <= y <= MaxYear
    requires DaysBeforeYear(y) <= n < DayCount
    ensures y <= r <= MaxYear
    ensures DaysBeforeYear(r) <= n < DaysBeforeYear(r + 1)
    decreases MaxYear - y
  {
    if n < DaysBeforeYear(y + 1) then y
    else
      assert y < MaxYear;
      YearOfDay(n, y + 1)
  }

  /** The month that day `doy` (counted from 0) of year `y` falls in,
      searched upwards from month `m`. */
  function MonthOfDay(doy: int, y: int, m: int): (r: int)
    requires 1 <= m <= 12
    requires DaysBeforeMonth(y, m) <= doy < DaysInYear(y)
    ensures m <= r <= 12
    ensures DaysBeforeMonth(y, r) <= doy < DaysBeforeMonth(y, r) + DaysInMonth(y, r)
    decreases 12 - m
  {
    MonthFitsYear(y, m);
    if m == 12 || doy < DaysBeforeMonth(y, m + 1) then m
    else MonthOfDay(doy, y, m + 1)
  }

  /** The date with day number `n`: Python's `date.fromordinal(n + 1)`. */
  function DateOfDay(n: nat): (d: Date)
    requires n < DayCount
    ensures ValidDate(d)
    ensures DayNumber(d) == n
  {
    var y := YearOfDay(n, 1);
    DaysBeforeNextYear(y);
    var doy := n - DaysBeforeYear(y);
    var m := MonthOfDay(doy, y, 1);
    Date(y, m, doy - DaysBeforeMonth(y, m) + 1)
  }

  /** Every valid date is reached from its own day number. */
  lemma DateOfDayNumber(d: Date)
    requires ValidDate(d)
    ensures DateOfDay(DayNumber(d)) == d
  {
    DayNumberOrder(DateOfDay(DayNumber(d)), d);
  }

  /** Later day numbers give later dates. */
  lemma DateOfDayOrder(a: nat, b: nat)
    requires a < DayCount && b < DayCount
    ensures DateLess(DateOfDay(a), DateOfDay(b)) <==> a < b
  {
    DayNumberOrder(DateOfDay(a), DateOfDay(b));
  }

  /* ---------- Points in time ---------- */

  const TicksPerSecond: int := 1_000_000
  const TicksPerMinute: int := 60_000_000
  const TicksPerHour: int := 3_600_000_000
  const TicksPerDay: int := 86_400_000_000
  const TickLimit: int := 315_537_897_600_000_000

  /** A naive `datetime` between 0001-01-01 00:00:00 and 9999-12-31
      23:59:59.999999, as microseconds since the first of these. */
  type Tick = t: int | 0 <= t < TickLimit

  /** The day number a point in time falls on. */
  function DayOf(t: Tick): (n: nat)
    ensures n < DayCount
    ensures n * TicksPerDay <= t < n * TicksPerDay + TicksPerDay
  {
    t / TicksPerDay
  }

  /** The calendar date of a point in time: `t.date()`. */
  function DateOf(t: Tick): (d: Date)
    ensures ValidDate(d)
  {
    DateOfDay(DayOf(t))
  }

  /** The first tick of day number `n`. */
  lemma WholeDays(n: nat)
    requires n < DayCount
    ensures (n * TicksPerDay) / TicksPerDay == n && (n * TicksPerDay) % TicksPerDay == 0
    ensures n * TicksPerDay < TickLimit
  {
  }

  /** Midnight at the start of a date: `datetime(d.year, d.month, d.day)`. */
  function StartOfDay(d: Date): (t: Tick)
    requires ValidDate(d)
    ensures DayOf(t) == DayNumber(d) && DateOf(t) == d
    ensures t % TicksPerDay == 0
  {
    var n := DayNumber(d);
    DateOfDayNumber(d);
    WholeDays(n);
    n * TicksPerDay
  }

  /** A point in time lies between the midnight that starts its date and the
      next one, and only the first of these is a multiple of a day. */
  lemma WithinDay(t: Tick, d: Date)
    requires ValidDate(d)
    requires DateOf(t) == d
    ensures StartOfDay(d) <= t < StartOfDay(d) + TicksPerDay
    ensures t % TicksPerDay != 0 ==> StartOfDay(d) < t
  {
    assert DayOf(t) == DayNumber(d);
  }

  /** The last microsecond of a date: 23:59:59.999999. */
  function EndOfDay(d: Date): (t: Tick)
    requires ValidDate(d)
    ensures DayOf(t) == DayNumber(d) && DateOf(t) == d
    ensures t == StartOfDay(d) + TicksPerDay - 1
  {
    var n := DayNumber(d);
    DateOfDayNumber(d);
    LastTickOfDay(n);
    n * TicksPerDay + TicksPerDay - 1
  }

  lemma LastTickOfDay(n: nat)
    requires n < DayCount
    ensures n * TicksPerDay + TicksPerDay <= TickLimit
    ensures (n * TicksPerDay + TicksPerDay - 1) / TicksPerDay == n
  {
  }

  /** Against midnight at the start of `d`, a point in time is at or after it
      exactly when its date is not before `d`. */
  lemma StartOfDayBound(t: Tick, d: Date)
    requires ValidDate(d)
    ensures StartOfDay(d) <= t <==> !DateLess(DateOf(t), d)
  {
    var n, m := DayOf(t), DayNumber(d);
    DayNumberOrder(DateOf(t), d);
    assert DayNumber(DateOf(t)) == n;
    DayScale(n, m);
  }

  /** Against the last microsecond of `d`, a point in time is at or before it
      exactly when its date is not after `d`. */
  lemma EndOfDayBound(t: Tick, d: Date)
    requires ValidDate(d)
    ensures t <= EndOfDay(d) <==> !DateLess(d, DateOf(t))
  {
    var n, m := DayOf(t), DayNumber(d);
    DayNumberOrder(d, DateOf(t));
    assert DayNumber(DateOf(t)) == n;
    DayScale(m, n);
  }

  /** Whole days compare as their day numbers do. */
  lemma DayScale(a: nat, b: nat)
    ensures a <= b <==> a * TicksPerDay <= b * TicksPerDay
    ensures a < b <==> a * TicksPerDay + TicksPerDay <= b * TicksPerDay
  {
  }

  /* ---------- ISO text ---------- */

  /** `a + c + b` for a one-character separator `c`, grouped to the right. */
  function Joined(a: string, c: char, b: string): string {
    a + ([c] + b)
  }

  /** `date.isoformat()`: `YYYY-MM-DD`, zero-padded: four, two and two
      digits that read back as the year, the month and the day. */
  function IsoDate(d: Date): (s: string)
    requires ValidDate(d)
    ensures |s| == 10 && IsoDateShape(s)
    ensures DigitsValue(s[..4]) == d.year
    ensures DigitsValue(s[5..7]) == d.month
    ensures DigitsValue(s[8..]) == d.day
  {
    var md := Joined(Pad(d.month, 2), '-', Pad(d.day, 2));
    var s := Joined(Pad(d.year, 4), '-', md);
    IsoDateDigits(d, md, s);
    s
  }

  lemma IsoDateDigits(d: Date, md: string, s: string)
    requires ValidDate(d)
    requires md == Joined(Pad(d.month, 2), '-', Pad(d.day, 2))
    requires s == Joined(Pad(d.year, 4), '-', md)
    ensures |s| == 10 && IsoDateShape(s)
    ensures DigitsValue(s[..4]) == d.year
    ensures DigitsValue(s[5..7]) == d.month
    ensures DigitsValue(s[8..]) == d.day
  {
    JoinedParts(Pad(d.year, 4), '-', md);
    JoinedParts(Pad(d.month, 2), '-', Pad(d.day, 2));
    assert s[..4] == Pad(d.year, 4);
    assert s[5..7] == md[..2] == Pad(d.month, 2);
    assert s[7] == md[2];
    assert s[8..] == md[3..] == Pad(d.day, 2);
    PadDigitsValues(d);
  }

  lemma PadDigitsValues(d: Date)
    requires ValidDate(d)
    ensures DigitsValue(Pad(d.year, 4)) == d.year
    ensures DigitsValue(Pad(d.month, 2)) == d.month
    ensures DigitsValue(Pad(d.day, 2)) == d.day
  {
    Pow10Values();
    PadValue(d.year, 4);
    PadValue(d.month, 2);
    PadValue(d.day, 2);
  }

  lemma Pow10Values()
    ensures Pow10(2) == 100 && Pow10(4) == 10000 && Pow10(6) == 1000000
  {
    assert Pow10(1) == 10;
    assert Pow10(3) == 1000;
    assert Pow10(5) == 100000;
  }

  lemma IsoDateLess(a: Date, b: Date)
    requires ValidDate(a) && ValidDate(b)
    ensures LexLess(IsoDate(a), IsoDate(b)) <==> DateLess(a, b)
  {
    Pow10Values();
    var md := Joined(Pad(a.month, 2), '-', Pad(a.day, 2));
    var md' := Joined(Pad(b.month, 2), '-', Pad(b.day, 2));
    LexLessAppend(Pad(a.year, 4), ['-'] + md, Pad(b.year, 4), ['-'] + md');
    SeparatorLexLess('-', md, md');
    LexLessAppend(Pad(a.month, 2), ['-'] + Pad(a.day, 2), Pad(b.month, 2), ['-'] + Pad(b.day, 2));
    SeparatorLexLess('-', Pad(a.day, 2), Pad(b.day, 2));
    PadOrder(a.year, b.year, 4);
    PadOrder(a.month, b.month, 2);
    PadOrder(a.day, b.day, 2);
    if Pad(a.year, 4) == Pad(b.year, 4) {
      PadInjective(a.year, b.year, 4);
    }
    if Pad(a.month, 2) == Pad(b.month, 2) {
      PadInjective(a.month, b.month, 2);
    }
  }

  /** Comparing ISO date strings as Python strings is comparing the dates,
      and distinct dates have distinct strings. */
  lemma IsoDateOrder(a: Date, b: Date)
    requires ValidDate(a) && ValidDate(b)
    ensures LexLess(IsoDate(a), IsoDate(b)) <==> DateLess(a, b)
    ensures IsoDate(a) == IsoDate(b) <==> a == b
  {
    IsoDateLess(a, b);
    IsoDateLess(b, a);
    if IsoDate(a) == IsoDate(b) {
      LexLessIrreflexive(IsoDate(a));
    }
  }

  lemma JoinedParts(a: string, c: char, b: string)
    ensures |Joined(a, c, b)| == |a| + 1 + |b|
    ensures Joined(a, c, b)[..|a|] == a
    ensures Joined(a, c, b)[|a|] == c
    ensures Joined(a, c, b)[|a| + 1..] == b
  {
  }

  /** `datetime.fromisoformat(s)` for a date-only string: the date, when `s`
      is `YYYY-MM-DD` naming a real day, and nothing (a `ValueError`) otherwise. */
  function ParseIsoDate(s: string): (r: Option<Date>)
    ensures r.Some? ==> ValidDate(r.value) && IsoDate(r.value) == s
  {
    if IsoDateShape(s) then
      var d := Date(DigitsValue(s[..4]), DigitsValue(s[5..7]), DigitsValue(s[8..]));
      if ValidDate(d) then
        ShapeIsIsoDate(s);
        Some(d)
      else None
    else None
  }

  /** `s` has the form `DDDD-DD-DD`. */
  predicate IsoDateShape(s: string) {
    && |s| == 10 && s[4] == '-' && s[7] == '-'
    && AllDigits(s[..4]) && AllDigits(s[5..7]) && AllDigits(s[8..])
  }

  /** Reading the three fields of a `DDDD-DD-DD` string and writing them back
      in ISO form gives the string again. */
  lemma ShapeIsIsoDate(s: string)
    requires IsoDateShape(s)
    requires ValidDate(Date(DigitsValue(s[..4]), DigitsValue(s[5..7]), DigitsValue(s[8..])))
    ensures IsoDate(Date(DigitsValue(s[..4]), DigitsValue(s[5..7]), DigitsValue(s[8..]))) == s
  {
    var y, m, d := s[..4], s[5..7], s[8..];
    ValuePad(y);
    ValuePad(m);
    ValuePad(d);
    IsoDateOfFields(Date(DigitsValue(y), DigitsValue(m), DigitsValue(d)), y, m, d);
    SplitAtSeparators(s);
  }

  lemma IsoDateOfFields(date: Date, y: string, m: string, d: string)
    requires ValidDate(date)
    requires Pad(date.year, 4) == y && Pad(date.month, 2) == m && Pad(date.day, 2) == d
    ensures IsoDate(date) == Joined(y, '-', Joined(m, '-', d))
  {
  }

  lemma SplitAtSeparators(s: string)
    requires |s| == 10 && s[4] == '-' && s[7] == '-'
    ensures Joined(s[..4], '-', Joined(s[5..7], '-', s[8..])) == s
  {
    assert Joined(s[5..7], '-', s[8..]) == s[5..];
  }

  /** Every ISO date string is accepted and read back as its date. */
  lemma ParseIsoDateRoundTrip(d: Date)
    requires ValidDate(d)
    ensures ParseIsoDate(IsoDate(d)) == Some(d)
  {
  }

  /* ---------- Time of day ---------- */

  /** Hours, minutes, seconds and microseconds since midnight. */
  datatype Clock = Clock(hour: nat, minute: nat, second: nat, micro: nat)

  function ClockOf(t: Tick): (c: Clock)
    ensures c.hour < 24 && c.minute < 60 && c.second < 60 && c.micro < TicksPerSecond
    ensures t == DayOf(t) * TicksPerDay + c.hour * TicksPerHour + c.minute * TicksPerMinute
                 + c.second * TicksPerSecond + c.micro
  {
    var tod := t % TicksPerDay;
    var r1 := tod % TicksPerHour;
    var r2 := r1 % TicksPerMinute;
    Clock(tod / TicksPerHour, r1 / TicksPerMinute, r2 / TicksPerSecond, r2 % TicksPerSecond)
  }

  predicate ClockLess(a: Clock, b: Clock) {
    || a.hour < b.hour
    || (a.hour == b.hour && a.minute < b.minute)
    || (a.hour == b.hour && a.minute == b.minute && a.second < b.second)
    || (a.hour == b.hour && a.minute == b.minute && a.second == b.second && a.micro < b.micro)
  }

  /** `HH:MM:SS.ffffff`, every field zero-padded. */
  function ClockText(c: Clock): (s: string)
    ensures |s| == 15
  {
    Joined(Pad(c.hour, 2), ':', Joined(Pad(c.minute, 2), ':', Joined(Pad(c.second, 2), '.', Pad(c.micro, 6))))
  }

  /** The text SQLite holds for a `DateTime` column:
      `YYYY-MM-DD HH:MM:SS.ffffff`. */
  function StorageText(t: Tick): (s: string)
    ensures |s| == 26
    ensures s[..10] == IsoDate(DateOf(t)) && s[10] == ' ' && s[11..] == ClockText(ClockOf(t))
  {
    var date := IsoDate(DateOf(t));
    var clock := ClockText(ClockOf(t));
    JoinedParts(date, ' ', clock);
    Joined(date, ' ', clock)
  }

  lemma ClockTextLess(a: Clock, b: Clock)
    requires a.hour < 100 && a.minute < 100 && a.second < 100 && a.micro < 1000000
    requires b.hour < 100 && b.minute < 100 && b.second < 100 && b.micro < 1000000
    ensures LexLess(ClockText(a), ClockText(b)) <==> ClockLess(a, b)
  {
    Pow10Values();
    var ms := Joined(Pad(a.minute, 2), ':', Joined(Pad(a.second, 2), '.', Pad(a.micro, 6)));
    var ms' := Joined(Pad(b.minute, 2), ':', Joined(Pad(b.second, 2), '.', Pad(b.micro, 6)));
    var su := Joined(Pad(a.second, 2), '.', Pad(a.micro, 6));
    var su' := Joined(Pad(b.second, 2), '.', Pad(b.micro, 6));
    LexLessAppend(Pad(a.hour, 2), [':'] + ms, Pad(b.hour, 2), [':'] + ms');
    SeparatorLexLess(':', ms, ms');
    LexLessAppend(Pad(a.minute, 2), [':'] + su, Pad(b.minute, 2), [':'] + su');
    SeparatorLexLess(':', su, su');
    LexLessAppend(Pad(a.second, 2), ['.'] + Pad(a.micro, 6), Pad(b.second, 2), ['.'] + Pad(b.micro, 6));
    SeparatorLexLess('.', Pad(a.micro, 6), Pad(b.micro, 6));
    PadOrder(a.hour, b.hour, 2);
    PadOrder(a.minute, b.minute, 2);
    PadOrder(a.second, b.second, 2);
    PadOrder(a.micro, b.micro, 6);
    if Pad(a.hour, 2) == Pad(b.hour, 2) {
      PadInjective(a.hour, b.hour, 2);
    }
    if Pad(a.minute, 2) == Pad(b.minute, 2) {
      PadInjective(a.minute, b.minute, 2);
    }
    if Pad(a.second, 2) == Pad(b.second, 2) {
      PadInjective(a.second, b.second, 2);
    }
  }

  /** Within one day, the clock order is the order of the points in time. */
  lemma ClockOrder(t1: Tick, t2: Tick)
    requires DayOf(t1) == DayOf(t2)
    ensures ClockLess(ClockOf(t1), ClockOf(t2)) <==> t1 < t2
  {
  }

  /** Two points in time compare as their days, and on the same day as their clocks. */
  lemma TickOrder(t1: Tick, t2: Tick)
    ensures t1 < t2 <==> DayOf(t1) < DayOf(t2) || (DayOf(t1) == DayOf(t2) && ClockLess(ClockOf(t1), ClockOf(t2)))
  {
    if DayOf(t1) == DayOf(t2) {
      ClockOrder(t1, t2);
    }
  }

  /** The date part of two points in time compares as their days. */
  lemma DatePartOrder(t1: Tick, t2: Tick)
    ensures LexLess(IsoDate(DateOf(t1)), IsoDate(DateOf(t2))) <==> DayOf(t1) < DayOf(t2)
    ensures IsoDate(DateOf(t1)) == IsoDate(DateOf(t2)) <==> DayOf(t1) == DayOf(t2)
  {
    IsoDateOrder(DateOf(t1), DateOf(t2));
    DateOfDayOrder(DayOf(t1), DayOf(t2));
  }

  lemma StorageTextLess(t1: Tick, t2: Tick)
    ensures LexLess(StorageText(t1), StorageText(t2)) <==> t1 < t2
  {
    var c1, c2 := ClockOf(t1), ClockOf(t2);
    var i1, i2 := IsoDate(DateOf(t1)), IsoDate(DateOf(t2));
    LexLessAppend(i1, [' '] + ClockText(c1), i2, [' '] + ClockText(c2));
    SeparatorLexLess(' ', ClockText(c1), ClockText(c2));
    assert LexLess(StorageText(t1), StorageText(t2))
       <==> LexLess(i1, i2) || (i1 == i2 && LexLess(ClockText(c1), ClockText(c2)));
    DatePartOrder(t1, t2);
    ClockTextLess(c1, c2);
    TickOrder(t1, t2);
  }

  /** SQLite compares `DateTime` columns as text. On the stored form the text
      order is exactly the chronological order, and distinct points in time
      are stored as distinct texts. */
  lemma StorageTextOrder(t1: Tick, t2: Tick)
    ensures LexLess(StorageText(t1), StorageText(t2)) <==> t1 < t2
    ensures StorageText(t1) == StorageText(t2) <==> t1 == t2
  {
    StorageTextLess(t1, t2);
    StorageTextLess(t2, t1);
    if StorageText(t1) == StorageText(t2) {
      LexLessIrreflexive(StorageText(t1));
    }
  }

  /** `datetime.isoformat()`: `YYYY-MM-DDTHH:MM:SS`, followed by `.ffffff`
      only when the microseconds are not zero. */
  function IsoDateTime(t: Tick): (s: string)
    ensures |s| == (if ClockOf(t).micro == 0 then 19 else 26)
    ensures s[..10] == IsoDate(DateOf(t)) && s[10] == 'T'
    ensures s[11..19] == HmsText(ClockOf(t))
    ensures ClockOf(t).micro != 0 ==> s[19] == '.' && s[20..] == Pad(ClockOf(t).micro, 6)
  {
    var c := ClockOf(t);
    DateTimeText(IsoDate(DateOf(t)), HmsText(c), FractionText(c.micro))
  }

  /** `HH:MM:SS`, zero-padded. */
  function HmsText(c: Clock): (s: string)
    ensures |s| == 8
  {
    Joined(Pad(c.hour, 2), ':', Joined(Pad(c.minute, 2), ':', Pad(c.second, 2)))
  }

  /** `.ffffff` for a non-zero microsecond count, nothing for zero. */
  function FractionText(micro: nat): (s: string)
    ensures |s| == (if micro == 0 then 0 else 7)
    ensures micro != 0 ==> s[0] == '.' && s[1..] == Pad(micro, 6)
  {
    if micro == 0 then [] else ['.'] + Pad(micro, 6)
  }

  /** A date text, a `T`, the `HH:MM:SS` text and the optional fraction. */
  function DateTimeText(date: string, hms: string, frac: string): (s: string)
    requires |date| == 10 && |hms| == 8
    ensures |s| == 19 + |frac| && s[..10] == date && s[10] == 'T'
    ensures s[11..19] == hms && s[19..] == frac
  {
    var s := date + (['T'] + hms + frac);
    assert s[11..19] == hms;
    assert s[19..] == frac;
    s
  }

  /** `isoformat()` loses nothing: distinct points in time get distinct text. */
  lemma IsoDateTimeInjective(t1: Tick, t2: Tick)
    ensures IsoDateTime(t1) == IsoDateTime(t2) <==> t1 == t2
  {
    if IsoDateTime(t1) == IsoDateTime(t2) {
      var s := IsoDateTime(t1);
      var c1, c2 := ClockOf(t1), ClockOf(t2);
      DatePartOrder(t1, t2);
      DatePartOrder(t2, t1);
      LexLessIrreflexive(s[..10]);
      assert DayOf(t1) == DayOf(t2);
      SameClockText(c1, c2, s[11..19]);
      if c1.micro != 0 {
        Pow10Values();
        PadInjective(c1.micro, c2.micro, 6);
      }
      TickOrder(t1, t2);
      TickOrder(t2, t1);
    }
  }

  /** Equal `HH:MM:SS` texts come from equal hours, minutes and seconds. */
  lemma SameClockText(c1: Clock, c2: Clock, hms: string)
    requires c1.hour < 24 && c1.minute < 60 && c1.second < 60
    requires c2.hour < 24 && c2.minute < 60 && c2.second < 60
    requires hms == HmsText(c1) && hms == HmsText(c2)
    ensures c1.hour == c2.hour && c1.minute == c2.minute && c1.second == c2.second
  {
    Pow10Values();
    var ms1 := Joined(Pad(c1.minute, 2), ':', Pad(c1.second, 2));
    var ms2 := Joined(Pad(c2.minute, 2), ':', Pad(c2.second, 2));
    JoinedParts(Pad(c1.hour, 2), ':', ms1);
    JoinedParts(Pad(c2.hour, 2), ':', ms2);
    JoinedParts(Pad(c1.minute, 2), ':', Pad(c1.second, 2));
    JoinedParts(Pad(c2.minute, 2), ':', Pad(c2.second, 2));
    PadInjective(c1.hour, c2.hour, 2);
    PadInjective(c1.minute, c2.minute, 2);
    PadInjective(c1.second, c2.second, 2);
  }
}
