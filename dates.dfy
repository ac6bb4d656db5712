/** Calendar dates of the proleptic Gregorian calendar as Python's
    `datetime.date` sees them: ordered field by field, numbered by day
    (`toordinal()`, where 0001-01-01 is day 1), placed in the ISO-8601 week
    calendar (`isocalendar()`, ISO 8601:2004 section 3.2.2) and written in the
    fixed `YYYY-MM-DD` shape. */
module Dates {
  import opened Wrappers

  datatype Date = Date(year: int, month: int, day: int)

  /** Python's `datetime.MINYEAR` and `datetime.MAXYEAR`. */
  const MinYear := 1
  const MaxYear := 9999

  predicate IsLeap(y: int) {
    y % 4 == 0 && (y % 100 != 0 || y % 400 == 0)
  }

  function DaysInMonth(y: int, m: int): int
    requires 1 <= m <= 12
  {
    if m == 2 then (if IsLeap(y) then 29 else 28)
    else if m == 4 || m == 6 || m == 9 || m == 11 then 30
    else 31
  }

  /** A date `datetime.date` can hold. */
  predicate ValidDate(d: Date) {
    MinYear <= d.year <= MaxYear && 1 <= d.month <= 12 && 1 <= d.day <= DaysInMonth(d.year, d.month)
  }

  /** Python compares dates as (year, month, day) tuples. */
  predicate DateLt(a: Date, b: Date) {
    a.year < b.year
    || (a.year == b.year && (a.month < b.month || (a.month == b.month && a.day < b.day)))
  }

  predicate DateLe(a: Date, b: Date) {
    DateLt(a, b) || a == b
  }

  lemma DateLeTransitive(a: Date, b: Date, c: Date)
    requires DateLe(a, b) && DateLe(b, c)
    ensures DateLe(a, c)
  {
  }

  /** Days of year y before the first of month m (meaningful for 1 <= m <= 12). */
  function DaysBeforeMonth(y: int, m: int): int {
    if 1 <= m <= 12 then
      [0, 31, 59, 90, 120, 151, 181, 212, 243, 273, 304, 334][m - 1]
      + (if m > 2 && IsLeap(y) then 1 else 0)
    else 0
  }

  /** Days before January 1 of year y, counted from 0001-01-01. */
  function DaysBeforeYear(y: int): int {
    var p := y - 1;
    p * 365 + p / 4 - p / 100 + p / 400
  }

  /** `date.toordinal()`. */
  function Ordinal(d: Date): int {
    DaysBeforeYear(d.year) + DaysBeforeMonth(d.year, d.month) + d.day
  }

  /** Day number of January 1 of year y (`_ymd2ord(y, 1, 1)`). */
  function FirstDay(y: int): (n: int)
    ensures n == Ordinal(Date(y, 1, 1))
  {
    DaysBeforeYear(y) + 1
  }

  /** `date.weekday()` of the day numbered n: Monday is 0, Sunday is 6. */
  function Weekday(n: int): int {
    (n + 6) % 7
  }

  /** Day number of the Monday that starts ISO week 1 of the year whose
      January 1 is day `first`: the Monday on or before it when that day falls
      on Monday to Thursday, the next Monday otherwise. */
  function Week1MondayFrom(first: int): int {
    var firstWeekday := Weekday(first);
    var monday := first - firstWeekday;
    if firstWeekday > 3 then monday + 7 else monday
  }

  /** Day number of the Monday that starts ISO week 1 of year y. */
  function Week1Monday(y: int): int {
    Week1MondayFrom(FirstDay(y))
  }

  datatype IsoDate = IsoDate(year: int, week: int, weekday: int)

  /** `date.isocalendar()`, computed the way Python computes it. */
  function IsoCalendar(d: Date): IsoDate {
    IsoWeekDateOf(Ordinal(d), d.year, Week1Monday(d.year - 1), Week1Monday(d.year), Week1Monday(d.year + 1))
  }

  /** The steps of `isocalendar()` for day `today` of calendar year y, given the
      Mondays that start week 1 of years y - 1, y and y + 1: count whole weeks
      from this year's week 1; before it the day belongs to the previous ISO
      year, and from the next year's week 1 on to the next ISO year. */
  function IsoWeekDateOf(today: int, y: int, prev: int, cur: int, next: int): IsoDate {
    var week := (today - cur) / 7;
    var day := (today - cur) % 7;
    if week < 0 then
      IsoDate(y - 1, (today - prev) / 7 + 1, (today - prev) % 7 + 1)
    else if week >= 52 && today >= next then
      IsoDate(y + 1, 1, day + 1)
    else
      IsoDate(y, week + 1, day + 1)
  }

  /** `isocalendar()` of d from its day number and the Mondays that start
      week 1 of the years around its own. */
  lemma IsoCalendarFrom(d: Date, n: int, prev: int, cur: int, next: int)
    requires n == Ordinal(d)
    requires prev == Week1Monday(d.year - 1) && cur == Week1Monday(d.year) && next == Week1Monday(d.year + 1)
    ensures IsoCalendar(d) == IsoWeekDateOf(n, d.year, prev, cur, next)
  {
  }

  /** The ISO-8601 week date, defined independently of the algorithm above:
      day n is day `weekday` (1 = Monday) of week `week` of ISO year `year`
      when it lies `week - 1` whole weeks and `weekday - 1` days after the
      Monday of week 1 of that year, and before the Monday of week 1 of the next. */
  ghost predicate IsIsoWeekDate(n: int, iso: IsoDate) {
    WeekDateFrom(n, iso, Week1Monday(iso.year), Week1Monday(iso.year + 1))
  }

  /** Day n is day `iso.weekday` of week `iso.week` counted from the Monday
      numbered `start`, and comes before day `end`. */
  ghost predicate WeekDateFrom(n: int, iso: IsoDate, start: int, end: int) {
    1 <= iso.week && 1 <= iso.weekday <= 7
    && n == start + 7 * (iso.week - 1) + (iso.weekday - 1)
    && n < end
  }

  // ---------------------------------------------------------------------
  // Day numbering

  lemma DivStep(y: int, k: int)
    requires k > 0
    ensures y / k - (y - 1) / k == if y % k == 0 then 1 else 0
  {
    var q, r := (y - 1) / k, (y - 1) % k;
    assert y - 1 == k * q + r && 0 <= r < k;
    if r == k - 1 {
      assert y == k * (q + 1);
      DivExact(y, k, q + 1, 0);
    } else {
      assert y == k * q + (r + 1);
      DivExact(y, k, q, r + 1);
    }
  }

  lemma DivExact(a: int, k: int, q: int, r: int)
    requires k > 0 && a == k * q + r && 0 <= r < k
    ensures a / k == q && a % k == r
  {
    var q', r' := a / k, a % k;
    assert a == k * q' + r' && 0 <= r' < k;
    if q' > q {
      assert k * q' >= k * (q + 1) by { MulMonotone(k, q + 1, q'); }
    } else if q' < q {
      assert k * q >= k * (q' + 1) by { MulMonotone(k, q' + 1, q); }
    }
  }

  lemma MulMonotone(k: int, a: int, b: int)
    requires k > 0 && a <= b
    ensures k * a <= k * b
  {
    assert k * b - k * a == k * (b - a);
  }

  /** Each year is 365 days long, 366 in a leap year. */
  lemma YearLength(y: int)
    ensures FirstDay(y + 1) == FirstDay(y) + (if IsLeap(y) then 366 else 365)
  {
    DivStep(y, 4);
    DivStep(y, 100);
    DivStep(y, 400);
    if y % 100 == 0 {
      var q := y / 100;
      assert y == 4 * (25 * q);
      DivExact(y, 4, 25 * q, 0);
    }
    if y % 400 == 0 {
      var q := y / 400;
      assert y == 100 * (4 * q);
      DivExact(y, 100, 4 * q, 0);
    }
  }

  /** A valid date lies in its own year's run of day numbers. */
  lemma DayInYear(d: Date)
    requires ValidDate(d)
    ensures FirstDay(d.year) <= Ordinal(d) < FirstDay(d.year + 1)
  {
    YearLength(d.year);
  }

  lemma {:induction false} FirstDayMonotone(y1: int, y2: int)
    requires y1 <= y2
    ensures FirstDay(y1) <= FirstDay(y2)
    decreases y2 - y1
  {
    if y1 < y2 {
      YearLength(y1);
      FirstDayMonotone(y1 + 1, y2);
    }
  }

  lemma OrdinalIncreasing(a: Date, b: Date)
    requires ValidDate(a) && ValidDate(b) && DateLt(a, b)
    ensures Ordinal(a) < Ordinal(b)
  {
    if a.year < b.year {
      DayInYear(a);
      DayInYear(b);
      FirstDayMonotone(a.year + 1, b.year);
    } else if a.month < b.month {
      assert DaysBeforeMonth(a.year, a.month) + DaysInMonth(a.year, a.month) <= DaysBeforeMonth(b.year, b.month);
    }
  }

  /** Day numbering is an order embedding: it orders valid dates exactly as
      Python's date comparison does. */
  lemma OrdinalOrderEmbedding(a: Date, b: Date)
    requires ValidDate(a) && ValidDate(b)
    ensures DateLt(a, b) <==> Ordinal(a) < Ordinal(b)
    ensures a == b <==> Ordinal(a) == Ordinal(b)
  {
    if DateLt(a, b) {
      OrdinalIncreasing(a, b);
    } else if DateLt(b, a) {
      OrdinalIncreasing(b, a);
    }
  }

  // ---------------------------------------------------------------------
  // ISO-8601 week date

  /** Week 1 starts on a Monday and holds the year's first Thursday
      (the Thursday of that week is one of January 1 to 7). */
  lemma Week1MondayStartsWeekOne(y: int)
    ensures Weekday(Week1Monday(y)) == 0
    ensures FirstDay(y) <= Week1Monday(y) + 3 <= FirstDay(y) + 6
  {
    Week1MondayFromFacts(FirstDay(y));
  }

  lemma Week1MondayFromFacts(first: int)
    ensures Weekday(Week1MondayFrom(first)) == 0
    ensures first <= Week1MondayFrom(first) + 3 <= first + 6
  {
  }

  /** Two Mondays that each start the week holding the first Thursday of
      consecutive years lie 52 or 53 weeks apart. */
  lemma MondaySpacing(a: int, b: int, fa: int, fb: int)
    requires Weekday(a) == 0 && Weekday(b) == 0
    requires fa <= a + 3 <= fa + 6 && fb <= b + 3 <= fb + 6
    requires fb - fa == 365 || fb - fa == 366
    ensures b - a == 7 * 52 || b - a == 7 * 53
  {
    assert a == 7 * (a / 7) + 1;
    assert b == 7 * (b / 7) + 1;
  }

  /** ISO years are 52 or 53 weeks long. */
  lemma IsoYearLength(y: int)
    ensures Week1Monday(y + 1) - Week1Monday(y) == 7 * 52 || Week1Monday(y + 1) - Week1Monday(y) == 7 * 53
  {
    Week1MondayStartsWeekOne(y);
    Week1MondayStartsWeekOne(y + 1);
    YearLength(y);
    MondaySpacing(Week1Monday(y), Week1Monday(y + 1), FirstDay(y), FirstDay(y + 1));
  }

  lemma {:induction false} Week1MondayMonotone(y1: int, y2: int)
    requires y1 < y2
    ensures Week1Monday(y1 + 1) <= Week1Monday(y2)
    decreases y2 - y1
  {
    if y1 + 1 < y2 {
      IsoYearLength(y1 + 1);
      Week1MondayMonotone(y1 + 1, y2);
    }
  }

  /** Counting from a Monday m, day n lies (n - m) / 7 whole weeks and
      Weekday(n) days further on. */
  lemma WeeksFromMonday(n: int, m: int)
    requires Weekday(m) == 0
    ensures (n - m) % 7 == Weekday(n)
    ensures n - m == 7 * ((n - m) / 7) + Weekday(n)
  {
    var j := (m + 6) / 7;
    var t, r := (n + 6) / 7, (n + 6) % 7;
    assert m + 6 == 7 * j;
    DivExact(n - m, 7, t - j, r);
  }

  lemma IsoWeekDateOfFacts(today: int, y: int, prev: int, cur: int, next: int)
    requires Weekday(prev) == 0 && Weekday(cur) == 0 && Weekday(next) == 0
    requires cur - prev >= 7 * 52 && next - cur >= 7 * 52
    requires prev <= today < next + 7
    ensures var iso := IsoWeekDateOf(today, y, prev, cur, next);
      && 1 <= iso.week && 1 <= iso.weekday <= 7 && iso.weekday == Weekday(today) + 1
      && ((iso.year == y - 1 && today == prev + 7 * (iso.week - 1) + (iso.weekday - 1) && today < cur)
          || (iso.year == y && today == cur + 7 * (iso.week - 1) + (iso.weekday - 1) && today < next)
          || (iso.year == y + 1 && iso.week == 1 && today == next + (iso.weekday - 1)))
  {
    WeeksFromMonday(today, prev);
    WeeksFromMonday(today, cur);
    var week := (today - cur) / 7;
    if week < 0 {
    } else if week >= 52 && today >= next {
      WeeksFromMonday(today, next);
      assert (today - next) / 7 == 0;
    }
  }

  /** The Mondays that start week 1 of years y - 1 to y + 2 lie 52 or 53
      weeks apart. */
  lemma IsoMondays(y: int)
    ensures var w0, w1, w2, w3 := Week1Monday(y - 1), Week1Monday(y), Week1Monday(y + 1), Week1Monday(y + 2);
      && Weekday(w0) == 0 && Weekday(w1) == 0 && Weekday(w2) == 0
      && 7 * 52 <= w1 - w0 <= 7 * 53 && 7 * 52 <= w2 - w1 <= 7 * 53 && 7 * 52 <= w3 - w2
  {
    hide Week1Monday, FirstDay, Weekday;
    Week1MondayStartsWeekOne(y - 1);
    Week1MondayStartsWeekOne(y);
    Week1MondayStartsWeekOne(y + 1);
    IsoYearLength(y - 1);
    IsoYearLength(y);
    IsoYearLength(y + 1);
  }

  /** Day `Ordinal(d)` lies between the Mondays that start week 1 of the
      year before d.year and of the week after week 1 of the year after. */
  lemma IsoBracket(d: Date)
    requires ValidDate(d)
    ensures Week1Monday(d.year - 1) <= Ordinal(d) < Week1Monday(d.year + 1) + 7
  {
    hide Ordinal, FirstDay, Week1Monday, Weekday;
    DayInYear(d);
    YearLength(d.year - 1);
    Week1MondayStartsWeekOne(d.year - 1);
    Week1MondayStartsWeekOne(d.year + 1);
  }

  /** The steps of `isocalendar()` place day `today` in the week of the ISO
      year it belongs to, given Mondays w0 to w3 that start week 1 of years
      y - 1 to y + 2. */
  lemma IsoWeekDateOfCorrect(today: int, y: int, w0: int, w1: int, w2: int, w3: int)
    requires Weekday(w0) == 0 && Weekday(w1) == 0 && Weekday(w2) == 0
    requires 7 * 52 <= w1 - w0 <= 7 * 53 && 7 * 52 <= w2 - w1 <= 7 * 53 && 7 * 52 <= w3 - w2
    requires w0 <= today < w2 + 7
    ensures var iso := IsoWeekDateOf(today, y, w0, w1, w2);
      && y - 1 <= iso.year <= y + 1
      && iso.week <= 53 && iso.weekday == Weekday(today) + 1
      && (iso.year == y - 1 ==> WeekDateFrom(today, iso, w0, w1))
      && (iso.year == y ==> WeekDateFrom(today, iso, w1, w2))
      && (iso.year == y + 1 ==> WeekDateFrom(today, iso, w2, w3))
  {
    IsoWeekDateOfFacts(today, y, w0, w1, w2);
  }

  /** `isocalendar()` yields the ISO week date of its argument. */
  lemma IsoCalendarCorrect(d: Date)
    requires ValidDate(d)
    ensures IsIsoWeekDate(Ordinal(d), IsoCalendar(d))
  {
    hide Week1Monday, Ordinal, IsoWeekDateOf, Weekday;
    IsoMondays(d.year);
    IsoBracket(d);
    IsoWeekDateOfCorrect(Ordinal(d), d.year, Week1Monday(d.year - 1), Week1Monday(d.year), Week1Monday(d.year + 1), Week1Monday(d.year + 2));
    IsoWeekDateFromYears(Ordinal(d), IsoCalendar(d), d.year);
  }

  /** The ISO year of a date is its calendar year or a neighbour, its week
      is one of 1 to 53 and its weekday counts from Monday = 1. */
  lemma IsoCalendarRange(d: Date)
    requires ValidDate(d)
    ensures d.year - 1 <= IsoCalendar(d).year <= d.year + 1
    ensures 1 <= IsoCalendar(d).week <= 53
    ensures IsoCalendar(d).weekday == Weekday(Ordinal(d)) + 1
  {
    hide Week1Monday, Ordinal, IsoWeekDateOf, Weekday;
    IsoMondays(d.year);
    IsoBracket(d);
    IsoWeekDateOfCorrect(Ordinal(d), d.year, Week1Monday(d.year - 1), Week1Monday(d.year), Week1Monday(d.year + 1), Week1Monday(d.year + 2));
  }

  /** A week date counted from the week-1 Monday of its own year, one of
      years y - 1 to y + 1, is the ISO week date. */
  lemma IsoWeekDateFromYears(n: int, iso: IsoDate, y: int)
    requires y - 1 <= iso.year <= y + 1
    requires iso.year == y - 1 ==> WeekDateFrom(n, iso, Week1Monday(y - 1), Week1Monday(y))
    requires iso.year == y ==> WeekDateFrom(n, iso, Week1Monday(y), Week1Monday(y + 1))
    requires iso.year == y + 1 ==> WeekDateFrom(n, iso, Week1Monday(y + 1), Week1Monday(y + 2))
    ensures IsIsoWeekDate(n, iso)
  {
    if iso.year == y - 1 {
      assert iso.year + 1 == y;
    } else if iso.year == y {
    } else {
      assert iso.year + 1 == y + 2;
    }
  }

  /** A day number has at most one ISO week date. */
  lemma IsoWeekDateDeterminate(n: int, a: IsoDate, b: IsoDate)
    requires IsIsoWeekDate(n, a) && IsIsoWeekDate(n, b)
    ensures a == b
  {
    hide Week1Monday;
    if a.year < b.year {
      Week1MondayMonotone(a.year, b.year);
    } else if b.year < a.year {
      Week1MondayMonotone(b.year, a.year);
    } else {
      var w := Week1Monday(a.year);
      DivExact(n - w, 7, a.week - 1, a.weekday - 1);
      DivExact(n - w, 7, b.week - 1, b.weekday - 1);
    }
  }

  /** `isocalendar()` is the only answer the ISO-8601 definition allows. */
  lemma IsoWeekDateUnique(d: Date, iso: IsoDate)
    requires ValidDate(d)
    ensures IsIsoWeekDate(Ordinal(d), iso) <==> iso == IsoCalendar(d)
  {
    IsoCalendarCorrect(d);
    if IsIsoWeekDate(Ordinal(d), iso) {
      IsoWeekDateDeterminate(Ordinal(d), iso, IsoCalendar(d));
    }
  }

  // ---------------------------------------------------------------------
  // The `YYYY-MM-DD` text form

  predicate IsDigit(c: char) {
    '0' <= c <= '9'
  }

  function DigitChar(n: int): (c: char)
    requires 0 <= n <= 9
    ensures IsDigit(c) && c as int - '0' as int == n
  {
    (n + '0' as int) as char
  }

  function Pow10(w: nat): nat {
    if w == 0 then 1 else 10 * Pow10(w - 1)
  }

  /** The last w decimal digits of n, zero-padded to width w. */
  function Digits(n: nat, w: nat): (s: string)
    ensures |s| == w && forall i :: 0 <= i < w ==> IsDigit(s[i])
  {
    if w == 0 then [] else Digits(n / 10, w - 1) + [DigitChar(n % 10)]
  }

  function DigitValue(c: char): nat
    requires IsDigit(c)
  {
    c as int - '0' as int
  }

  /** The number a string of decimal digits spells. */
  function DigitsValue(s: string): nat
    requires forall i :: 0 <= i < |s| ==> IsDigit(s[i])
  {
    if s == [] then 0 else DigitsValue(s[..|s| - 1]) * 10 + DigitValue(s[|s| - 1])
  }

  lemma {:induction false} DigitsRoundTrip(n: nat, w: nat)
    requires n < Pow10(w)
    ensures DigitsValue(Digits(n, w)) == n
  {
    if w > 0 {
      DigitsRoundTrip(n / 10, w - 1);
      var s := Digits(n, w);
      assert s[..|s| - 1] == Digits(n / 10, w - 1);
    }
  }

  lemma {:induction false} DigitsOfValue(s: string)
    requires forall i :: 0 <= i < |s| ==> IsDigit(s[i])
    ensures Digits(DigitsValue(s), |s|) == s
  {
    if s != [] {
      var init := s[..|s| - 1];
      DigitsOfValue(init);
      var v := DigitsValue(s);
      var last := DigitValue(s[|s| - 1]);
      assert v == DigitsValue(init) * 10 + last;
      DivExact(v, 10, DigitsValue(init), last);
      assert s == init + [s[|s| - 1]];
    }
  }

  /** `strftime('%Y-%m-%d')` and `str(date)`: zero-padded `YYYY-MM-DD`. */
  function Render(d: Date): (s: string)
    requires ValidDate(d)
    ensures |s| == 10 && s[4] == '-' && s[7] == '-'
  {
    Digits(d.year, 4) + "-" + Digits(d.month, 2) + "-" + Digits(d.day, 2)
  }

  predicate DateShaped(s: string) {
    |s| == 10 && s[4] == '-' && s[7] == '-'
    && (forall i :: 0 <= i < 4 ==> IsDigit(s[i]))
    && (forall i :: 5 <= i < 7 ==> IsDigit(s[i]))
    && (forall i :: 8 <= i < 10 ==> IsDigit(s[i]))
  }

  /** `strptime(s, '%Y-%m-%d').date()` restricted to the zero-padded shape
      that `Render` writes; `None` where Python raises `ValueError`. */
  function Parse(s: string): Option<Date> {
    if DateShaped(s) then
      var d := Date(DigitsValue(s[0..4]), DigitsValue(s[5..7]), DigitsValue(s[8..10]));
      if ValidDate(d) then Some(d) else None
    else None
  }

  /** Rendering a date and parsing it back gives the date. */
  lemma ParseRender(d: Date)
    requires ValidDate(d)
    ensures Parse(Render(d)) == Some(d)
  {
    var s := Render(d);
    assert s[0..4] == Digits(d.year, 4);
    assert s[5..7] == Digits(d.month, 2);
    assert s[8..10] == Digits(d.day, 2);
    assert Pow10(4) == 10000 && Pow10(2) == 100;
    DigitsRoundTrip(d.year, 4);
    DigitsRoundTrip(d.month, 2);
    DigitsRoundTrip(d.day, 2);
  }

  /** Whatever text parses renders back to the same text. */
  lemma RenderParse(s: string, d: Date)
    requires Parse(s) == Some(d)
    ensures Render(d) == s
  {
    DigitsOfValue(s[0..4]);
    DigitsOfValue(s[5..7]);
    DigitsOfValue(s[8..10]);
    assert s == s[0..4] + "-" + s[5..7] + "-" + s[8..10];
  }
}
