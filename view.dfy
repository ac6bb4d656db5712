/** What `view_holiday` shows: the working-list holidays of one calendar
    year and ISO week, sorted, each on a line of its own followed by the
    weather conditions reported for its date. */
module View {
  import opened Wrappers
  import opened Dates
  import opened Holidays
  import opened InputChecks

  /** The filter's test: the calendar year of the date is `year` and its ISO
      week number is `week` (the ISO year is not looked at). */
  predicate InWeek(h: Holiday, year: int, week: int) {
    h.date.year == year && IsoCalendar(h.date).week == week
  }

  /** `filter`: the holidays of s that pass `InWeek`, in the order of s. */
  function Filter(s: seq<Holiday>, year: int, week: int): seq<Holiday> {
    if s == [] then []
    else (if InWeek(s[0], year, week) then [s[0]] else []) + Filter(s[1..], year, week)
  }

  /** The filter keeps every occurrence of a holiday that passes and none of
      one that does not. */
  lemma {:induction false} FilterCounts(s: seq<Holiday>, year: int, week: int)
    ensures forall h :: multiset(Filter(s, year, week))[h] == if InWeek(h, year, week) then multiset(s)[h] else 0
  {
    if s != [] {
      assert s == [s[0]] + s[1..];
      FilterCounts(s[1..], year, week);
    }
  }

  /** `view_list`: the filtered holidays, sorted by date. */
  function ViewList(s: seq<Holiday>, year: int, week: int): seq<Holiday> {
    SortByDate(Filter(s, year, week))
  }

  /** The view is sorted and holds exactly the holidays of s in the chosen
      year and week, each as often as in s. */
  lemma ViewListContents(s: seq<Holiday>, year: int, week: int)
    ensures SortedByDate(ViewList(s, year, week))
    ensures forall h :: multiset(ViewList(s, year, week))[h] == if InWeek(h, year, week) then multiset(s)[h] else 0
    ensures forall h :: h in ViewList(s, year, week) <==> h in s && InWeek(h, year, week)
  {
    var r := ViewList(s, year, week);
    FilterCounts(s, year, week);
    assert forall h :: h in r <==> h in multiset(r);
    assert forall h :: h in s <==> h in multiset(s);
  }

  /** The week the view shows: the one typed in, or, for a blank answer, the
      ISO week of today. */
  function ResolveWeek(w: WeekInput, today: Date): int
    requires w != NotANumber
  {
    if w.Blank? then IsoCalendar(today).week else w.n
  }

  /** A holiday in ISO week 53 can only be viewed through a blank week answer
      on a day of an ISO week 53, since the week prompt refuses 53. */
  lemma Week53NeedsBlankWeek(h: Holiday, year: int, w: WeekInput, today: Date)
    requires WeekAccepted(w) && IsoCalendar(h.date).week == 53
    requires InWeek(h, year, ResolveWeek(w, today))
    ensures w.Blank? && IsoCalendar(today).week == 53
  {
  }

  /** 2021-01-01 is a Friday in ISO week 53 of 2020. */
  lemma NewYear2021InWeek53()
    ensures IsoCalendar(Date(2021, 1, 1)) == IsoDate(2020, 53, 5)
  {
    assert Week1Monday(2020) == 737423 by { assert FirstDay(2020) == 737425; }
    assert Week1Monday(2021) == 737794 by { assert FirstDay(2021) == 737791; }
    assert Week1Monday(2022) == 738158 by { assert FirstDay(2022) == 738156; }
    assert Ordinal(Date(2021, 1, 1)) == 737791;
    hide Week1Monday, Ordinal;
    IsoCalendarFrom(Date(2021, 1, 1), 737791, 737423, 737794, 738158);
  }

  /** The filter pairs the calendar year with the ISO week: 2024-12-30 lies in
      ISO week 1 of 2025, yet it is shown for year 2024, week 1, and not for
      year 2025, week 1. */
  lemma CalendarYearMeetsIsoWeek(name: string)
    ensures IsoCalendar(Date(2024, 12, 30)) == IsoDate(2025, 1, 1)
    ensures InWeek(Holiday(name, Date(2024, 12, 30)), 2024, 1)
    ensures !InWeek(Holiday(name, Date(2024, 12, 30)), 2025, 1)
  {
    Mondays2024();
    assert Ordinal(Date(2024, 12, 30)) == 739250;
    hide Week1Monday, Ordinal;
    IsoCalendarFrom(Date(2024, 12, 30), 739250, 738522, 738886, 739250);
  }

  /** New Year's Day 2024 (a Monday) opens ISO week 1 and Martin Luther King
      Day 2024-01-15 is in week 3, so week 2 of 2024 shows neither. */
  lemma January2024View(week: int)
    requires 1 <= week <= 3
    ensures var ny, mlk := Holiday("New Year's Day", Date(2024, 1, 1)), Holiday("Martin Luther King Jr. Day", Date(2024, 1, 15));
      ViewList([ny, mlk], 2024, week) == if week == 1 then [ny] else if week == 3 then [mlk] else []
  {
    NewYear2024InWeek1();
    January15In2024Week3();
    hide IsoCalendar;
    var ny, mlk := Holiday("New Year's Day", Date(2024, 1, 1)), Holiday("Martin Luther King Jr. Day", Date(2024, 1, 15));
    assert [ny, mlk][1..] == [mlk];
    assert Filter([mlk], 2024, week) == if week == 3 then [mlk] else [];
  }

  /** The Mondays that start week 1 of 2023, 2024 and 2025. */
  lemma Mondays2024()
    ensures Week1Monday(2023) == 738522
    ensures Week1Monday(2024) == 738886
    ensures Week1Monday(2025) == 739250
  {
    assert FirstDay(2023) == 738521;
    assert FirstDay(2024) == 738886;
    assert FirstDay(2025) == 739252;
    hide FirstDay;
  }

  /** 2024-01-01 is the Monday of ISO week 1 of 2024. */
  lemma NewYear2024InWeek1()
    ensures IsoCalendar(Date(2024, 1, 1)) == IsoDate(2024, 1, 1)
  {
    Mondays2024();
    assert Ordinal(Date(2024, 1, 1)) == 738886;
    hide Week1Monday, Ordinal;
    IsoCalendarFrom(Date(2024, 1, 1), 738886, 738522, 738886, 739250);
  }

  /** 2024-01-15 is the Monday of ISO week 3 of 2024. */
  lemma January15In2024Week3()
    ensures IsoCalendar(Date(2024, 1, 15)) == IsoDate(2024, 3, 1)
  {
    Mondays2024();
    assert Ordinal(Date(2024, 1, 15)) == 738900;
    hide Week1Monday, Ordinal;
    IsoCalendarFrom(Date(2024, 1, 15), 738900, 738522, 738886, 739250);
  }

  // ---------------------------------------------------------------------
  // Weather

  /** One day of the weather lookup's answer. */
  datatype WeatherDay = WeatherDay(date: Date, conditions: string)

  /** The text the inner loop appends for a holiday on date d:
      ` - conditions` for each weather day on date d, in list order. */
  function Conditions(d: Date, ws: seq<WeatherDay>): string {
    if ws == [] then ""
    else
      var last := ws[|ws| - 1];
      Conditions(d, ws[..|ws| - 1]) + (if last.date == d then " - " + last.conditions else "")
  }

  /** `f'{holiday.name} ({holiday.date})'` */
  function Heading(h: Holiday): string
    requires ValidDate(h.date)
  {
    h.name + " (" + Render(h.date) + ")"
  }

  /** The line printed for h: its heading, then the conditions when the
      weather is known. */
  function DisplayLine(h: Holiday, weather: Option<seq<WeatherDay>>): (line: string)
    requires ValidDate(h.date)
    ensures weather.None? ==> line == Heading(h)
    ensures |Heading(h)| <= |line| && line[..|Heading(h)|] == Heading(h)
  {
    match weather
    case None => Heading(h)
    case Some(ws) => Heading(h) + Conditions(h.date, ws)
  }

  /** One line per holiday of the view, in the view's order. */
  function DisplayLines(view: seq<Holiday>, weather: Option<seq<WeatherDay>>): (lines: seq<string>)
    requires AllValid(view)
    ensures |lines| == |view|
  {
    if view == [] then []
    else
      var init := view[..|view| - 1];
      assert forall h :: h in init ==> h in view;
      DisplayLines(init, weather) + [DisplayLine(view[|view| - 1], weather)]
  }

  /** Line i shown is the line of the i-th holiday of the view. */
  lemma {:induction false} DisplayLinesInOrder(view: seq<Holiday>, weather: Option<seq<WeatherDay>>)
    requires AllValid(view)
    ensures forall i :: 0 <= i < |view| ==> DisplayLines(view, weather)[i] == DisplayLine(view[i], weather)
  {
    if view != [] {
      var init := view[..|view| - 1];
      assert AllValid(init) by {
        assert forall h :: h in init ==> h in view;
      }
      assert DisplayLines(view, weather) == DisplayLines(init, weather) + [DisplayLine(view[|view| - 1], weather)];
      DisplayLinesInOrder(init, weather);
      hide DisplayLine, DisplayLines;
      forall i | 0 <= i < |view|
        ensures DisplayLines(view, weather)[i] == DisplayLine(view[i], weather)
      {
        if i < |init| {
          assert init[i] == view[i];
        }
      }
    }
  }

  /** The conditions of a concatenated weather list are those of its parts,
      in order: each weather day contributes independently. */
  lemma {:induction false} ConditionsConcat(d: Date, a: seq<WeatherDay>, b: seq<WeatherDay>)
    ensures Conditions(d, a + b) == Conditions(d, a) + Conditions(d, b)
    decreases |b|
  {
    if b == [] {
      assert a + b == a;
    } else {
      var b' := b[..|b| - 1];
      assert (a + b)[..|a + b| - 1] == a + b';
      ConditionsConcat(d, a, b');
    }
  }

  /** Nothing is appended exactly when no weather day has the holiday's date. */
  lemma {:induction false} ConditionsEmptyIff(d: Date, ws: seq<WeatherDay>)
    ensures Conditions(d, ws) == "" <==> forall i :: 0 <= i < |ws| ==> ws[i].date != d
  {
    if ws != [] {
      var init := ws[..|ws| - 1];
      ConditionsEmptyIff(d, init);
      assert forall i :: 0 <= i < |init| ==> init[i] == ws[i];
    }
  }

  /** The inner loop of `view_holiday`'s printing: the heading of h,
      extended by ` - conditions` for every weather day on its date. */
  method AppendConditions(h: Holiday, ws: seq<WeatherDay>) returns (line: string)
    requires ValidDate(h.date)
    ensures line == DisplayLine(h, Some(ws))
  {
    line := Heading(h);
    for j := 0 to |ws|
      invariant line == Heading(h) + Conditions(h.date, ws[..j])
    {
      assert ws[..j + 1][..j] == ws[..j];
      if h.date == ws[j].date {
        line := line + " - " + ws[j].conditions;
      }
    }
    assert ws[..|ws|] == ws;
  }

  /** The printing loop of `view_holiday`: one line per viewed holiday, with
      the weather conditions appended when the weather is known. */
  method MergeWeather(view: seq<Holiday>, weather: Option<seq<WeatherDay>>) returns (lines: seq<string>)
    requires AllValid(view)
    ensures lines == DisplayLines(view, weather)
  {
    lines := [];
    for i := 0 to |view|
      invariant AllValid(view[..i])
      invariant lines == DisplayLines(view[..i], weather)
    {
      var h := view[i];
      var line := Heading(h);
      if weather.Some? {
        line := AppendConditions(h, weather.value);
      }
      assert view[..i + 1][..i] == view[..i];
      assert AllValid(view[..i + 1]);
      lines := lines + [line];
    }
    assert view[..|view|] == view;
  }
}
