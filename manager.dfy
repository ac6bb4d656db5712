/** `HolidayManager`: a committed list of holidays, a working list that
    edits go to, and a flag that says whether the working list has edits
    not yet saved. Saving copies the working list over the committed one. */
module Manager {
  import opened Wrappers
  import opened Dates
  import opened Holidays
  import opened InputChecks
  import opened View

  /** `view_holiday` asked for the weather of an empty view: `min()` of an
      empty list raises `ValueError`. */
  datatype ViewError = EmptyViewHasNoDateRange

  const QuitQuestion := "Are you sure you would like to quit?"
  const LostChangesWarning := "\nYour changes will be lost!"

  class HolidayManager {
    /** `holiday_list`: the committed list, as last saved. */
    var holidayList: seq<Holiday>
    /** `edited_list`: the working list. */
    var editedList: seq<Holiday>
    /** `edited`: set by every accepted edit, cleared by a save. */
    var edited: bool
    /** `min_date` and `max_date`: the bounds for entered dates and years,
        taken from the initial holidays and never recomputed. */
    const minDate: Date
    const maxDate: Date

    /** A holiday whose date `check_valid_date` could have accepted. */
    ghost predicate InBounds(h: Holiday) {
      ValidDate(h.date) && DateLe(minDate, h.date) && DateLe(h.date, maxDate)
    }

    /** The committed list is sorted, every holiday in either list lies within
        the bounds, and while `edited` is clear both lists hold the same
        holidays. */
    ghost predicate Valid()
      reads this
    {
      && DateLe(minDate, maxDate)
      && SortedByDate(holidayList)
      && (forall h :: h in holidayList ==> InBounds(h))
      && (forall h :: h in editedList ==> InBounds(h))
      && (!edited ==> multiset(holidayList) == multiset(editedList))
    }

    /** `__init__`: the committed list is the input sorted; the working list
        is the input as given, unsorted; the bounds are the least and the
        greatest input date. `min` raises on an empty list. */
    constructor (holidays: seq<Holiday>)
      requires |holidays| > 0
      requires AllValid(holidays)
      ensures Valid()
      ensures holidayList == SortByDate(holidays) && editedList == holidays && !edited
      ensures minDate == MinDate(holidays) && maxDate == MaxDate(holidays)
    {
      holidayList := SortByDate(holidays);
      editedList := holidays;
      edited := false;
      minDate := MinDate(holidays);
      maxDate := MaxDate(holidays);
      new;
      assert forall h :: h in holidays ==> InBounds(h);
      assert forall h :: h in holidayList ==> h in multiset(holidays);
    }

    /** One pass of `add_holiday`'s loop with the holiday the user entered.
        The duplicate check looks at the committed list, not the working
        list; a duplicate changes nothing and the source asks again. */
    method AddHoliday(h: Holiday) returns (added: bool)
      requires Valid()
      requires ValidDate(h.date) && DateAccepted(Some(h.date), minDate, maxDate)
      modifies this
      ensures Valid()
      ensures added <==> h !in old(holidayList)
      ensures holidayList == old(holidayList)
      ensures editedList == if added then SortByDate(old(editedList) + [h]) else old(editedList)
      ensures edited == (old(edited) || added)
      ensures added ==> SortedByDate(editedList) && |editedList| == |old(editedList)| + 1
      ensures added ==> multiset(editedList) == multiset(old(editedList)) + multiset{h}
    {
      hide SortByDate, Insert;
      if h in holidayList {
        added := false;
      } else {
        editedList := editedList + [h];
        editedList := SortByDate(editedList);
        edited := true;
        added := true;
        assert forall x :: x in editedList ==> x in multiset(old(editedList) + [h]);
      }
    }

    /** One pass of `remove_holiday`'s loop with the holiday the user entered:
        accepted only when an equal holiday is in the working list, whose
        first occurrence is removed. */
    method RemoveHoliday(h: Holiday) returns (removed: bool)
      requires Valid()
      requires ValidDate(h.date) && DateAccepted(Some(h.date), minDate, maxDate)
      modifies this
      ensures Valid()
      ensures removed <==> h in old(editedList)
      ensures holidayList == old(holidayList)
      ensures editedList == if removed then SortByDate(RemoveFirst(old(editedList), h)) else old(editedList)
      ensures edited == (old(edited) || removed)
      ensures removed ==> SortedByDate(editedList) && |editedList| == |old(editedList)| - 1
      ensures removed ==> multiset(editedList) == multiset(old(editedList)) - multiset{h}
    {
      hide SortByDate, Insert, RemoveFirst;
      if h !in editedList {
        removed := false;
      } else {
        RemoveFirstTakesOne(editedList, h);
        editedList := RemoveFirst(editedList, h);
        editedList := SortByDate(editedList);
        edited := true;
        removed := true;
        forall x | x in editedList
          ensures x in old(editedList)
        {
          assert multiset(editedList)[x] <= multiset(old(editedList))[x];
        }
      }
    }

    /** `save_holiday` with the user's answer: when confirmed, the committed
        list becomes the working list sorted, the flag is cleared and the
        snapshot returned is what goes to `output_file.json`; otherwise
        nothing changes and nothing is written. */
    method SaveHoliday(confirmed: bool) returns (written: Option<seq<Entry>>)
      requires Valid()
      modifies this
      ensures Valid()
      ensures editedList == old(editedList)
      ensures confirmed ==> holidayList == SortByDate(editedList) && !edited
      ensures confirmed ==> written == Some(Snapshot(holidayList))
      ensures confirmed ==> multiset(holidayList) == multiset(editedList)
      ensures !confirmed ==> holidayList == old(holidayList) && edited == old(edited) && written == None
    {
      hide SortByDate, Insert, Snapshot;
      written := None;
      if confirmed {
        holidayList := editedList;
        holidayList := SortByDate(holidayList);
        forall x | x in holidayList
          ensures InBounds(x)
        {
          assert x in multiset(editedList);
        }
        written := Some(Snapshot(holidayList));
        edited := false;
      }
    }

    /** `view_holiday` with the answers to its prompts, today's date and the
        weather lookup as parameters. The view is the working-list holidays
        of calendar year `year` and the ISO week entered (today's for a blank
        answer), sorted; only a blank week answer offers the weather, which is
        looked up for the range from the first to the last viewed date. */
    method ViewHoliday(year: int, week: WeekInput, today: Date, wantsWeather: bool,
                       lookup: (Date, Date) -> Option<seq<WeatherDay>>)
      returns (shown: Result<seq<string>, ViewError>)
      requires Valid()
      requires YearAccepted(Some(year), minDate, maxDate) && WeekAccepted(week)
      ensures var view := ViewList(editedList, year, ResolveWeek(week, today));
        var confirmed := week.Blank? && wantsWeather;
        && AllValid(view)
        && (confirmed && view == [] ==> shown == Failure(EmptyViewHasNoDateRange))
        && (confirmed && view != [] ==>
              shown == Success(DisplayLines(view, lookup(view[0].date, view[|view| - 1].date))))
        && (!confirmed ==> shown == Success(DisplayLines(view, None)))
    {
      hide IsoCalendar;
      var w := ResolveWeek(week, today);
      var confirmed := week.Blank? && wantsWeather;
      var view := ViewList(editedList, year, w);
      ViewListContents(editedList, year, w);
      assert AllValid(view);
      var weather: Option<seq<WeatherDay>> := None;
      if confirmed {
        if view == [] {
          return Failure(EmptyViewHasNoDateRange);
        }
        SortedBounds(view);
        weather := lookup(MinDate(view), MaxDate(view));
        assert weather == lookup(view[0].date, view[|view| - 1].date);
      }
      var lines := MergeWeather(view, weather);
      return Success(lines);
    }

    /** The question `exit` asks: it warns that changes will be lost exactly
        when there are unsaved edits. */
    function ExitPrompt(): (prompt: string)
      reads this
      ensures |QuitQuestion| <= |prompt| && prompt[..|QuitQuestion|] == QuitQuestion
      ensures prompt != QuitQuestion <==> edited
      ensures edited ==> prompt[|QuitQuestion|..] == LostChangesWarning
    {
      if edited then QuitQuestion + LostChangesWarning else QuitQuestion
    }
  }
}
