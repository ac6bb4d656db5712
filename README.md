# Holiday Manager, modelled in Dafny

Holiday Manager is a command-line program that keeps a list of named dates
("holidays"). This project models its holiday collection:

- **The `Holiday` record.** It orders holidays by date only. Its equality
  looks at both the name and the date.
- **`HolidayManager`.** It holds a committed list (`holiday_list`), a
  working list (`edited_list`) and a flag (`edited`). Add and remove change
  the working list and set the flag. Save copies the working list, sorted,
  over the committed list and clears the flag. The date bounds are fixed
  when the manager is built.
- **The view.** It picks the working-list holidays of one calendar year and
  one ISO week number, sorts them by date, and prints one line per holiday.
  When the user asks for it, each line also gets the weather conditions
  reported for that holiday's date.
- **The accept/reject tests of the input prompts.** They accept a date
  between the bounds, a year between the bounds' years, a blank week or a
  week from 1 to 52, and a `y`/`n` answer.
- **The snapshot.** It writes each date as `YYYY-MM-DD`, and `startup` reads
  it back.

Files, one module each:

- `wrappers.dfy` (`Wrappers`): `Option` and `Result`.
- `dates.dfy` (`Dates`): the proleptic Gregorian calendar of Python's
  `datetime.date`, written out:
  - the day number (`toordinal`);
  - the ISO-8601 week date, computed as CPython's `isocalendar` computes
    it, and proved to agree with the definition of ISO 8601 (section
    3.2.2: weeks start on Monday, and week 1 holds the year's first
    Thursday);
  - the `%Y-%m-%d` rendering and parsing, proved to be inverse to each
    other.
- `holidays.dfy` (`Holidays`):
  - the record and its operators;
  - `sorted`/`list.sort()` as a stable insertion sort. It is proved
    sorted, a permutation and stable, and these three facts are proved to
    fix the result, so it is exactly Python's sort;
  - `list.remove`, `min`, `max`, and the snapshot with its loader.
- `input_checks.dfy` (`InputChecks`): the prompts' accept/reject decisions.
- `view.dfy` (`View`): the view's filter and sort as functions, and its
  printing loops as methods proved against those functions.
- `manager.dfy` (`Manager`): the class `HolidayManager`. Its fields are
  updated in place by the methods for `__init__`, `add_holiday`,
  `remove_holiday` and `save_holiday`; `ViewHoliday` (`view_holiday`) only
  reads them. The class invariant
  `Valid` says:
  - the committed list is sorted;
  - both lists lie within the bounds;
  - while the flag is clear, both lists hold the same holidays.

  The bounds are `const` fields, so no method can move them.
- `scenarios.dfy` (`Scenarios`): sessions of the manager and the small
  sorting and removal lemmas they rest on. Some of the sessions show places
  where the code behaves differently from what its names suggest:
  - the duplicate check of `add_holiday` looks at the committed list;
  - the working list is unsorted until its first edit;
  - removing a just-added holiday leaves the flag set.

  The sessions also include the add-remove-save session of three March
  holidays.

The code's behaviour is modelled as written, including these places where
it does less, or something else, than its names suggest:

- `__init__` copies the input into `edited_list` unsorted and does not
  deduplicate it (holidaymanager.py:115).
- `add_holiday` looks for duplicates in the committed list, not the working
  list (holidaymanager.py:124).
- The view pairs the calendar year with the ISO week number, not with the
  ISO year (holidaymanager.py:168).
- 2024-01-15 is in ISO week 3 of 2024, so week 2 shows neither New Year's
  Day nor that date (`View.January2024View`).
- The flag is read only by `exit`'s prompt
  (`Manager.HolidayManager.ExitPrompt`); no operation discards the working
  list's edits.

Three groups of lemmas state background facts rather than a property of one
operation:

- `Dates.OrdinalOrderEmbedding` says that comparing dates as Python does
  (year, then month, then day, as the bounds test at holidaymanager.py:33
  does) is the same as comparing day numbers. So the day number that the
  ISO week is computed from is a faithful encoding of the date order.
- `InputChecks.AcceptedDateHasAcceptedYear` and
  `InputChecks.BoundsAccepted` record that the date and year prompts
  accept closed ranges that agree with each other: every date that can be
  added has a year that can be viewed.
- `Scenarios.AddThenRemove` is the multiset step used by
  `Scenarios.UndoStillWarns`.

## Model

| member | source | states |
|---|---|---|
| Holidays.Lt | holidaymanager.py:90-94 | definition of `__lt__`: the date is earlier; its properties are in `Holidays.OrderingIgnoresNames` and `Holidays.OrderingConsistent` |
| Holidays.Le | holidaymanager.py:95-99 | definition of `__le__`: the date is not later; properties in `Holidays.OrderingIgnoresNames` and `Holidays.OrderingConsistent` |
| Holidays.Gt | holidaymanager.py:80-84 | definition of `__gt__`: the date is later; properties in `Holidays.OrderingIgnoresNames` and `Holidays.OrderingConsistent` |
| Holidays.Ge | holidaymanager.py:85-89 | definition of `__ge__`: the date is not earlier; properties in `Holidays.OrderingIgnoresNames` and `Holidays.OrderingConsistent` |
| Holidays.Eq | holidaymanager.py:100-104 | definition of `__eq__`: both date and name agree; shown to be record equality by `Holidays.EqualityIsValueEquality` |
| Holidays.RemoveFirst | holidaymanager.py:141 | definition of `list.remove`; its meaning is in `Holidays.RemoveFirstTakesOne` and `Holidays.RemoveFirstCutsFirstOccurrence` |
| Holidays.Load | holidaymanager.py:259 | definition of the snapshot read-back at startup, `None` when a date does not parse; tied to the writer by `Holidays.LoadSnapshot` |
| Dates.Ordinal | holidaymanager.py:168 | definition of `toordinal()`, the day number the ISO week is computed from; properties in `Dates.OrdinalIncreasing`, `Dates.OrdinalOrderEmbedding` and `Dates.DayInYear` |
| Dates.Weekday | holidaymanager.py:168 | definition of the weekday of a day number, Monday = 0; used by `Dates.IsoCalendarRange` |
| Dates.Week1Monday | holidaymanager.py:168 | definition of the Monday that starts ISO week 1; properties in `Dates.Week1MondayStartsWeekOne` and `Dates.IsoYearLength` |
| Dates.IsoWeekDateOf | holidaymanager.py:168 | definition of the steps of CPython's `isocalendar()`; properties in `Dates.IsoWeekDateOfFacts` and `Dates.IsoWeekDateOfCorrect` |
| Dates.IsoCalendar | holidaymanager.py:168 | definition of `date.isocalendar()`; proved to be the ISO-8601 week date by `Dates.IsoCalendarCorrect` and `Dates.IsoWeekDateUnique` |
| Dates.Parse | holidaymanager.py:259 | definition of `strptime(..., '%Y-%m-%d')` on the zero-padded form; inverse of `Dates.Render` by `Dates.ParseRender` and `Dates.RenderParse` |
| InputChecks.DateAccepted | holidaymanager.py:33 | definition of the date prompt's test: a parsed date within the bounds, both included; used by the manager methods' preconditions |
| InputChecks.YearAccepted | holidaymanager.py:42 | definition of the year prompt's test: a number between the bounds' years, both included; used by `Manager.HolidayManager.ViewHoliday` |
| InputChecks.WeekAccepted | holidaymanager.py:51-54 | definition of the week prompt's test; characterised by `InputChecks.WeekAcceptance` |
| View.InWeek | holidaymanager.py:168 | definition of the filter's lambda: calendar year and ISO week number match |
| View.Filter | holidaymanager.py:168 | definition of `filter` with that lambda; its meaning is in `View.FilterCounts` |
| View.ViewList | holidaymanager.py:168 | definition of the sorted filter; its meaning is in `View.ViewListContents` |
| View.ResolveWeek | holidaymanager.py:163-166 | definition of the week shown: the typed week, or today's ISO week for a blank answer; used by `View.Week53NeedsBlankWeek` and `Manager.HolidayManager.ViewHoliday` |
| View.Heading | holidaymanager.py:178 | definition of `f'{holiday.name} ({holiday.date})'`; used by `View.DisplayLine` |
| View.Conditions | holidaymanager.py:180-182 | definition of the appended conditions, one ` - conditions` per weather day on the date; properties in `View.ConditionsConcat` and `View.ConditionsEmptyIff` |
| Holidays.OrderingIgnoresNames | holidaymanager.py:80-99 | `<`, `<=`, `>` and `>=` give the same answers for any two holidays with the same dates, whatever their names |
| Holidays.EqualityIsValueEquality | holidaymanager.py:100-104 | `__eq__` holds exactly when name and date are both equal, so `in` and `remove` find exactly equal records |
| Holidays.OrderingConsistent | holidaymanager.py:80-104 | `>`/`>=` mirror `<`/`<=`, `<=` is "not `>`", any two holidays are comparable, and two holidays on one date are order-equivalent yet equal only when their names agree |
| Holidays.Insert | holidaymanager.py:129 | one insertion step of the sort adds exactly one occurrence of the inserted holiday |
| Holidays.InsertSorted | holidaymanager.py:129 | inserting into a date-sorted list keeps it date-sorted |
| Holidays.SortByDate | holidaymanager.py:114 | `sorted`/`sort()`: the result is sorted by date, a permutation of the input (multiset equality) and of the same length |
| Holidays.InsertOnDate | holidaymanager.py:129 | an insertion puts the new holiday first among those of its date and leaves the relative order of every date's holidays alone |
| Holidays.SortStable | holidaymanager.py:114 | the sort is stable: for every date, the holidays of that date appear in input order |
| Holidays.StableSortUnique | holidaymanager.py:114 | two sorted lists with the same holidays of every date, in the same order, are equal |
| Holidays.StableSortIsSortByDate | holidaymanager.py:114 | any sorted list that keeps every date's holidays in input order is `SortByDate` of the input, so `SortByDate` is exactly Python's stable sort |
| Holidays.SortSortedIsIdentity | holidaymanager.py:152 | sorting an already sorted list leaves it as it is |
| Holidays.OnDateConcat | holidaymanager.py:129 | the holidays of one date in a concatenation are those of each part, in order |
| Holidays.FirstIsEarliest | holidaymanager.py:114 | the head of a sorted list is no later than any member |
| Holidays.SameHead | holidaymanager.py:114 | two sorted lists that agree on the holidays of their head dates start with the same holiday |
| Holidays.FirstIndex | holidaymanager.py:141 | the index of the first occurrence: it holds the holiday and no earlier index does |
| Holidays.RemoveFirstTakesOne | holidaymanager.py:141 | `list.remove` takes away exactly one occurrence of the holiday and nothing else, so the length drops by one |
| Holidays.RemoveFirstCutsFirstOccurrence | holidaymanager.py:141 | `list.remove` cuts out exactly the first occurrence and keeps the rest in order |
| Holidays.MinDate | holidaymanager.py:117 | `min(...).date` is the date of some element and no later than any element's date |
| Holidays.MaxDate | holidaymanager.py:118 | `max(...).date` is the date of some element and no earlier than any element's date |
| Holidays.SortedBounds | holidaymanager.py:170-171 | in a sorted non-empty list, `min` and `max` are the first and the last dates |
| Holidays.ToEntry | holidaymanager.py:106 | `__dict__` keeps the name and writes a date string that parses back to the holiday's date |
| Holidays.Snapshot | holidaymanager.py:153 | the saved entries are one per holiday, in list order |
| Holidays.LoadSnapshot | holidaymanager.py:259 | reading a saved list back gives exactly the set of its holidays |
| Holidays.OnDatePicks | holidaymanager.py:114 | a holiday picked for a date comes from the list and has that date |
| Dates.OrdinalOrderEmbedding | holidaymanager.py:33 | the date order is the order of day numbers, and distinct valid dates have distinct day numbers |
| Dates.OrdinalIncreasing | holidaymanager.py:33 | a strictly earlier valid date has a smaller day number |
| Dates.FirstDayMonotone | holidaymanager.py:166 | a later year starts on a later or equal day number |
| Dates.YearLength | holidaymanager.py:166 | a year has 366 days when leap, otherwise 365 |
| Dates.DayInYear | holidaymanager.py:166 | a valid date's day number lies within its year |
| Dates.Week1MondayStartsWeekOne | holidaymanager.py:166 | the Monday that starts ISO week 1 is a Monday within three days of 1 January, so its week holds the year's first Thursday |
| Dates.IsoYearLength | holidaymanager.py:166 | an ISO year has 52 or 53 weeks |
| Dates.Week1MondayMonotone | holidaymanager.py:166 | ISO years follow each other: a later year's week 1 starts no earlier than the week after the previous one |
| Dates.IsoWeekDateOfFacts | holidaymanager.py:168 | each branch of CPython's `isocalendar` yields a weekday 1..7 and a week that starts on the right Monday |
| Dates.IsoWeekDateOfCorrect | holidaymanager.py:168 | the `isocalendar` computation yields a week date of the year before, the year or the year after, counted from that ISO year's week-1 Monday and before the next one |
| Dates.IsoCalendarCorrect | holidaymanager.py:168 | `isocalendar()` of a valid date is an ISO-8601 week date of that day |
| Dates.IsoCalendarRange | holidaymanager.py:168 | the ISO year is within one of the calendar year, the week is 1..53 and the weekday is the day's weekday counted from Monday = 1 |
| Dates.IsoWeekDateDeterminate | holidaymanager.py:168 | a day has at most one ISO-8601 week date |
| Dates.IsoWeekDateUnique | holidaymanager.py:168 | an ISO week date describes a valid day exactly when it is `isocalendar()` of that day |
| Dates.DigitsRoundTrip | holidaymanager.py:106 | a number written with fixed-width zero-padded digits reads back as itself |
| Dates.DigitsOfValue | holidaymanager.py:259 | a digit string is the zero-padded writing of its value |
| Dates.Render | holidaymanager.py:106 | `strftime('%Y-%m-%d')` is ten characters with dashes at positions 4 and 7 |
| Dates.ParseRender | holidaymanager.py:259 | parsing the rendering of a valid date gives the date back |
| Dates.RenderParse | holidaymanager.py:259 | a string that parses as a date is the rendering of that date |
| InputChecks.YesNoAnswer | holidaymanager.py:66-74 | `check_yes_no` stops only on `y` or `n` and answers yes exactly for `y` |
| InputChecks.AcceptedDateHasAcceptedYear | holidaymanager.py:33-42 | every date the date prompt accepts has a year the year prompt accepts |
| InputChecks.BoundsAccepted | holidaymanager.py:33 | both bounds, and both bounds' years, are themselves accepted |
| InputChecks.WeekAcceptance | holidaymanager.py:51-54 | the week prompt accepts exactly a blank answer or a week 1..52, and refuses week 53 |
| View.FilterCounts | holidaymanager.py:168 | the filter keeps every occurrence of a holiday of the chosen calendar year and ISO week, and none of any other |
| View.ViewListContents | holidaymanager.py:168 | the view is sorted and holds exactly the working-list holidays of that calendar year and ISO week, each as often as in the working list |
| View.Week53NeedsBlankWeek | holidaymanager.py:163-168 | a holiday in ISO week 53 is shown only for a blank week answer on a day of an ISO week 53 |
| View.NewYear2021InWeek53 | holidaymanager.py:168 | 2021-01-01 lies in ISO week 53 of 2020, a Friday |
| View.CalendarYearMeetsIsoWeek | holidaymanager.py:168 | 2024-12-30 is in ISO week 1 of 2025, yet it is shown for year 2024 week 1 and not for year 2025 week 1 |
| View.January2024View | holidaymanager.py:168 | with New Year's Day and 2024-01-15 listed, week 1 of 2024 shows the first, week 3 the second, week 2 neither |
| View.Mondays2024 | holidaymanager.py:166 | ISO week 1 of 2023, 2024 and 2025 starts on the days numbered 738522, 738886 and 739250 |
| View.NewYear2024InWeek1 | holidaymanager.py:168 | 2024-01-01 is the Monday of ISO week 1 of 2024 |
| View.January15In2024Week3 | holidaymanager.py:168 | 2024-01-15 is the Monday of ISO week 3 of 2024 |
| View.DisplayLine | holidaymanager.py:178-182 | a line starts with `name (date)` and is exactly that when no weather is known |
| View.DisplayLines | holidaymanager.py:177-183 | one line is printed per viewed holiday |
| View.DisplayLinesInOrder | holidaymanager.py:177-183 | line i is the line of the i-th viewed holiday |
| View.ConditionsConcat | holidaymanager.py:180-182 | each weather day adds its conditions independently, in weather-list order |
| View.ConditionsEmptyIff | holidaymanager.py:180-182 | nothing is appended exactly when no weather day has the holiday's date |
| View.AppendConditions | holidaymanager.py:180-182 | the inner loop produces the holiday's line with ` - conditions` for every weather day on its date |
| View.MergeWeather | holidaymanager.py:177-183 | the printing loop produces exactly the specified lines, in view order |
| Manager.HolidayManager.constructor | holidaymanager.py:113-118 | the committed list is the input sorted; the working list is the input unsorted; the flag is clear; the bounds are the least and greatest input dates |
| Manager.HolidayManager.AddHoliday | holidaymanager.py:124-130 | accepted exactly when the holiday is not in the committed list. Then the working list becomes the sorted old list plus the holiday, one longer, and the flag is set. Otherwise nothing changes. The committed list never changes |
| Manager.HolidayManager.RemoveHoliday | holidaymanager.py:138-143 | accepted exactly when the holiday is in the working list. Then one occurrence is removed, the list is sorted and one shorter, and the flag is set. Otherwise nothing changes. The committed list never changes |
| Manager.HolidayManager.SaveHoliday | holidaymanager.py:149-157 | when confirmed, the committed list becomes the working list sorted (a permutation of it), the flag is cleared and the snapshot of the committed list is written. When declined, nothing changes and nothing is written. The working list never changes |
| Manager.HolidayManager.ViewHoliday | holidaymanager.py:159-183 | shows the lines of the sorted, filtered working list for the entered or today's week. The weather is looked up for the first-to-last date range only on a blank week answer confirmed by the user. An empty view with the weather confirmed is an error |
| Manager.HolidayManager.ExitPrompt | holidaymanager.py:187-189 | the prompt starts with the quit question; it is followed by the lost-changes warning exactly when there are unsaved edits, and is the bare question otherwise |
| Scenarios.SortedPair | holidaymanager.py:129 | two holidays in reverse date order are swapped by the sort |
| Scenarios.OrderedPair | holidaymanager.py:142 | two holidays in date order stay in order |
| Scenarios.AddedBetween | holidaymanager.py:128-129 | appending a holiday dated between two sorted ones and sorting puts it between them |
| Scenarios.RemovedLast | holidaymanager.py:141 | removing the last of three holidays leaves the first two |
| Scenarios.LoadAndAddBetween | holidaymanager.py:113-130 | loading A and B and adding C between them gives the working list [A, C, B], the committed list [A, B] and the flag set |
| Scenarios.RemoveLastOfThree | holidaymanager.py:138-143 | removing B from [A, C, B] leaves [A, C] |
| Scenarios.SaveSorted | holidaymanager.py:150-157 | saving a sorted working list commits it unchanged and clears the flag |
| Scenarios.AddRemoveSave | holidaymanager.py:120-157 | load [A, B], add C, remove B, save: the working list goes [A, C, B] then [A, C], the save commits [A, C] and the flag ends clear |
| Scenarios.MarchSession | holidaymanager.py:120-157 | the same session with three March 2024 holidays: the working list goes [Arbor Eve, Cider Day, Bell Day] then [Arbor Eve, Cider Day], the save commits [Arbor Eve, Cider Day] and the flag ends clear |
| Scenarios.AddTwiceBeforeSave | holidaymanager.py:124 | a holiday not yet saved is accepted twice and ends up twice more in the working list |
| Scenarios.RemovedCannotBeReAdded | holidaymanager.py:124 | a committed holiday removed from the working list is refused when added back before a save |
| Scenarios.LoadReversed | holidaymanager.py:114-118 | loaded in reverse date order, only the committed list is sorted |
| Scenarios.UnsortedUntilFirstEdit | holidaymanager.py:115 | the working list is unsorted after loading and sorted after the first accepted add |
| Scenarios.SaveTwice | holidaymanager.py:150-157 | from any valid state, two confirmed saves with no edit in between write the same snapshot. Afterwards the committed list is the working list sorted, the working list is untouched and the flag is clear |
| Scenarios.UndoStillWarns | holidaymanager.py:188-189 | adding and removing the same holiday gives back the working list's contents, yet exit still warns that changes will be lost |

## Left out

- The retry loops of `add_holiday`, `remove_holiday`, `check_valid_date`, `check_valid_selection` and `check_yes_no` are left out. Each method models one pass with the answer given as a parameter, and a refused answer changes nothing.
- Reading input, `print_header` and every `print` are left out. This includes the "already in the system", "has been added" and "weather data not available" messages.
- `Menu` (dispatch and its endless loop) is not part of this model.
- `exit` is modelled only as the question it asks (`ExitPrompt`). Process termination is left out.
- `api_call` and the HTTP request are left out. The weather lookup is a function parameter that takes the first and last viewed dates, not their `strftime` strings. Its answer is `None` on failure or the days as (date, conditions) pairs, so the parsing of the JSON `days` list is not modelled.
- `datetime.today()` and `datetime.now()` are left out: today's date is a parameter.
- `int()` parsing of the year and week answers is abstracted. The year arrives as `Option<int>` and the week as `WeekInput` (blank, number or not a number).
- `startup` is left out: the file reads and writes, `os.path.isfile`, the scraping of timeanddate.com and `config.api_key`. Only the parse of a saved snapshot is modelled (`Load`). The order in which the Python set hands holidays to `HolidayManager` is arbitrary there, so the constructor takes any order.
- `json.dumps` and JSON string escaping are left out. A snapshot is a list of name/date-string entries.
- `Dates.Parse` accepts only the zero-padded ten-character `YYYY-MM-DD` that `strftime` writes, while `strptime` also accepts unpadded fields. `strftime` of years below 1000 is outside the model, since the rendering always writes four digits.
- `Holiday.__str__` (holidaymanager.py:108-109) is left out, because nothing in the modelled code uses it.
- `Manager.HolidayManager.constructor` requires a non-empty input. Python raises `ValueError` from `min` on an empty list, and the model does not give that a result.
- `Scenarios.UnsortedUntilFirstEdit` states only that the working list is sorted and three long after the edit. `Scenarios.LoadAndAddBetween` gives the exact list.
