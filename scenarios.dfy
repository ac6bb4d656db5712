/** Sessions of `HolidayManager`: what a sequence of menu choices does to
    the two lists and the flag, including the places where the working list
    and the committed list behave differently from what their names suggest. */
module Scenarios {
  import opened Wrappers
  import opened Dates
  import opened Holidays
  import opened InputChecks
  import opened Manager

  /** Three holidays of March 2024, loaded as the first two. */
  const ArborEve := Holiday("Arbor Eve", Date(2024, 3, 1))
  const BellDay := Holiday("Bell Day", Date(2024, 3, 10))
  const CiderDay := Holiday("Cider Day", Date(2024, 3, 5))

  /** Two holidays given in reverse date order are swapped. */
  lemma SortedPair(b: Holiday, c: Holiday)
    requires DateLt(c.date, b.date)
    ensures SortByDate([b, c]) == [c, b]
  {
    assert SortByDate([c]) == [c];
    assert SortByDate([b, c]) == Insert(b, [c]) by {
      assert [b, c][1..] == [c];
    }
    assert Insert(b, [c]) == [c] + Insert(b, []);
  }

  /** A holiday dated strictly between two sorted ones is added between them. */
  lemma AddedBetween(a: Holiday, b: Holiday, c: Holiday)
    requires DateLt(a.date, c.date) && DateLt(c.date, b.date)
    ensures SortByDate([a, b] + [c]) == [a, c, b]
  {
    SortedPair(b, c);
    calc {
      SortByDate([a, b] + [c]);
    == { assert [a, b] + [c] == [a, b, c]; }
      SortByDate([a, b, c]);
    == { assert [a, b, c][1..] == [b, c]; }
      Insert(a, SortByDate([b, c]));
    ==
      Insert(a, [c, b]);
    == { assert !Lt(c, a); }
      [a, c, b];
    }
  }

  /** Removing the last of three holidays, both others distinct from it,
      leaves the first two. */
  lemma RemovedLast(a: Holiday, c: Holiday, b: Holiday)
    requires a != b && c != b
    ensures RemoveFirst([a, c, b], b) == [a, c]
  {
    assert [a, c, b][1..] == [c, b] && [c, b][1..] == [b] && [b][1..] == [];
    assert RemoveFirst([b], b) == [];
    assert RemoveFirst([c, b], b) == [c];
  }

  /** Two holidays already in date order stay in that order. */
  lemma OrderedPair(a: Holiday, c: Holiday)
    requires DateLt(a.date, c.date)
    ensures SortByDate([a, c]) == [a, c]
  {
    assert SortByDate([a, c]) == Insert(a, SortByDate([c])) by {
      assert [a, c][1..] == [c];
    }
    assert SortByDate([c]) == [c];
    assert !Lt(c, a);
  }

  /** Two holidays loaded in date order, then a third added between them. */
  method LoadAndAddBetween(a: Holiday, b: Holiday, c: Holiday) returns (m: HolidayManager)
    requires ValidDate(a.date) && ValidDate(b.date) && ValidDate(c.date)
    requires DateLt(a.date, c.date) && DateLt(c.date, b.date)
    ensures fresh(m)
    ensures m.Valid() && m.minDate == a.date && m.maxDate == b.date
    ensures m.holidayList == [a, b] && m.editedList == [a, c, b] && m.edited
  {
    assert SortedByDate([a, b]);
    SortSortedIsIdentity([a, b]);
    SortedBounds([a, b]);
    m := new HolidayManager([a, b]);
    assert c !in m.holidayList;
    var added := m.AddHoliday(c);
    AddedBetween(a, b, c);
  }

  /** The last of three holidays removed from the working list. */
  method RemoveLastOfThree(m: HolidayManager, a: Holiday, c: Holiday, b: Holiday)
    requires m.Valid() && m.editedList == [a, c, b]
    requires a != b && c != b && DateLt(a.date, c.date)
    modifies m
    ensures m.Valid() && m.editedList == [a, c] && m.edited
  {
    assert m.editedList[2] == b;
    assert m.InBounds(b);
    var removed := m.RemoveHoliday(b);
    RemovedLast(a, c, b);
    OrderedPair(a, c);
  }

  /** A confirmed save of a sorted working list commits it as it is and
      clears the flag. */
  method SaveSorted(m: HolidayManager)
    requires m.Valid() && SortedByDate(m.editedList)
    modifies m
    ensures m.holidayList == m.editedList == old(m.editedList) && !m.edited
  {
    SortSortedIsIdentity(m.editedList);
    var written := m.SaveHoliday(true);
  }

  /** Two holidays loaded, a third added between them, the last one removed,
      then the list saved. */
  method AddRemoveSave(a: Holiday, b: Holiday, c: Holiday)
    returns (afterAdd: seq<Holiday>, afterRemove: seq<Holiday>, saved: seq<Holiday>, dirtyAfterSave: bool)
    requires ValidDate(a.date) && ValidDate(b.date) && ValidDate(c.date)
    requires DateLt(a.date, c.date) && DateLt(c.date, b.date)
    ensures afterAdd == [a, c, b]
    ensures afterRemove == [a, c]
    ensures saved == afterRemove && !dirtyAfterSave
  {
    var m := LoadAndAddBetween(a, b, c);
    afterAdd := m.editedList;
    RemoveLastOfThree(m, a, c, b);
    assert SortedByDate([a, c]);
    SaveSorted(m);
    afterRemove := m.editedList;
    saved := m.holidayList;
    dirtyAfterSave := m.edited;
  }

  /** The session above with March holidays. */
  method MarchSession() returns (afterAdd: seq<Holiday>, afterRemove: seq<Holiday>, saved: seq<Holiday>, dirty: bool)
    ensures afterAdd == [ArborEve, CiderDay, BellDay]
    ensures afterRemove == [ArborEve, CiderDay]
    ensures saved == [ArborEve, CiderDay] && !dirty
  {
    afterAdd, afterRemove, saved, dirty := AddRemoveSave(ArborEve, BellDay, CiderDay);
  }

  /** The duplicate check of `add_holiday` looks at the committed list, so a
      holiday that is not yet saved can be added a second time. */
  method AddTwiceBeforeSave(m: HolidayManager, h: Holiday) returns (first: bool, second: bool)
    requires m.Valid() && h !in m.holidayList
    requires ValidDate(h.date) && DateAccepted(Some(h.date), m.minDate, m.maxDate)
    modifies m
    ensures first && second
    ensures multiset(m.editedList)[h] == multiset(old(m.editedList))[h] + 2
  {
    first := m.AddHoliday(h);
    second := m.AddHoliday(h);
  }

  /** The reverse effect of the same check: a committed holiday that is
      removed from the working list cannot be added back until the removal
      is saved. */
  method RemovedCannotBeReAdded(m: HolidayManager, h: Holiday) returns (removed: bool, readded: bool)
    requires m.Valid() && h in m.holidayList && multiset(m.editedList)[h] == 1
    modifies m
    ensures removed && !readded && h !in m.editedList
  {
    assert h in m.editedList && m.InBounds(h);
    removed := m.RemoveHoliday(h);
    readded := m.AddHoliday(h);
  }

  /** Two holidays loaded in reverse date order: only the committed list is
      sorted. */
  method LoadReversed(a: Holiday, b: Holiday) returns (m: HolidayManager)
    requires ValidDate(a.date) && ValidDate(b.date) && DateLt(a.date, b.date)
    ensures fresh(m)
    ensures m.Valid() && m.minDate == a.date && m.maxDate == b.date
    ensures m.editedList == [b, a] && m.holidayList == [a, b] && !m.edited
  {
    SortedPair(b, a);
    assert MinDate([b, a]) == a.date && MaxDate([b, a]) == b.date by {
      assert [b, a][1..] == [a];
    }
    m := new HolidayManager([b, a]);
  }

  /** The working list keeps the order the holidays were loaded in until the
      first accepted edit; the committed list is sorted from the start. */
  method UnsortedUntilFirstEdit(a: Holiday, b: Holiday, c: Holiday)
    returns (working: seq<Holiday>, committed: seq<Holiday>, workingAfterEdit: seq<Holiday>)
    requires ValidDate(a.date) && ValidDate(b.date) && ValidDate(c.date)
    requires DateLt(a.date, c.date) && DateLt(c.date, b.date)
    ensures working == [b, a] && !SortedByDate(working)
    ensures committed == [a, b]
    ensures SortedByDate(workingAfterEdit) && |workingAfterEdit| == 3
  {
    var m := LoadReversed(a, b);
    working := m.editedList;
    committed := m.holidayList;
    assert !Le(working[0], working[1]);
    assert c !in m.holidayList;
    var added := m.AddHoliday(c);
    workingAfterEdit := m.editedList;
  }

  /** A second save with no edit in between writes the same snapshot and
      leaves the state as the first save left it: the committed list is the
      working list sorted, the working list is untouched and the flag is
      clear. */
  method SaveTwice(m: HolidayManager) returns (first: Option<seq<Entry>>, second: Option<seq<Entry>>)
    requires m.Valid()
    modifies m
    ensures first == second && first.Some?
    ensures m.holidayList == SortByDate(old(m.editedList))
    ensures m.editedList == old(m.editedList) && !m.edited
  {
    first := m.SaveHoliday(true);
    second := m.SaveHoliday(true);
  }

  /** Removing a holiday that was just added gives back the working list's
      contents, but the flag stays set: `exit` still warns that changes will
      be lost. */
  method UndoStillWarns(m: HolidayManager, h: Holiday) returns (prompt: string)
    requires m.Valid() && h !in m.holidayList
    requires ValidDate(h.date) && DateAccepted(Some(h.date), m.minDate, m.maxDate)
    modifies m
    ensures multiset(m.editedList) == multiset(old(m.editedList))
    ensures prompt == QuitQuestion + LostChangesWarning
  {
    ghost var before := multiset(m.editedList);
    var added := m.AddHoliday(h);
    ghost var between := multiset(m.editedList);
    assert h in between;
    var removed := m.RemoveHoliday(h);
    AddThenRemove(before, h);
    prompt := m.ExitPrompt();
  }

  /** Adding one occurrence and removing one gives back the same multiset. */
  lemma AddThenRemove(a: multiset<Holiday>, x: Holiday)
    ensures (a + multiset{x}) - multiset{x} == a
  {
  }
}
