/** The `Holiday` record: a name and a date, with comparison operators that
    look at the date only and an equality that looks at both fields. Also the
    list operations the holiday manager applies to lists of holidays
    (`sorted`, `list.remove`, `min`, `max`) and the snapshot it writes. */
module Holidays {
  import opened Wrappers
  import opened Dates

  datatype Holiday = Holiday(name: string, date: Date)

  // The comparison operators of `Holiday`.

  /** `__lt__` */
  predicate Lt(a: Holiday, b: Holiday) {
    DateLt(a.date, b.date)
  }

  /** `__le__` */
  predicate Le(a: Holiday, b: Holiday) {
    DateLe(a.date, b.date)
  }

  /** `__gt__` */
  predicate Gt(a: Holiday, b: Holiday) {
    DateLt(b.date, a.date)
  }

  /** `__ge__` */
  predicate Ge(a: Holiday, b: Holiday) {
    DateLe(b.date, a.date)
  }

  /** `__eq__`; Python's `in` and `list.remove` use it. */
  predicate Eq(a: Holiday, b: Holiday) {
    a.date == b.date && a.name == b.name
  }

  /** The four ordering operators depend on the dates alone. */
  lemma OrderingIgnoresNames(a: Holiday, b: Holiday, a': Holiday, b': Holiday)
    requires a.date == a'.date && b.date == b'.date
    ensures Lt(a, b) == Lt(a', b') && Le(a, b) == Le(a', b')
    ensures Gt(a, b) == Gt(a', b') && Ge(a, b) == Ge(a', b')
  {
  }

  /** `__eq__` is value equality of the record, so `in` and `remove` find a
      holiday exactly when both its name and its date match. */
  lemma EqualityIsValueEquality(a: Holiday, b: Holiday)
    ensures Eq(a, b) <==> a == b
  {
  }

  /** The operators form a total preorder: `>` and `>=` mirror `<` and `<=`,
      `<=` is "not `>`", and any two holidays are comparable; two holidays on
      one date are order-equivalent, and equal only if their names agree. */
  lemma OrderingConsistent(a: Holiday, b: Holiday)
    ensures Gt(a, b) == Lt(b, a) && Ge(a, b) == Le(b, a)
    ensures Le(a, b) <==> !Gt(a, b)
    ensures Le(a, b) || Le(b, a)
    ensures a.date == b.date ==> !Lt(a, b) && !Gt(a, b) && Le(a, b) && Ge(a, b) && (Eq(a, b) <==> a.name == b.name)
  {
  }

  // ---------------------------------------------------------------------
  // Sorting

  /** No holiday comes after one with a later date: what `sorted` and
      `list.sort()` promise, given that they only ever ask `<`. */
  predicate SortedByDate(s: seq<Holiday>) {
    forall i, j :: 0 <= i < j < |s| ==> Le(s[i], s[j])
  }

  /** The holidays of s that fall on date d, in their order in s. */
  function OnDate(s: seq<Holiday>, d: Date): seq<Holiday> {
    if s == [] then []
    else (if s[0].date == d then [s[0]] else []) + OnDate(s[1..], d)
  }

  /** Inserts x in front of the first element that is not `<` x. */
  function Insert(x: Holiday, s: seq<Holiday>): (r: seq<Holiday>)
    ensures multiset(r) == multiset(s) + multiset{x}
  {
    if s == [] || !Lt(s[0], x) then [x] + s
    else
      assert s == [s[0]] + s[1..];
      [s[0]] + Insert(x, s[1..])
  }

  /** Inserting into a sorted list keeps it sorted. */
  lemma {:induction false} InsertSorted(x: Holiday, s: seq<Holiday>)
    requires SortedByDate(s)
    ensures SortedByDate(Insert(x, s))
  {
    if s == [] || !Lt(s[0], x) {
      assert Insert(x, s) == [x] + s;
      hide Insert;
      forall k | 0 <= k < |s|
        ensures Le(x, s[k])
      {
        if k > 0 {
          assert Le(s[0], s[k]);
          DateLeTransitive(x.date, s[0].date, s[k].date);
        }
      }
      SortedCons(x, s);
    } else {
      var rest := Insert(x, s[1..]);
      assert Insert(x, s) == [s[0]] + rest;
      hide Insert;
      InsertSorted(x, s[1..]);
      forall k | 0 <= k < |rest|
        ensures Le(s[0], rest[k])
      {
        assert rest[k] in multiset(s[1..]) + multiset{x} by {
          assert rest[k] in multiset(rest);
        }
        if rest[k] != x {
          var m :| 0 <= m < |s[1..]| && s[1..][m] == rest[k];
          assert Le(s[0], s[m + 1]);
        }
      }
      SortedCons(s[0], rest);
    }
  }

  /** A holiday no later than every holiday of a sorted list can go in front. */
  lemma SortedCons(h: Holiday, t: seq<Holiday>)
    requires SortedByDate(t) && forall k :: 0 <= k < |t| ==> Le(h, t[k])
    ensures SortedByDate([h] + t)
  {
    forall i, j | 0 <= i < j < |[h] + t|
      ensures Le(([h] + t)[i], ([h] + t)[j])
    {
      assert ([h] + t)[j] == t[j - 1];
      if i > 0 {
        assert ([h] + t)[i] == t[i - 1];
      }
    }
  }

  /** The list `sorted` returns: Python's sort is stable, so this is an
      insertion sort that keeps holidays on the same date in their input order. */
  function SortByDate(s: seq<Holiday>): (r: seq<Holiday>)
    ensures SortedByDate(r)
    ensures multiset(r) == multiset(s)
    ensures |r| == |s|
  {
    if s == [] then []
    else
      assert s == [s[0]] + s[1..];
      InsertSorted(s[0], SortByDate(s[1..]));
      Insert(s[0], SortByDate(s[1..]))
  }

  lemma {:induction false} OnDateConcat(s: seq<Holiday>, t: seq<Holiday>, d: Date)
    ensures OnDate(s + t, d) == OnDate(s, d) + OnDate(t, d)
  {
    if s == [] {
      assert s + t == t;
    } else {
      assert (s + t)[0] == s[0];
      assert (s + t)[1..] == s[1..] + t;
      OnDateConcat(s[1..], t, d);
    }
  }

  lemma {:induction false} InsertOnDate(x: Holiday, s: seq<Holiday>, d: Date)
    ensures OnDate(Insert(x, s), d) == (if x.date == d then [x] else []) + OnDate(s, d)
  {
    if s == [] || !Lt(s[0], x) {
      OnDateConcat([x], s, d);
      OnDateSingle(x, d);
    } else {
      var rest := Insert(x, s[1..]);
      var picked, first := (if x.date == d then [x] else []), OnDate([s[0]], d);
      assert Insert(x, s) == [s[0]] + rest;
      assert [s[0]] + s[1..] == s;
      OnDateSingle(s[0], d);
      hide Insert, OnDate;
      calc {
        OnDate(Insert(x, s), d);
      == { OnDateConcat([s[0]], rest, d); }
        first + OnDate(rest, d);
      == { InsertOnDate(x, s[1..], d); }
        first + (picked + OnDate(s[1..], d));
      == { assert picked == [] || first == []; }
        picked + (first + OnDate(s[1..], d));
      == { OnDateConcat([s[0]], s[1..], d); }
        picked + OnDate(s, d);
      }
    }
  }

  lemma OnDateSingle(h: Holiday, d: Date)
    ensures OnDate([h], d) == if h.date == d then [h] else []
  {
    assert [h][1..] == [];
  }

  /** Sorting is stable: the holidays on any one date keep their input order. */
  lemma {:induction false} SortStable(s: seq<Holiday>, d: Date)
    ensures OnDate(SortByDate(s), d) == OnDate(s, d)
  {
    if s != [] {
      SortStable(s[1..], d);
      InsertOnDate(s[0], SortByDate(s[1..]), d);
      OnDateConcat([s[0]], s[1..], d);
      assert s == [s[0]] + s[1..];
    }
  }

  /** Only holidays of s on date d are picked. */
  lemma {:induction false} OnDatePicks(s: seq<Holiday>, d: Date, h: Holiday)
    requires h in OnDate(s, d)
    ensures h in s && h.date == d
  {
    if s[0] != h || s[0].date != d {
      OnDatePicks(s[1..], d, h);
    }
  }

  lemma OnDateHead(s: seq<Holiday>)
    requires s != []
    ensures OnDate(s, s[0].date) == [s[0]] + OnDate(s[1..], s[0].date)
  {
  }

  /** The first holiday of a sorted list has the least date. */
  lemma FirstIsEarliest(s: seq<Holiday>, h: Holiday)
    requires SortedByDate(s) && h in s
    ensures Le(s[0], h)
  {
    var i :| 0 <= i < |s| && s[i] == h;
    if i > 0 {
      assert Le(s[0], s[i]);
    }
  }

  /** Two sorted lists that agree on the holidays of their first dates
      start with the same holiday. */
  lemma SameHead(r1: seq<Holiday>, r2: seq<Holiday>)
    requires SortedByDate(r1) && SortedByDate(r2) && r1 != [] && r2 != []
    requires OnDate(r1, r1[0].date) == OnDate(r2, r1[0].date)
    requires OnDate(r1, r2[0].date) == OnDate(r2, r2[0].date)
    ensures r1[0] == r2[0]
  {
    var a, b := r1[0], r2[0];
    OnDateHead(r1);
    OnDateHead(r2);
    OnDatePicks(r2, a.date, a);
    FirstIsEarliest(r2, a);
    OnDatePicks(r1, b.date, b);
    FirstIsEarliest(r1, b);
    assert a.date == b.date;
    assert OnDate(r1, a.date)[0] == a;
    assert OnDate(r2, b.date)[0] == b;
  }

  /** Sortedness and per-date order determine a list: any stable sort of a
      list by date gives the same result. */
  lemma {:induction false} StableSortUnique(r1: seq<Holiday>, r2: seq<Holiday>)
    requires SortedByDate(r1) && SortedByDate(r2)
    requires forall d :: OnDate(r1, d) == OnDate(r2, d)
    ensures r1 == r2
    decreases |r1|
  {
    if r1 == [] || r2 == [] {
      if r1 != [] {
        OnDateHead(r1);
        assert false;
      } else if r2 != [] {
        OnDateHead(r2);
        assert false;
      }
    } else {
      SameHead(r1, r2);
      forall d
        ensures OnDate(r1[1..], d) == OnDate(r2[1..], d)
      {
        OnDateConcat([r1[0]], r1[1..], d);
        OnDateConcat([r2[0]], r2[1..], d);
        assert r1 == [r1[0]] + r1[1..];
        assert r2 == [r2[0]] + r2[1..];
        var p := OnDate([r1[0]], d);
        assert OnDate(r1[1..], d) == OnDate(r1, d)[|p|..];
        assert OnDate(r2[1..], d) == OnDate(r2, d)[|p|..];
      }
      StableSortUnique(r1[1..], r2[1..]);
    }
  }

  /** `SortByDate` is exactly Python's stable sort: the only sorted list that
      keeps each date's holidays in input order. */
  lemma StableSortIsSortByDate(s: seq<Holiday>, r: seq<Holiday>)
    requires SortedByDate(r)
    requires forall d :: OnDate(r, d) == OnDate(s, d)
    ensures r == SortByDate(s)
  {
    forall d
      ensures OnDate(r, d) == OnDate(SortByDate(s), d)
    {
      SortStable(s, d);
    }
    StableSortUnique(r, SortByDate(s));
  }

  /** Sorting a sorted list changes nothing (as when `startup` sorts the
      committed list again, or a save sorts an already sorted working list). */
  lemma SortSortedIsIdentity(s: seq<Holiday>)
    requires SortedByDate(s)
    ensures SortByDate(s) == s
  {
    StableSortIsSortByDate(s, s);
  }

  // ---------------------------------------------------------------------
  // `list.remove`, `min`, `max`

  /** Index of the first holiday of s equal to x. */
  function FirstIndex(s: seq<Holiday>, x: Holiday): (i: nat)
    requires x in s
    ensures i < |s| && s[i] == x && x !in s[..i]
  {
    if s[0] == x then 0
    else
      assert s[1..][..FirstIndex(s[1..], x)] == s[1..FirstIndex(s[1..], x) + 1];
      1 + FirstIndex(s[1..], x)
  }

  /** `list.remove(x)`: drops the first element equal to x. */
  function RemoveFirst(s: seq<Holiday>, x: Holiday): seq<Holiday>
    requires x in s
  {
    if s[0] == x then s[1..] else [s[0]] + RemoveFirst(s[1..], x)
  }

  /** `remove` takes out one occurrence of x and nothing else. */
  lemma {:induction false} RemoveFirstTakesOne(s: seq<Holiday>, x: Holiday)
    requires x in s
    ensures multiset(RemoveFirst(s, x)) == multiset(s) - multiset{x}
    ensures |RemoveFirst(s, x)| == |s| - 1
  {
    assert s == [s[0]] + s[1..];
    if s[0] != x {
      RemoveFirstTakesOne(s[1..], x);
    }
  }

  /** The other holidays keep their order: `remove` cuts out exactly the
      first occurrence of x. */
  lemma {:induction false} RemoveFirstCutsFirstOccurrence(s: seq<Holiday>, x: Holiday)
    requires x in s
    ensures RemoveFirst(s, x) == s[..FirstIndex(s, x)] + s[FirstIndex(s, x) + 1..]
  {
    if s[0] == x {
      RemoveFirstStep(s, x);
      hide RemoveFirst, FirstIndex;
      SlicesAtHead(s, FirstIndex(s, x));
    } else {
      RemoveFirstCutsFirstOccurrence(s[1..], x);
      RemoveFirstCutsStep(s, x);
    }
  }

  /** The step of the induction above, from the tail to the whole list. */
  lemma RemoveFirstCutsStep(s: seq<Holiday>, x: Holiday)
    requires x in s && s[0] != x && x in s[1..]
    requires RemoveFirst(s[1..], x) == s[1..][..FirstIndex(s[1..], x)] + s[1..][FirstIndex(s[1..], x) + 1..]
    ensures RemoveFirst(s, x) == s[..FirstIndex(s, x)] + s[FirstIndex(s, x) + 1..]
  {
    RemoveFirstStep(s, x);
    hide RemoveFirst, FirstIndex;
    SlicesOfTail(s, FirstIndex(s, x), FirstIndex(s[1..], x));
  }

  /** One step of `RemoveFirst` and `FirstIndex`. */
  lemma RemoveFirstStep(s: seq<Holiday>, x: Holiday)
    requires x in s
    ensures s[0] == x ==> FirstIndex(s, x) == 0 && RemoveFirst(s, x) == s[1..]
    ensures s[0] != x ==> x in s[1..] && FirstIndex(s, x) == FirstIndex(s[1..], x) + 1
    ensures s[0] != x ==> RemoveFirst(s, x) == [s[0]] + RemoveFirst(s[1..], x)
  {
  }

  lemma SlicesAtHead<T>(s: seq<T>, i: nat)
    requires i == 0 < |s|
    ensures s[..i] + s[i + 1..] == s[1..]
  {
  }

  lemma SlicesOfTail<T>(s: seq<T>, i: nat, k: nat)
    requires i == k + 1 && i < |s|
    ensures s[..i] + s[i + 1..] == [s[0]] + (s[1..][..k] + s[1..][k + 1..])
  {
    assert s[..i] == [s[0]] + s[1..][..k];
    assert s[i + 1..] == s[1..][k + 1..];
  }

  /** The date of `min(s)`: `min` compares with `<`, i.e. by date. */
  function MinDate(s: seq<Holiday>): (d: Date)
    requires |s| > 0
    ensures exists i :: 0 <= i < |s| && s[i].date == d
    ensures forall i :: 0 <= i < |s| ==> DateLe(d, s[i].date)
  {
    if |s| == 1 then s[0].date
    else
      var rest := MinDate(s[1..]);
      assert forall i :: 1 <= i < |s| ==> s[i] == s[1..][i - 1];
      if DateLt(rest, s[0].date) then rest else s[0].date
  }

  /** The date of `max(s)`. */
  function MaxDate(s: seq<Holiday>): (d: Date)
    requires |s| > 0
    ensures exists i :: 0 <= i < |s| && s[i].date == d
    ensures forall i :: 0 <= i < |s| ==> DateLe(s[i].date, d)
  {
    if |s| == 1 then s[0].date
    else
      var rest := MaxDate(s[1..]);
      assert forall i :: 1 <= i < |s| ==> s[i] == s[1..][i - 1];
      if DateLt(s[0].date, rest) then rest else s[0].date
  }

  /** In a sorted list the least and greatest dates are those of the first and
      last holidays. */
  lemma SortedBounds(s: seq<Holiday>)
    requires |s| > 0 && SortedByDate(s)
    ensures MinDate(s) == s[0].date && MaxDate(s) == s[|s| - 1].date
  {
    SortedMin(s);
    SortedMax(s);
  }

  lemma SortedMin(s: seq<Holiday>)
    requires |s| > 0 && SortedByDate(s)
    ensures MinDate(s) == s[0].date
  {
    var lo := MinDate(s);
    var i :| 0 <= i < |s| && s[i].date == lo;
    assert DateLe(s[0].date, lo) by {
      if i > 0 {
        assert Le(s[0], s[i]);
      }
    }
    assert DateLe(lo, s[0].date);
  }

  lemma SortedMax(s: seq<Holiday>)
    requires |s| > 0 && SortedByDate(s)
    ensures MaxDate(s) == s[|s| - 1].date
  {
    var hi := MaxDate(s);
    var j :| 0 <= j < |s| && s[j].date == hi;
    assert DateLe(hi, s[|s| - 1].date) by {
      if j < |s| - 1 {
        assert Le(s[j], s[|s| - 1]);
      }
    }
    assert DateLe(s[|s| - 1].date, hi);
  }

  // ---------------------------------------------------------------------
  // The snapshot file

  /** One object of the JSON array in `output_file.json`. */
  datatype Entry = Entry(name: string, date: string)

  /** `Holiday.__dict__`: the name and the date as `YYYY-MM-DD`. */
  function ToEntry(h: Holiday): (e: Entry)
    requires ValidDate(h.date)
    ensures e.name == h.name && Parse(e.date) == Some(h.date)
  {
    ParseRender(h.date);
    Entry(h.name, Render(h.date))
  }

  predicate AllValid(s: seq<Holiday>) {
    forall h :: h in s ==> ValidDate(h.date)
  }

  /** The entries `save_holiday` writes, one per holiday, in list order. */
  function Snapshot(s: seq<Holiday>): (es: seq<Entry>)
    requires AllValid(s)
    ensures |es| == |s| && forall i :: 0 <= i < |s| ==> es[i] == ToEntry(s[i])
  {
    if s == [] then [] else [ToEntry(s[0])] + Snapshot(s[1..])
  }

  /** The set of holidays `startup` builds from a snapshot (parsing each date
      with `%Y-%m-%d`); `None` when a date does not parse and Python raises. */
  function Load(es: seq<Entry>): Option<set<Holiday>> {
    if es == [] then Some({})
    else
      match Parse(es[0].date)
      case None => None
      case Some(d) =>
        match Load(es[1..])
        case None => None
        case Some(rest) => Some({Holiday(es[0].name, d)} + rest)
  }

  /** Writing a list and reading it back yields the same holidays, as a set:
      order and repeated entries are lost, nothing else. */
  lemma {:induction false} LoadSnapshot(s: seq<Holiday>)
    requires AllValid(s)
    ensures Load(Snapshot(s)) == Some(set h | h in s)
  {
    if s == [] {
      assert (set h | h in s) == {};
    } else {
      assert AllValid(s[1..]);
      var es := Snapshot(s);
      SnapshotTail(s);
      SetOfCons(s);
      hide Snapshot, ToEntry;
      LoadSnapshot(s[1..]);
      LoadCons(es, s[0].date, set h | h in s[1..]);
    }
  }

  /** Loading an entry list whose first date parses adds that holiday to the
      holidays of the rest. */
  lemma LoadCons(es: seq<Entry>, d: Date, rest: set<Holiday>)
    requires es != [] && Parse(es[0].date) == Some(d) && Load(es[1..]) == Some(rest)
    ensures Load(es) == Some({Holiday(es[0].name, d)} + rest)
  {
  }

  lemma SnapshotTail(s: seq<Holiday>)
    requires AllValid(s) && s != []
    ensures Snapshot(s)[0] == ToEntry(s[0]) && Snapshot(s)[1..] == Snapshot(s[1..])
  {
  }

  lemma SetOfCons<T>(s: seq<T>)
    requires s != []
    ensures (set x | x in s) == {s[0]} + (set x | x in s[1..])
  {
    assert s == [s[0]] + s[1..];
  }
}
