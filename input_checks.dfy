/** The accept/reject decisions of the interactive prompts. The prompts
    themselves (reading a line, re-asking until an answer is accepted) are
    left out; each predicate says which answer ends the loop. */
module InputChecks {
  import opened Wrappers
  import opened Dates

  /** An answer to the date prompt is accepted when `strptime` produced a date
      (`None` when it raised) that lies between the bounds, both included. */
  predicate DateAccepted(d: Option<Date>, lo: Date, hi: Date) {
    d.Some? && DateLe(lo, d.value) && DateLe(d.value, hi)
  }

  /** An answer to the year prompt is accepted when `int()` produced a year
      (`None` when it raised) between the bounds' years, both included. */
  predicate YearAccepted(y: Option<int>, lo: Date, hi: Date) {
    y.Some? && lo.year <= y.value <= hi.year
  }

  /** What the week prompt receives: an empty line, a line `int()` reads as
      n, or a line it rejects. */
  datatype WeekInput = Blank | Number(n: int) | NotANumber

  /** The week prompt accepts an empty line or a week from 1 to 52. */
  predicate WeekAccepted(w: WeekInput) {
    w.Blank? || (w.Number? && 1 <= w.n <= 52)
  }

  /** `check_yes_no`: `None` for an answer that makes it ask again, otherwise
      whether the user said yes. */
  function YesNoAnswer(response: string): (answer: Option<bool>)
    ensures answer.Some? <==> response == "y" || response == "n"
    ensures answer == Some(true) <==> response == "y"
  {
    if response == "y" then Some(true)
    else if response == "n" then Some(false)
    else None
  }

  /** Every accepted date also has an accepted year. */
  lemma AcceptedDateHasAcceptedYear(d: Date, lo: Date, hi: Date)
    requires DateAccepted(Some(d), lo, hi)
    ensures YearAccepted(Some(d.year), lo, hi)
  {
  }

  /** The bounds themselves are accepted: the range is closed at both ends. */
  lemma BoundsAccepted(lo: Date, hi: Date)
    requires DateLe(lo, hi)
    ensures DateAccepted(Some(lo), lo, hi) && DateAccepted(Some(hi), lo, hi)
    ensures YearAccepted(Some(lo.year), lo, hi) && YearAccepted(Some(hi.year), lo, hi)
  {
  }

  /** The week prompt takes exactly the empty line and the weeks 1 to 52;
      week 53, which ISO years of 53 weeks have, is refused. */
  lemma WeekAcceptance(w: WeekInput)
    ensures WeekAccepted(w) <==> w == Blank || (exists n :: 1 <= n <= 52 && w == Number(n))
    ensures !WeekAccepted(Number(53))
  {
    if w.Number? && 1 <= w.n <= 52 {
      assert w == Number(w.n);
    }
  }
}
