/**
  The weekend gate of the booking page: a date may be booked only when the
  name of its weekday is one of the allowed day names.
 */
module Weekend {

  /** A calendar date, as its proleptic Gregorian day number: day 1 is
      0001-01-01, a Monday (the numbering of Python's `date.toordinal()`). */
  type Date = int

  /** Weekday names, indexed as Python's `date.weekday()` (0 is Monday). */
  const DayNames: seq<string> := ["Monday", "Tuesday", "Wednesday", "Thursday", "Friday", "Saturday", "Sunday"]

  /** The day names on which bookings are allowed. */
  const DaysAllowed: seq<string> := ["Saturday", "Sunday"]

  /** Position of `d` in its week, 0 for Monday through 6 for Sunday. */
  function Weekday(d: Date): (w: nat)
    ensures w < |DayNames|
  {
    (d + 6) % 7
  }

  /** The full weekday name of `d`, as `strftime('%A')` prints it. */
  function DayName(d: Date): (name: string)
    ensures name in DayNames
    ensures name == "Saturday" <==> Weekday(d) == 5
    ensures name == "Sunday" <==> Weekday(d) == 6
  {
    DayNames[Weekday(d)]
  }

  /** A date is bookable exactly when it falls on a Saturday or a Sunday. */
  function IsWeekend(d: Date): (b: bool)
    ensures b <==> Weekday(d) == 5 || Weekday(d) == 6
    ensures b <==> DayName(d) == "Saturday" || DayName(d) == "Sunday"
  {
    DayName(d) in DaysAllowed
  }

  /** Shifting a date by whole weeks does not change whether it is bookable. */
  lemma WeekendRepeatsWeekly(d: Date, k: int)
    ensures IsWeekend(d + 7 * k) == IsWeekend(d)
  {
  }

  /** Bookable days come in pairs: a Saturday is followed by a bookable
      Sunday, and a Sunday is preceded by a bookable Saturday. */
  lemma WeekendIsTwoAdjacentDays(d: Date)
    ensures IsWeekend(d) && Weekday(d) == 5 ==> IsWeekend(d + 1)
    ensures IsWeekend(d) && Weekday(d) == 6 ==> IsWeekend(d - 1)
    ensures IsWeekend(d) ==> !IsWeekend(d + 2) && !IsWeekend(d - 2)
  {
  }

  /** 2024-06-08 (day 739045) is a Saturday and bookable; the Monday after
      it (day 739047) is not. */
  lemma SaturdayAndMondayExamples()
    ensures DayName(739045) == "Saturday" && IsWeekend(739045)
    ensures DayName(739047) == "Monday" && !IsWeekend(739047)
  {
  }
}
