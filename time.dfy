/** Calendar dates and wall-clock date-times.

    A calendar date is an integer day number: consecutive dates differ by
    exactly one, so date subtraction in days is integer subtraction. A
    date-time is a date plus a time of day in microseconds, the resolution
    of the naive local date-times the tracker stores. */
module Time {

  const MicrosPerDay: nat := 86_400_000_000

  type TimeOfDay = t: nat | t < MicrosPerDay

  /** A naive local date-time. */
  datatype DateTime = DateTime(date: int, time: TimeOfDay)

  /** A bound of an analytics window, which callers give either as a plain
      date or as a date-time. */
  datatype Moment = OnDate(day: int) | At(dt: DateTime)

  /** Chronological order on date-times: by date, then by time of day. */
  predicate NotAfter(a: DateTime, b: DateTime) {
    a.date < b.date || (a.date == b.date && a.time <= b.time)
  }

  /** `start <= t <= end` on date-times. */
  predicate Within(t: DateTime, start: DateTime, end: DateTime) {
    NotAfter(start, t) && NotAfter(t, end)
  }

  /** The calendar date of a window bound: a date-time is truncated to its
      date, a date is kept as it is. */
  function DateOf(m: Moment): int {
    match m
    case OnDate(d) => d
    case At(dt) => dt.date
  }

  /** The calendar date of every date-time, in the same order. */
  function Dates(ts: seq<DateTime>): (r: seq<int>)
    ensures |r| == |ts|
    ensures forall i :: 0 <= i < |ts| ==> r[i] == ts[i].date
  {
    seq(|ts|, i requires 0 <= i < |ts| => ts[i].date)
  }

  /** Appending a date-time appends its date. */
  lemma DatesAppend(ts: seq<DateTime>, t: DateTime)
    ensures Dates(ts + [t]) == Dates(ts) + [t.date]
  {
  }

  /** For a window that runs from the first instant of one date to the last
      instant of another, a date-time at any time of day is within the window
      exactly when its date lies between those two dates. */
  lemma WithinWholeDays(t: DateTime, start: DateTime, end: DateTime)
    requires start.time == 0 && end.time == MicrosPerDay - 1
    ensures Within(t, start, end) <==> start.date <= t.date <= end.date
  {
  }
}
