/**
  * What a count of milliseconds says about a datetime: it grows with the time, by one for each
  * millisecond of the clock, and is 0 at the start of 1970.
  */
module Instants {
  import opened Calendar

  predicate DateBefore(d: Date, e: Date) {
    || d.year < e.year
    || (d.year == e.year && (d.month < e.month || (d.month == e.month && d.day < e.day)))
  }

  /** Earlier by at least one tick of the millisecond clock. */
  predicate Earlier(a: DateTime, b: DateTime) {
    || DateBefore(a.date, b.date)
    || (a.date == b.date
        && (a.hour < b.hour
            || (a.hour == b.hour
                && (a.minute < b.minute
                    || (a.minute == b.minute
                        && (a.second < b.second
                            || (a.second == b.second && a.microsecond / 1000 < b.microsecond / 1000)))))))
  }

  /** Day numbers are in the order of the calendar. */
  lemma {:induction false} DaysInOrder(m: int, n: int)
    requires m < n
    ensures DateBefore(CivilFromDays(m), CivilFromDays(n))
    decreases n - m
  {
    hide CivilFromDays, DaysFromCivil;
    DaysOfCivil(n - 1);
    DaysStepThroughCalendar(n - 1);
    if m < n - 1 {
      DaysInOrder(m, n - 1);
    }
  }

  lemma DatesInOrder(d: Date, e: Date)
    requires ValidDate(d) && ValidDate(e)
    ensures DaysFromCivil(d.year, d.month, d.day) < DaysFromCivil(e.year, e.month, e.day) <==> DateBefore(d, e)
  {
    hide CivilFromDays, DaysFromCivil;
    var m, n := DaysFromCivil(d.year, d.month, d.day), DaysFromCivil(e.year, e.month, e.day);
    CivilOfDays(d);
    CivilOfDays(e);
    if m < n {
      DaysInOrder(m, n);
    } else if n < m {
      DaysInOrder(n, m);
    }
  }

  /** One datetime has the smaller count exactly when it is earlier, to the millisecond. */
  lemma CountsInOrder(a: DateTime, b: DateTime)
    requires ValidDateTime(a) && ValidDateTime(b)
    ensures ToEpochMs(a) < ToEpochMs(b) <==> Earlier(a, b)
    ensures ToEpochMs(a) == ToEpochMs(b) <==> ToMillis(a) == ToMillis(b)
  {
    hide DaysFromCivil, DateBefore, ValidDate;
    DatesInOrder(a.date, b.date);
    DatesInOrder(b.date, a.date);
    CivilOfDays(a.date);
    CivilOfDays(b.date);
    Clock(a.hour, a.minute, a.second, a.microsecond / 1000);
    Clock(b.hour, b.minute, b.second, b.microsecond / 1000);
  }

  /** The start of a day. */
  function Midnight(d: Date): DateTime {
    DateTime(d, 0, 0, 0, 0)
  }

  /** A millisecond, second, minute, hour and day later on the clock and in the calendar. */
  lemma CountSteps(t: DateTime)
    requires ValidDateTime(t)
    ensures ToEpochMs(t.(microsecond := t.microsecond + 1000)) == ToEpochMs(t) + 1
    ensures ToEpochMs(t.(second := t.second + 1)) == ToEpochMs(t) + 1000
    ensures ToEpochMs(t.(minute := t.minute + 1)) == ToEpochMs(t) + 60_000
    ensures ToEpochMs(t.(hour := t.hour + 1)) == ToEpochMs(t) + 3_600_000
    ensures ToEpochMs(t.(date := NextDate(t.date))) == ToEpochMs(t) + 86_400_000
    ensures ToEpochMs(Midnight(Date(1970, 1, 1))) == 0
  {
    hide DaysFromCivil, NextDate, ValidDate;
    NextDay(t.date);
    EpochNumber();
  }
}
