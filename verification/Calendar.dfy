/**
  * The civil-date arithmetic of _bson_core.c and the conversion to epoch milliseconds.
  *
  * The C functions are written out with C's operators: division truncates toward zero
  * and the one unsigned subtraction wraps.  The reference is the proleptic Gregorian
  * calendar itself: month lengths, the 4/100/400 leap rule and "the day after".
  */
module Calendar {

  // ---------------------------------------------------------------- the calendar

  datatype Date = Date(year: int, month: int, day: int)

  predicate IsLeap(y: int) {
    y % 4 == 0 && (y % 100 != 0 || y % 400 == 0)
  }

  function DaysInMonth(y: int, m: int): int {
    if m == 2 then (if IsLeap(y) then 29 else 28)
    else if m == 4 || m == 6 || m == 9 || m == 11 then 30
    else 31
  }

  predicate ValidDate(d: Date) {
    1 <= d.month <= 12 && 1 <= d.day <= DaysInMonth(d.year, d.month)
  }

  function NextDate(d: Date): Date {
    if d.day < DaysInMonth(d.year, d.month) then Date(d.year, d.month, d.day + 1)
    else if d.month < 12 then Date(d.year, d.month + 1, 1)
    else Date(d.year + 1, 1, 1)
  }

  // ---------------------------------------------------------------- the C code

  /** C's `/`. */
  function TruncDiv(a: int, b: int): int
    requires b != 0
    decreases b < 0
  {
    if b < 0 then -TruncDiv(a, -b) else if a >= 0 then a / b else -((-a) / b)
  }

  const UINT_RANGE := 0x1_0000_0000

  /** Days before year `yoe` of an era, years starting in March. */
  function Start(yoe: int): int {
    365 * yoe + yoe / 4 - yoe / 100
  }

  /** Days before month `mp` of such a year, March being month 0. */
  function MonthStart(mp: int): int {
    (153 * mp + 2) / 5
  }

  /** days_from_civil. */
  function DaysFromCivil(year: int, month: int, day: int): int {
    var y := year - (if month <= 2 then 1 else 0);
    var era := TruncDiv(if y >= 0 then y else y - 399, 400);
    var yoe := y - era * 400;
    var doy := MonthStart(month + (if month > 2 then -3 else 9)) + day - 1;
    var doe := Start(yoe) + doy;
    era * 146097 + doe - 719468
  }

  function YearOfEra(doe: int): int {
    (doe - doe / 1460 + doe / 36524 - doe / 146096) / 365
  }

  /** The last lines of civil_from_days: from March-based year and day of year to a date. */
  function Decode(y: int, doy: int): Date {
    var mp := (5 * doy + 2) / 153;
    var day := doy - MonthStart(mp) + 1;
    var month := (mp + (if mp < 10 then 3 else UINT_RANGE - 9)) % UINT_RANGE;
    Date(y + (if month <= 2 then 1 else 0), month, day)
  }

  /** civil_from_days. */
  function CivilFromDays(days: int): Date {
    var z := days + 719468;
    var era := TruncDiv(if z >= 0 then z else z - 146096, 146097);
    var doe := z - era * 146097;
    var yoe := YearOfEra(doe);
    var y := yoe + era * 400;
    var doy := doe - Start(yoe);
    Decode(y, doy)
  }

  /** floordiv_i64. */
  function FloorDiv(a: int, b: int): int
    requires b != 0
  {
    var q := TruncDiv(a, b);
    var r := a - q * b;
    if r != 0 && (r < 0) != (b < 0) then q - 1 else q
  }

  // ---------------------------------------------------------------- eras

  /** The adjusted truncating division of the C code is floor division. */
  lemma EraIsFloor(y: int, n: int)
    requires n == 400 || n == 146097
    ensures TruncDiv(if y >= 0 then y else y - (n - 1), n) == y / n
  {
  }

  /** The length of such a year. */
  function YearLength(yoe: int): int {
    if (yoe % 4 == 3 && yoe % 100 != 99) || yoe == 399 then 366 else 365
  }

  predicate InYear(yoe: int, doy: int) {
    0 <= yoe < 400 && 0 <= doy < YearLength(yoe)
  }

  lemma Quarters(c: int, q: int, r: int)
    requires 0 <= c < 4 && 0 <= q < 25 && 0 <= r < 4
    ensures (100 * c + 4 * q + r) / 100 == c
    ensures (100 * c + 4 * q + r) / 4 == 25 * c + q
    ensures (100 * c + 4 * q + r) % 4 == r
    ensures (100 * c + 4 * q + r) % 100 == 4 * q + r
    ensures Start(100 * c + 4 * q + r) == 36524 * c + 1461 * q + 365 * r
  {
  }

  lemma DivideBy1460(c: int, q: int, x: int)
    requires 0 <= c < 4 && 0 <= q < 25 && 0 <= x <= 1460
    ensures (36524 * c + 1461 * q + x) / 1460 == 25 * c + q + (if 24 * c + q + x >= 1460 then 1 else 0)
  {
    var t := if 24 * c + q + x >= 1460 then 1 else 0;
    assert 36524 * c + 1461 * q + x == 1460 * (25 * c + q + t) + (24 * c + q + x - 1460 * t);
  }

  /** The year-of-era formula inverts `Start`: its three corrections cancel the leap days exactly. */
  lemma YearOfEraInverts(yoe: int, doy: int)
    requires InYear(yoe, doy)
    ensures 0 <= Start(yoe) + doy <= 146096
    ensures YearOfEra(Start(yoe) + doy) == yoe
  {
    var c, q, r := yoe / 100, yoe % 100 / 4, yoe % 4;
    SplitYear(yoe);
    Quarters(c, q, r);
    YearOfEraOf(c, q, r, doy);
  }

  lemma SplitYear(yoe: int)
    requires 0 <= yoe < 400
    ensures yoe == 100 * (yoe / 100) + 4 * (yoe % 100 / 4) + yoe % 4
    ensures 0 <= yoe / 100 < 4 && 0 <= yoe % 100 / 4 < 25
    ensures yoe % 100 == 99 <==> yoe % 100 / 4 == 24 && yoe % 4 == 3
  {
    assert yoe % 100 % 4 == yoe % 4;
  }

  /** The same on the year's digits: century, four-year cycle, year of the cycle. */
  lemma YearOfEraOf(c: int, q: int, r: int, doy: int)
    requires 0 <= c < 4 && 0 <= q < 25 && 0 <= r < 4
    requires 0 <= doy < if r == 3 && (q < 24 || c == 3) then 366 else 365
    ensures 0 <= 36524 * c + 1461 * q + 365 * r + doy <= 146096
    ensures YearOfEra(36524 * c + 1461 * q + 365 * r + doy) == 100 * c + 4 * q + r
  {
    var doe, yoe := 36524 * c + 1461 * q + 365 * r + doy, 100 * c + 4 * q + r;
    DivideBy1460(c, q, 365 * r + doy);
    CenturyOf(c, 1461 * q + 365 * r + doy);
    var t := if 24 * c + q + 365 * r + doy >= 1460 then 1 else 0;
    assert doe - doe / 1460 + c == 365 * yoe + doy - t;
    QuotientIs(yoe, doy - t);
  }

  /** The century of a day of the era: the last day of the era needs the second correction. */
  lemma CenturyOf(c: int, x: int)
    requires 0 <= c < 4 && 0 <= x <= 36524 && (x == 36524 ==> c == 3)
    ensures (36524 * c + x) / 36524 - (36524 * c + x) / 146096 == c
  {
  }

  lemma QuotientIs(q: int, r: int)
    requires 0 <= r < 365
    ensures (365 * q + r) / 365 == q
  {
  }

  /** Every day of an era lies in some year of it. */
  lemma DayHasYear(doe: int) returns (yoe: int, doy: int)
    requires 0 <= doe <= 146096
    ensures InYear(yoe, doy) && doe == Start(yoe) + doy
  {
    var c := if doe / 36524 < 3 then doe / 36524 else 3;
    var e := doe - 36524 * c;
    var q := if e / 1461 < 24 then e / 1461 else 24;
    var f := e - 1461 * q;
    var r := if f / 365 < 3 then f / 365 else 3;
    yoe, doy := 100 * c + 4 * q + r, f - 365 * r;
    Quarters(c, q, r);
  }

  lemma YearEnds(yoe: int)
    requires 0 <= yoe < 400
    ensures Start(yoe) + YearLength(yoe) == if yoe == 399 then 146097 else Start(yoe + 1)
  {
    var c, q, r := yoe / 100, yoe % 100 / 4, yoe % 4;
    assert yoe == 100 * c + 4 * q + r by {
      assert yoe % 100 % 4 == r;
    }
    Quarters(c, q, r);
    if r < 3 {
      Quarters(c, q, r + 1);
    } else if q < 24 {
      Quarters(c, q + 1, 0);
    } else if c < 3 {
      Quarters(c + 1, 0, 0);
    }
  }

  // ---------------------------------------------------------------- months counted from March

  function MonthIndex(month: int): int {
    if month > 2 then month - 3 else month + 9
  }

  lemma MonthLengths(mp: int)
    requires 0 <= mp < 11
    ensures MonthStart(mp + 1) - MonthStart(mp) == if mp == 1 || mp == 3 || mp == 6 || mp == 8 then 30 else 31
    ensures MonthStart(11) == 337 && MonthStart(0) == 0
  {
  }

  lemma MonthOfDay(mp: int, d: int)
    requires 0 <= mp <= 11 && 0 <= d
    requires mp < 11 ==> MonthStart(mp) + d < MonthStart(mp + 1)
    requires mp == 11 ==> d < 29
    ensures (5 * (MonthStart(mp) + d) + 2) / 153 == mp
  {
  }

  /** A year from March on has the leap day at its end; it belongs to the next civil year. */
  lemma LeapEnd(y: int, era: int, yoe: int)
    requires y == era * 400 + yoe && 0 <= yoe < 400
    ensures YearLength(yoe) == if IsLeap(y + 1) then 366 else 365
  {
    SameRemainder(4, 100 * era, yoe + 1);
    SameRemainder(100, 4 * era, yoe + 1);
    SameRemainder(400, era, yoe + 1);
  }

  lemma SameRemainder(n: int, k: int, x: int)
    requires n == 4 || n == 100 || n == 400
    ensures (n * k + x) % n == x % n
  {
  }

  /** A date as era, year of era and day of that year. */
  function MarchYear(d: Date): int {
    d.year - (if d.month <= 2 then 1 else 0)
  }

  function DayOfYear(d: Date): int {
    MonthStart(MonthIndex(d.month)) + d.day - 1
  }

  lemma DateInYear(d: Date)
    requires ValidDate(d)
    ensures InYear(MarchYear(d) % 400, DayOfYear(d))
    ensures (5 * DayOfYear(d) + 2) / 153 == MonthIndex(d.month)
    ensures DaysFromCivil(d.year, d.month, d.day)
            == MarchYear(d) / 400 * 146097 + Start(MarchYear(d) % 400) + DayOfYear(d) - 719468
  {
    var y, mp := MarchYear(d), MonthIndex(d.month);
    EraIsFloor(y, 400);
    LeapEnd(y, y / 400, y % 400);
    if mp < 11 {
      MonthLengths(mp);
      MonthBelow(mp + 1);
    }
    MonthOfDay(mp, d.day - 1);
  }

  lemma MonthBelow(mp: int)
    requires 0 <= mp <= 11
    ensures 0 <= MonthStart(mp) <= 337
  {
  }

  // ---------------------------------------------------------------- the bijection

  lemma CivilForm(era: int, yoe: int, doy: int)
    requires InYear(yoe, doy)
    ensures CivilFromDays(era * 146097 + Start(yoe) + doy - 719468) == Decode(yoe + era * 400, doy)
  {
    hide IsLeap, YearLength, YearOfEra, Start, Decode;
    YearOfEraInverts(yoe, doy);
    var z := era * 146097 + Start(yoe) + doy;
    EraIsFloor(z, 146097);
    EraOfDay(era, Start(yoe) + doy);
  }

  lemma EraOfDay(era: int, doe: int)
    requires 0 <= doe <= 146096
    ensures (era * 146097 + doe) / 146097 == era
  {
  }

  lemma DecodeDate(d: Date)
    requires ValidDate(d)
    ensures Decode(MarchYear(d), DayOfYear(d)) == d
  {
    DateInYear(d);
    MonthBelow(MonthIndex(d.month));
  }

  /** civil_from_days undoes days_from_civil on every valid date. */
  lemma CivilOfDays(d: Date)
    requires ValidDate(d)
    ensures CivilFromDays(DaysFromCivil(d.year, d.month, d.day)) == d
  {
    hide CivilFromDays, DaysFromCivil, Decode;
    DateInYear(d);
    DecodeDate(d);
    CivilForm(MarchYear(d) / 400, MarchYear(d) % 400, DayOfYear(d));
  }

  /** Every day number is the number of the date it converts to, and that date is valid. */
  lemma DaysOfCivil(days: int)
    ensures ValidDate(CivilFromDays(days))
    ensures var d := CivilFromDays(days); DaysFromCivil(d.year, d.month, d.day) == days
  {
    hide CivilFromDays, DaysFromCivil, Decode;
    var z := days + 719468;
    var era, doe := z / 146097, z % 146097;
    var yoe, doy := DayHasYear(doe);
    var d := DateAt(era, yoe, doy);
    DateInYear(d);
    CivilOfDays(d);
    assert MarchYear(d) / 400 == era && MarchYear(d) % 400 == yoe;
  }

  /** The date of a day given by era, year of era and day of year. */
  lemma DateAt(era: int, yoe: int, doy: int) returns (d: Date)
    requires InYear(yoe, doy)
    ensures ValidDate(d) && MarchYear(d) == era * 400 + yoe && DayOfYear(d) == doy
  {
    LeapEnd(era * 400 + yoe, era, yoe);
    var mp := 0;
    while mp < 11 && MonthStart(mp + 1) <= doy
      invariant 0 <= mp <= 11 && MonthStart(mp) <= doy
    {
      mp := mp + 1;
    }
    if mp < 11 {
      MonthLengths(mp);
    }
    var month := if mp < 10 then mp + 3 else mp - 9;
    d := Date(era * 400 + yoe + (if month <= 2 then 1 else 0), month, doy - MonthStart(mp) + 1);
  }

  /** Where the day after a date falls: the same year from March, or the first day of the next one. */
  lemma NextInYear(d: Date)
    requires ValidDate(d)
    ensures ValidDate(NextDate(d))
    ensures DayOfYear(d) + 1 < YearLength(MarchYear(d) % 400) ==>
              MarchYear(NextDate(d)) == MarchYear(d) && DayOfYear(NextDate(d)) == DayOfYear(d) + 1
    ensures DayOfYear(d) + 1 >= YearLength(MarchYear(d) % 400) ==>
              MarchYear(NextDate(d)) == MarchYear(d) + 1 && DayOfYear(NextDate(d)) == 0
              && DayOfYear(d) + 1 == YearLength(MarchYear(d) % 400)
  {
    var y, mp := MarchYear(d), MonthIndex(d.month);
    LeapEnd(y, y / 400, y % 400);
    MonthLengths(if mp < 11 then mp else 0);
    MonthBelow(mp);
  }

  /** The day after a valid date is valid and has the next number. */
  lemma NextDay(d: Date)
    requires ValidDate(d)
    ensures ValidDate(NextDate(d))
    ensures var n := NextDate(d);
            DaysFromCivil(n.year, n.month, n.day) == DaysFromCivil(d.year, d.month, d.day) + 1
  {
    hide DaysFromCivil, NextDate, MarchYear, DayOfYear, YearLength, Start, ValidDate;
    var n := NextDate(d);
    NextInYear(d);
    DateInYear(d);
    DateInYear(n);
    YearEnds(MarchYear(d) % 400);
    NextYear(MarchYear(d));
    assert Start(0) == 0 by { StartOfEra(); }
  }

  lemma StartOfEra()
    ensures Start(0) == 0
  {
  }

  lemma NextYear(y: int)
    ensures y % 400 < 399 ==> (y + 1) / 400 == y / 400 && (y + 1) % 400 == y % 400 + 1
    ensures y % 400 == 399 ==> (y + 1) / 400 == y / 400 + 1 && (y + 1) % 400 == 0
  {
  }

  lemma EpochNumber()
    ensures DaysFromCivil(1970, 1, 1) == 0
  {
  }

  lemma EpochDay()
    ensures CivilFromDays(0) == Date(1970, 1, 1)
  {
    hide CivilFromDays, DaysFromCivil;
    EpochNumber();
    CivilOfDays(Date(1970, 1, 1));
  }

  /** Consecutive day numbers are consecutive dates, and day 0 is 1 January 1970. */
  lemma DaysStepThroughCalendar(days: int)
    ensures CivilFromDays(days + 1) == NextDate(CivilFromDays(days))
    ensures CivilFromDays(0) == Date(1970, 1, 1)
  {
    hide CivilFromDays, DaysFromCivil, NextDate, ValidDate;
    DaysOfCivil(days);
    var d := CivilFromDays(days);
    NextDay(d);
    CivilOfDays(NextDate(d));
    EpochDay();
  }

  // ---------------------------------------------------------------- machine ranges

  /** Every intermediate of days_from_civil stays in the range its comment gives. */
  lemma DaysFromCivilRanges(d: Date)
    requires ValidDate(d)
    ensures var y := MarchYear(d);
            var era := TruncDiv(if y >= 0 then y else y - 399, 400);
            && 0 <= y - era * 400 <= 399
            && 0 <= DayOfYear(d) <= 365
            && 0 <= Start(y - era * 400) + DayOfYear(d) <= 146096
  {
    DateInYear(d);
    EraIsFloor(MarchYear(d), 400);
    YearOfEraInverts(MarchYear(d) % 400, DayOfYear(d));
  }

  /** Every intermediate of civil_from_days stays in the range its comment gives. */
  lemma CivilFromDaysRanges(days: int)
    ensures var z := days + 719468;
            var era := TruncDiv(if z >= 0 then z else z - 146096, 146097);
            var doe := z - era * 146097;
            && 0 <= doe <= 146096
            && 0 <= YearOfEra(doe) <= 399
            && 0 <= doe - Start(YearOfEra(doe)) <= 365
            && 0 <= (5 * (doe - Start(YearOfEra(doe))) + 2) / 153 <= 11
  {
    var z := days + 719468;
    EraIsFloor(z, 146097);
    var yoe, doy := DayHasYear(z % 146097);
    YearOfEraInverts(yoe, doy);
  }

  /** The year of any day number that an int64 count of milliseconds yields fits a C int. */
  lemma YearFitsInt(days: int)
    requires -106751991168 <= days <= 106751991167
    ensures -0x8000_0000 <= CivilFromDays(days).year < 0x8000_0000
  {
    hide CivilFromDays, DaysFromCivil;
    var d := CivilFromDays(days);
    DaysOfCivil(days);
    DateInYear(d);
    DaysFromCivilRanges(d);
  }

  // ---------------------------------------------------------------- epoch milliseconds

  /** A naive datetime, to the microsecond. */
  datatype DateTime = DateTime(date: Date, hour: int, minute: int, second: int, microsecond: int)

  /** A datetime Python can hold. */
  predicate ValidDateTime(t: DateTime) {
    && ValidDate(t.date) && 1 <= t.date.year <= 9999
    && 0 <= t.hour < 24 && 0 <= t.minute < 60 && 0 <= t.second < 60
    && 0 <= t.microsecond < 1000000
  }

  const MS_PER_DAY := 86400000

  /** datetime_to_epoch_ms on a naive datetime; the fields are nonnegative, so C's division is exact here. */
  function ToEpochMs(t: DateTime): int {
    DaysFromCivil(t.date.year, t.date.month, t.date.day) * MS_PER_DAY
    + t.hour * 3600000 + t.minute * 60000 + t.second * 1000 + t.microsecond / 1000
  }

  datatype Decoded = InRange(value: DateTime) | OutOfRange

  /** datetime_from_epoch_ms; `rem` is not negative, so C's `/` and `%` are Dafny's. */
  function FromEpochMs(ms: int): Decoded {
    var days := FloorDiv(ms, MS_PER_DAY);
    var rem := ms - days * MS_PER_DAY;
    var date := CivilFromDays(days);
    if date.year < 1 || date.year > 9999 then OutOfRange
    else InRange(DateTime(date, rem / 3600000, rem % 3600000 / 60000, rem % 3600000 % 60000 / 1000,
                     rem % 3600000 % 60000 % 1000 * 1000))
  }

  /** What BSON keeps of a datetime: whole milliseconds. */
  function ToMillis(t: DateTime): DateTime {
    t.(microsecond := t.microsecond / 1000 * 1000)
  }

  /** The quotient is the floor for either sign of the divisor: the remainder takes the divisor's sign. */
  lemma FloorDivIsFloor(a: int, b: int)
    requires b != 0
    ensures b > 0 ==> FloorDiv(a, b) * b <= a < FloorDiv(a, b) * b + b
    ensures b < 0 ==> FloorDiv(a, b) * b + b < a <= FloorDiv(a, b) * b
  {
    hide FloorDiv;
    if b > 0 {
      PositiveFloor(a, b);
    } else {
      PositiveFloor(-a, -b);
      BothSigns(a, b);
      Negated(FloorDiv(a, b), b);
    }
  }

  lemma PositiveFloor(a: int, b: int)
    requires b > 0
    ensures FloorDiv(a, b) * b <= a < FloorDiv(a, b) * b + b
  {
    if a >= 0 {
      assert a == a / b * b + a % b;
    } else {
      assert -a == (-a) / b * b + (-a) % b;
      assert -((-a) / b) * b == -((-a) / b * b);
    }
  }

  lemma BothSigns(a: int, b: int)
    requires b < 0
    ensures FloorDiv(a, b) == FloorDiv(-a, -b)
  {
    var q := TruncDiv(-a, -b);
    assert TruncDiv(a, b) == q;
    Negated(q, b);
  }

  lemma Negated(q: int, b: int)
    ensures q * -b == -(q * b)
  {
  }

  lemma SplitDay(days: int, rem: int)
    requires 0 <= rem < MS_PER_DAY
    ensures FloorDiv(days * MS_PER_DAY + rem, MS_PER_DAY) == days
  {
    FloorDivIsFloor(days * MS_PER_DAY + rem, MS_PER_DAY);
  }

  lemma Clock(h: int, m: int, s: int, ms: int)
    requires 0 <= h < 24 && 0 <= m < 60 && 0 <= s < 60 && 0 <= ms < 1000
    ensures var rem := h * 3600000 + m * 60000 + s * 1000 + ms;
            && 0 <= rem < MS_PER_DAY
            && rem / 3600000 == h && rem % 3600000 == m * 60000 + s * 1000 + ms
            && rem % 3600000 / 60000 == m && rem % 3600000 % 60000 == s * 1000 + ms
            && rem % 3600000 % 60000 / 1000 == s && rem % 3600000 % 60000 % 1000 == ms
  {
    var low := m * 60000 + s * 1000 + ms;
    assert (h * 3600000 + low) / 3600000 == h;
    assert (m * 60000 + (s * 1000 + ms)) / 60000 == m;
  }

  /** Decoding an encoded datetime gives it back, cut to whole milliseconds. */
  lemma DateTimeRoundTrip(t: DateTime)
    requires ValidDateTime(t)
    ensures FromEpochMs(ToEpochMs(t)) == InRange(ToMillis(t))
  {
    hide CivilFromDays, DaysFromCivil, FloorDiv;
    var days := DaysFromCivil(t.date.year, t.date.month, t.date.day);
    CivilOfDays(t.date);
    Clock(t.hour, t.minute, t.second, t.microsecond / 1000);
    SplitDay(days, t.hour * 3600000 + t.minute * 60000 + t.second * 1000 + t.microsecond / 1000);
  }

  /** Decoding succeeds exactly from 1 January of year 1 to the end of year 9999, and encoding undoes it. */
  lemma EpochMsRoundTrip(ms: int)
    ensures FromEpochMs(ms).InRange? <==> -62135596800000 <= ms <= 253402300799999
    ensures FromEpochMs(ms).InRange? ==> ToEpochMs(FromEpochMs(ms).value) == ms
    ensures FromEpochMs(ms).InRange? ==> ValidDateTime(FromEpochMs(ms).value)
  {
    hide CivilFromDays, DaysFromCivil, FloorDiv;
    FloorDivIsFloor(ms, MS_PER_DAY);
    var days := FloorDiv(ms, MS_PER_DAY);
    var rem := ms - days * MS_PER_DAY;
    DaysOfCivil(days);
    YearBounds(CivilFromDays(days));
    ClockOf(rem);
  }

  lemma ClockOf(rem: int)
    requires 0 <= rem < MS_PER_DAY
    ensures rem / 3600000 * 3600000 + rem % 3600000 / 60000 * 60000 + rem % 3600000 % 60000 / 1000 * 1000
            + rem % 3600000 % 60000 % 1000 == rem
    ensures 0 <= rem / 3600000 < 24 && 0 <= rem % 3600000 / 60000 < 60 && 0 <= rem % 3600000 % 60000 / 1000 < 60
    ensures 0 <= rem % 3600000 % 60000 % 1000 < 1000
  {
  }

  /** The day numbers of years 1 to 9999. */
  lemma YearBounds(d: Date)
    requires ValidDate(d)
    ensures 1 <= d.year <= 9999 <==> -719162 <= DaysFromCivil(d.year, d.month, d.day) <= 2932896
  {
    hide DaysFromCivil;
    DateInYear(d);
    DaysFromCivilRanges(d);
    EraIsFloor(MarchYear(d), 400);
    var era, yoe := MarchYear(d) / 400, MarchYear(d) % 400;
    MonthBelow(MonthIndex(d.month));
    if era == 24 {
      StartOrder(yoe, 398);
      StartOrder(399, yoe);
    }
    if era == 0 {
      StartOrder(1, yoe);
    }
  }

  lemma StartOrder(a: int, b: int)
    requires 0 <= a < 400 && 0 <= b < 400
    ensures a <= b ==> Start(a) <= Start(b)
  {
  }
}
