/** Proleptic Gregorian arithmetic (section 21.4.1 of ECMA-262; jsrt_date.c). Times are whole
    milliseconds; `/` and `%` by a positive number floor, as `floor_div` and `floor_mod` do. */
module DateCalendar {
  /** A date as a reader writes it: month and day count from 1. */
  datatype Civil = Civil(year: int, month: int, day: int)

  // ---------------------------------------------------------------- the calendar itself

  predicate Leap(y: int) { y % 4 == 0 && (y % 100 != 0 || y % 400 == 0) }

  function DaysInMonth(y: int, m: int): (n: int)
    ensures 28 <= n <= 31
  {
    if m == 2 then (if Leap(y) then 29 else 28)
    else if m == 4 || m == 6 || m == 9 || m == 11 then 30
    else 31
  }

  predicate ValidDate(c: Civil) { 1 <= c.month <= 12 && 1 <= c.day <= DaysInMonth(c.year, c.month) }

  function NextDay(c: Civil): Civil {
    if c.day < DaysInMonth(c.year, c.month) then c.(day := c.day + 1)
    else if c.month < 12 then Civil(c.year, c.month + 1, 1)
    else Civil(c.year + 1, 1, 1)
  }

  // ---------------------------------------------------------------- the code's closed forms

  /** `days_from_civil`, on years that begin in March. */
  function DaysFromCivil(c: Civil): int {
    var y := if c.month <= 2 then c.year - 1 else c.year;
    var era := y / 400;
    var yoe := y - era * 400;
    var doy := (153 * (c.month + (if c.month > 2 then -3 else 9)) + 2) / 5 + c.day - 1;
    var doe := yoe * 365 + yoe / 4 - yoe / 100 + doy;
    era * 146097 + doe - 719468
  }

  function YearOfEra(doe: int): int { (doe - doe / 1460 + doe / 36524 - doe / 146096) / 365 }

  /** `civil_from_days`. */
  function CivilFromDays(days: int): Civil {
    var z := days + 719468;
    var era := z / 146097;
    var doe := z - era * 146097;
    var yoe := YearOfEra(doe);
    var y := yoe + era * 400;
    var doy := doe - (365 * yoe + yoe / 4 - yoe / 100);
    var mp := (5 * doy + 2) / 153;
    var d := doy - (153 * mp + 2) / 5 + 1;
    var m := mp + (if mp < 10 then 3 else -9);
    Civil(y + (if m <= 2 then 1 else 0), m, d)
  }

  /** Days before March of the `y`-th year of an era. */
  function EraDays(y: int): int { y * 365 + y / 4 - y / 100 }

  /** A day of an era by its century, four-year cycle, year and day of the year. A cycle's last year is
      a day longer, unless it ends a century that is not the era's last. */
  predicate EraParts(doe: int, c: int, q: int, r: int, e: int) {
    && 0 <= c <= 3 && 0 <= q <= 24 && 0 <= r <= 3 && 0 <= e <= 365
    && doe == 36524 * c + 1461 * q + 365 * r + e
    && (e == 365 ==> r == 3 && (q < 24 || c == 3))
  }

  lemma HasParts(doe: int) returns (c: int, q: int, r: int, e: int)
    requires 0 <= doe < 146097
    ensures EraParts(doe, c, q, r, e)
  {
    c := if doe == 146096 then 3 else doe / 36524;
    var inCentury := doe - 36524 * c;
    q := inCentury / 1461;
    var inCycle := inCentury - 1461 * q;
    r := if inCycle == 1460 then 3 else inCycle / 365;
    e := inCycle - 365 * r;
  }

  lemma PartsYear(doe: int, c: int, q: int, r: int, e: int)
    requires EraParts(doe, c, q, r, e)
    ensures YearOfEra(doe) == 100 * c + 4 * q + r
  {
    var extra := if 24 * c + q + 365 * r + e >= 1460 then 1 else 0;
    assert doe / 1460 == 25 * c + q + extra;
    assert doe / 36524 - doe / 146096 == c;
    assert doe - doe / 1460 + c == 365 * (100 * c + 4 * q + r) + e - extra;
  }

  lemma PartsDays(c: int, q: int, r: int)
    requires 0 <= c <= 3 && 0 <= q <= 24 && 0 <= r <= 3
    ensures EraDays(100 * c + 4 * q + r) == 36524 * c + 1461 * q + 365 * r
  {
  }

  lemma NextYearDays(c: int, q: int, r: int)
    requires 0 <= c <= 3 && 0 <= q <= 24 && 0 <= r <= 3
    ensures EraDays(100 * c + 4 * q + r + 1) - EraDays(100 * c + 4 * q + r) ==
      if r == 3 && (q < 24 || c == 3) && !(q == 24 && c == 3) then 366 else 365
  {
    PartsDays(c, q, r);
    if r < 3 {
      PartsDays(c, q, r + 1);
    } else if q < 24 {
      PartsDays(c, q + 1, 0);
    } else if c < 3 {
      PartsDays(c + 1, 0, 0);
    }
  }

  /** The year of an era a day falls in, the last day of the era being in its last year. */
  lemma YearOfEraIs(doe: int)
    requires 0 <= doe < 146097
    ensures 0 <= YearOfEra(doe) < 400
    ensures EraDays(YearOfEra(doe)) <= doe
    ensures doe < EraDays(YearOfEra(doe) + 1) || (YearOfEra(doe) == 399 && doe == 146096)
  {
    var c, q, r, e := HasParts(doe);
    PartsYear(doe, c, q, r, e);
    PartsDays(c, q, r);
    NextYearDays(c, q, r);
  }

  lemma YearOfEraUnique(doe: int, y: int)
    requires 0 <= y < 400 && EraDays(y) <= doe
    requires doe < EraDays(y + 1) || (y == 399 && doe == 146096)
    ensures 0 <= doe < 146097 && YearOfEra(doe) == y
  {
    var c := y / 100;
    var q := (y - 100 * c) / 4;
    var r := y - 100 * c - 4 * q;
    PartsDays(c, q, r);
    NextYearDays(c, q, r);
    PartsYear(doe, c, q, r, doe - EraDays(y));
  }

  // ---------------------------------------------------------------- months

  /** Days before month `mp` of a year that begins in March. */
  function MonthStart(mp: int): int { (153 * mp + 2) / 5 }

  lemma MonthLengths(mp: int)
    requires 0 <= mp < 12
    ensures mp < 11 ==>
      MonthStart(mp + 1) - MonthStart(mp) == (if mp == 1 || mp == 3 || mp == 6 || mp == 8 then 30 else 31)
    ensures mp == 11 ==> MonthStart(mp) == 337
  {
  }

  /** The month of a day of such a year. */
  lemma MonthOf(doy: int, mp: int)
    requires 0 <= mp < 12 && MonthStart(mp) <= doy && (if mp < 11 then doy < MonthStart(mp + 1) else doy < 366)
    ensures (5 * doy + 2) / 153 == mp
  {
  }

  lemma MonthFound(doy: int)
    requires 0 <= doy < 366
    ensures var mp := (5 * doy + 2) / 153;
      0 <= mp < 12 && MonthStart(mp) <= doy && (mp < 11 ==> doy < MonthStart(mp + 1))
  {
  }

  /** The era, the year of the era and the day of the year that begins in March. */
  function MarchYear(c: Civil): int { if c.month <= 2 then c.year - 1 else c.year }

  function MarchMonth(c: Civil): int { c.month + (if c.month > 2 then -3 else 9) }

  function YearLength(yoe: int): int { EraDays(yoe + 1) - EraDays(yoe) + (if yoe == 399 then 1 else 0) }

  /** Leap years repeat every 400 years. */
  lemma LeapShift(era: int, x: int)
    ensures Leap(era * 400 + x) == Leap(x)
  {
    var y := era * 400 + x;
    assert y / 4 == era * 100 + x / 4;
    assert y / 100 == era * 4 + x / 100;
    assert y / 400 == era + x / 400;
  }

  /** A March year is as long as the February that ends it makes it. */
  lemma YearLengthIs(era: int, yoe: int)
    requires 0 <= yoe < 400
    ensures YearLength(yoe) == (if Leap(era * 400 + yoe + 1) then 366 else 365)
  {
    var c := yoe / 100;
    var q := (yoe - 100 * c) / 4;
    var r := yoe - 100 * c - 4 * q;
    NextYearDays(c, q, r);
    LeapShift(era, yoe + 1);
    assert era * 400 + (yoe + 1) == era * 400 + yoe + 1;
    if r < 3 {
      assert (yoe + 1) % 4 == r + 1;
    } else if q < 24 {
      assert (yoe + 1) % 4 == 0 && (yoe + 1) % 100 == 4 * (q + 1);
    } else {
      assert yoe + 1 == 100 * (c + 1);
    }
  }

  /** The era, the year of the era and the day of that year, which make up a day number. */
  predicate March(c: Civil, era: int, yoe: int, doy: int) {
    && 0 <= yoe < 400 && MarchYear(c) == yoe + era * 400
    && doy == MonthStart(MarchMonth(c)) + c.day - 1
  }

  lemma MarchParts(c: Civil) returns (era: int, yoe: int, doy: int)
    ensures March(c, era, yoe, doy) && MarchYear(c) / 400 == era
  {
    era := MarchYear(c) / 400;
    yoe := MarchYear(c) - era * 400;
    doy := MonthStart(MarchMonth(c)) + c.day - 1;
  }

  lemma MarchDays(c: Civil, era: int, yoe: int, doy: int)
    requires March(c, era, yoe, doy)
    ensures DaysFromCivil(c) == era * 146097 + EraDays(yoe) + doy - 719468
  {
    assert MarchYear(c) / 400 == era;
  }

  lemma MarchCivil(days: int, era: int, yoe: int, doy: int)
    requires days == era * 146097 + EraDays(yoe) + doy - 719468
    requires 0 <= EraDays(yoe) + doy < 146097 && YearOfEra(EraDays(yoe) + doy) == yoe
    ensures var mp := (5 * doy + 2) / 153; var m := mp + (if mp < 10 then 3 else -9);
      CivilFromDays(days) == Civil(yoe + era * 400 + (if m <= 2 then 1 else 0), m, doy - MonthStart(mp) + 1)
  {
    assert (days + 719468) / 146097 == era;
  }

  lemma DayOfYear(c: Civil, era: int, yoe: int, doy: int)
    requires ValidDate(c) && March(c, era, yoe, doy)
    ensures 0 <= doy < YearLength(yoe) && (5 * doy + 2) / 153 == MarchMonth(c)
  {
    YearLengthIs(era, yoe);
    MonthLengths(MarchMonth(c));
    MonthOf(doy, MarchMonth(c));
  }

  lemma DayInEra(yoe: int, doy: int)
    requires 0 <= yoe < 400 && 0 <= doy < YearLength(yoe)
    ensures 0 <= EraDays(yoe) + doy < 146097 && YearOfEra(EraDays(yoe) + doy) == yoe
  {
    YearOfEraUnique(EraDays(yoe) + doy, yoe);
  }

  /** From a date to its day number and back. */
  lemma CivilRoundTrip(c: Civil)
    requires ValidDate(c)
    ensures CivilFromDays(DaysFromCivil(c)) == c
  {
    var era, yoe, doy := MarchParts(c);
    DayOfYear(c, era, yoe, doy);
    DayInEra(yoe, doy);
    MarchDays(c, era, yoe, doy);
    MarchCivil(DaysFromCivil(c), era, yoe, doy);
  }

  /** From a day number to a date of the calendar and back. */
  lemma DaysRoundTrip(days: int)
    ensures ValidDate(CivilFromDays(days)) && DaysFromCivil(CivilFromDays(days)) == days
  {
    var z := days + 719468;
    var era := z / 146097;
    var doe := z - era * 146097;
    YearOfEraIs(doe);
    var yoe := YearOfEra(doe);
    var doy := doe - EraDays(yoe);
    hide YearOfEra, MonthStart, DaysFromCivil, CivilFromDays;
    MarchCivil(days, era, yoe, doy);
    DayOfEraDate(era, yoe, doy, CivilFromDays(days));
  }

  /** The date of a day of a March year is in the calendar, and is that day. */
  lemma DayOfEraDate(era: int, yoe: int, doy: int, c: Civil)
    requires 0 <= yoe < 400 && 0 <= doy < YearLength(yoe)
    requires var mp := (5 * doy + 2) / 153; var m := mp + (if mp < 10 then 3 else -9);
      c == Civil(yoe + era * 400 + (if m <= 2 then 1 else 0), m, doy - MonthStart(mp) + 1)
    ensures ValidDate(c) && DaysFromCivil(c) == era * 146097 + EraDays(yoe) + doy - 719468
  {
    YearLengthIs(era, yoe);
    MonthFound(doy);
    MonthLengths((5 * doy + 2) / 153);
    MarchDays(c, era, yoe, doy);
  }

  lemma NextDayOfYear(c: Civil)
    requires ValidDate(c)
    ensures var n := NextDay(c);
      && ValidDate(n)
      && (MarchYear(n) == MarchYear(c) ==> MonthStart(MarchMonth(n)) + n.day == MonthStart(MarchMonth(c)) + c.day + 1)
      && (MarchYear(n) != MarchYear(c) ==>
            && MarchYear(n) == MarchYear(c) + 1 && MonthStart(MarchMonth(n)) + n.day == 1
            && MonthStart(MarchMonth(c)) + c.day == (if Leap(MarchYear(n)) then 366 else 365))
  {
    MonthLengths(MarchMonth(c));
  }

  /** The day numbers count the calendar: the next day of every date is one more, and 1970-01-01 is 0. */
  lemma CountsDays(c: Civil)
    requires ValidDate(c)
    ensures ValidDate(NextDay(c)) && DaysFromCivil(NextDay(c)) == DaysFromCivil(c) + 1
    ensures DaysFromCivil(Civil(1970, 1, 1)) == 0
  {
    hide DaysFromCivil, NextDay, MonthStart, Leap, ValidDate;
    var n := NextDay(c);
    NextDayOfYear(c);
    var era, yoe, doy := MarchParts(c);
    MarchDays(c, era, yoe, doy);
    if MarchYear(n) == MarchYear(c) {
      MarchDays(n, era, yoe, doy + 1);
    } else {
      YearLengthIs(era, yoe);
      if yoe == 399 {
        MarchDays(n, era + 1, 0, 0);
      } else {
        MarchDays(n, era, yoe + 1, 0);
      }
    }
    EpochIsZero();
  }

  lemma EpochIsZero()
    ensures DaysFromCivil(Civil(1970, 1, 1)) == 0
  {
  }
}
