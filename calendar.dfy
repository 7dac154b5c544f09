/** The proleptic Gregorian calendar on integer day numbers. Day 0 is
    1970-01-01 (the Unix epoch); negative days lie before it. Two mutually
    inverse conversions: DaysFromCivil (a date to its day number, the
    reference definition) and CivilFromDays (a day number to its date, by
    splitting the ordinal into 400-, 100-, 4- and 1-year cycles). */
module Calendar {

  datatype Date = Date(year: int, month: int, day: int)

  /** Days from 0001-01-01 to 1970-01-01. */
  const EpochOrdinal := 719162

  const DaysIn400Years := 146097
  const DaysIn100Years := 36524
  const DaysIn4Years := 1461

  predicate IsLeapYear(y: int) {
    y % 4 == 0 && (y % 100 != 0 || y % 400 == 0)
  }

  function DaysInYear(y: int): int {
    if IsLeapYear(y) then 366 else 365
  }

  function DaysInMonth(y: int, m: int): int
    requires 1 <= m <= 12
  {
    if m == 2 then (if IsLeapYear(y) then 29 else 28)
    else if m == 4 || m == 6 || m == 9 || m == 11 then 30
    else 31
  }

  predicate ValidDate(d: Date) {
    1 <= d.month <= 12 && 1 <= d.day <= DaysInMonth(d.year, d.month)
  }

  /** Days of a common year before the first of month m (m == 13: the whole year). */
  function CommonDaysBeforeMonth(m: int): int
    requires 1 <= m <= 13
  {
    if m == 1 then 0 else if m == 2 then 31 else if m == 3 then 59
    else if m == 4 then 90 else if m == 5 then 120 else if m == 6 then 151
    else if m == 7 then 181 else if m == 8 then 212 else if m == 9 then 243
    else if m == 10 then 273 else if m == 11 then 304 else if m == 12 then 334
    else 365
  }

  /** Days of year y before the first of month m; a leap year's extra day
      is 29 February. */
  function DaysBeforeMonth(y: int, m: int): int
    requires 1 <= m <= 13
  {
    CommonDaysBeforeMonth(m) + (if m > 2 && IsLeapYear(y) then 1 else 0)
  }

  /** Days from 0001-01-01 to the first of January of year y (negative
      before year 1). Division is floor division here, as in Dafny. */
  function DaysBeforeYear(y: int): int {
    var p := y - 1;
    365 * p + p / 4 - p / 100 + p / 400
  }

  /** The day number of a valid date: it lies within the date's year. */
  function DaysFromCivil(d: Date): (z: int)
    requires ValidDate(d)
    ensures DaysBeforeYear(d.year) <= z + EpochOrdinal < DaysBeforeYear(d.year + 1)
  {
    MonthsFillYear(d.year, d.month);
    YearLength(d.year);
    DaysBeforeYear(d.year) + DaysBeforeMonth(d.year, d.month) + d.day - 1 - EpochOrdinal
  }

  /** Month and day for day-of-year `rest` counted from the first of month m:
      a scan over the month lengths of year y. */
  function MonthAndDay(y: int, m: int, rest: int): (r: Date)
    requires 1 <= m <= 12 && 0 <= rest
    requires DaysBeforeMonth(y, m) + rest < DaysInYear(y)
    ensures r.year == y && ValidDate(r) && m <= r.month
    ensures DaysBeforeMonth(y, r.month) + r.day - 1 == DaysBeforeMonth(y, m) + rest
    decreases 12 - m
  {
    if rest < DaysInMonth(y, m) then Date(y, m, rest + 1)
    else
      MonthsFillYear(y, m);
      MonthAndDay(y, m + 1, rest - DaysInMonth(y, m))
  }

  /** Splits an ordinal (days since 0001-01-01) into a year and a day of
      that year, through 400-, 100-, 4- and 1-year cycles. */
  function YearAndDayOfOrdinal(n: int): (r: (int, int))
    ensures 0 <= r.1 < DaysInYear(r.0)
    ensures DaysBeforeYear(r.0) + r.1 == n
  {
    var q400, r400 := n / DaysIn400Years, n % DaysIn400Years;
    var (q100, r100) := CenturyOfCycle(r400);
    var (q4, r4) := OlympiadOfCentury(q100, r100);
    var (q1, doy) := YearOfOlympiad(q100, q4, r4);
    var y := 400 * q400 + 100 * q100 + 4 * q4 + q1 + 1;
    YearStartByCycles(y, q400, q100, q4, q1);
    if doy == 365 then
      LeapByCycles(y, q400, q100, q4);
      (y, doy)
    else (y, doy)
  }

  /** Century within a 400-year cycle; the cycle's last day closes its fourth century. */
  function CenturyOfCycle(r400: int): (r: (int, int))
    requires 0 <= r400 < DaysIn400Years
    ensures 0 <= r.0 <= 3 && 0 <= r.1 <= DaysIn100Years
    ensures r.1 == DaysIn100Years ==> r.0 == 3
    ensures r400 == DaysIn100Years * r.0 + r.1
  {
    var q100 := if r400 == DaysIn400Years - 1 then 3 else r400 / DaysIn100Years;
    (q100, r400 - DaysIn100Years * q100)
  }

  /** Four-year group within a century. The 25th group of the first three
      centuries is one day short: its last year is a century year. */
  function OlympiadOfCentury(q100: int, r100: int): (r: (int, int))
    requires 0 <= q100 <= 3 && 0 <= r100 <= DaysIn100Years
    requires r100 == DaysIn100Years ==> q100 == 3
    ensures 0 <= r.0 <= 24 && 0 <= r.1 < DaysIn4Years
    ensures r.1 == DaysIn4Years - 1 && r.0 == 24 ==> q100 == 3
    ensures r100 == DaysIn4Years * r.0 + r.1
  {
    (r100 / DaysIn4Years, r100 % DaysIn4Years)
  }

  /** Year within a four-year group; the group's last day closes its fourth year. */
  function YearOfOlympiad(q100: int, q4: int, r4: int): (r: (int, int))
    requires 0 <= r4 < DaysIn4Years
    ensures 0 <= r.0 <= 3 && 0 <= r.1 <= 365
    ensures r.1 == 365 ==> r.0 == 3 && r4 == DaysIn4Years - 1
    ensures r4 == 365 * r.0 + r.1
  {
    var q1 := if r4 == DaysIn4Years - 1 then 3 else r4 / 365;
    (q1, r4 - 365 * q1)
  }

  /** The date of day number z: a valid date whose day number is z. */
  function CivilFromDays(z: int): (d: Date)
    ensures ValidDate(d) && DaysFromCivil(d) == z
  {
    var (y, doy) := YearAndDayOfOrdinal(z + EpochOrdinal);
    MonthAndDay(y, 1, doy)
  }

  // ---------------------------------------------------------------------
  // Lemmas

  /** Month m ends where month m + 1 begins, and the months fill the year. */
  lemma MonthsFillYear(y: int, m: int)
    requires 1 <= m <= 12
    ensures DaysBeforeMonth(y, m + 1) == DaysBeforeMonth(y, m) + DaysInMonth(y, m)
    ensures DaysBeforeMonth(y, 13) == DaysInYear(y)
  {
  }

  /** Consecutive years are DaysInYear apart. */
  lemma YearLength(y: int)
    ensures DaysBeforeYear(y + 1) == DaysBeforeYear(y) + DaysInYear(y)
  {
    var p := y - 1;
    var a := NextQuotient(p, 4);
    var b := NextQuotient(p, 100);
    var c := NextQuotient(p, 400);
    assert a - b + c == DaysInYear(y) - 365;
  }

  /** How floor division by 4, 100 or 400 steps from p to p + 1: the
      quotient grows by one exactly when p + 1 is a multiple. */
  lemma NextQuotient(p: int, m: int) returns (step: int)
    requires m == 4 || m == 100 || m == 400
    ensures step == (p + 1) / m - p / m
    ensures step == (if (p + 1) % m == 0 then 1 else 0)
  {
    step := (p + 1) / m - p / m;
    if m == 4 {
      if p % 4 == 3 {
        assert p + 1 == 4 * (p / 4 + 1);
      } else {
        assert p + 1 == 4 * (p / 4) + (p % 4 + 1);
      }
    } else if m == 100 {
      if p % 100 == 99 {
        assert p + 1 == 100 * (p / 100 + 1);
      } else {
        assert p + 1 == 100 * (p / 100) + (p % 100 + 1);
      }
    } else {
      if p % 400 == 399 {
        assert p + 1 == 400 * (p / 400 + 1);
      } else {
        assert p + 1 == 400 * (p / 400) + (p % 400 + 1);
      }
    }
  }

  /** Year starts strictly increase. */
  lemma {:induction false} YearStartsIncrease(y1: int, y2: int)
    requires y1 < y2
    ensures DaysBeforeYear(y1 + 1) <= DaysBeforeYear(y2)
    decreases y2 - y1
  {
    if y1 + 1 < y2 {
      YearStartsIncrease(y1, y2 - 1);
      YearLength(y2 - 1);
    }
  }

  /** The start of a year written by its cycles: y - 1 = 400*q400 + 100*q100 + 4*q4 + q1. */
  lemma YearStartByCycles(y: int, q400: int, q100: int, q4: int, q1: int)
    requires 0 <= q100 <= 3 && 0 <= q4 <= 24 && 0 <= q1 <= 3
    requires y - 1 == 400 * q400 + 100 * q100 + 4 * q4 + q1
    ensures DaysBeforeYear(y) == DaysIn400Years * q400 + DaysIn100Years * q100 + DaysIn4Years * q4 + 365 * q1
  {
    var p := y - 1;
    assert p / 4 == 100 * q400 + 25 * q100 + q4;
    assert p / 100 == 4 * q400 + q100;
    assert p / 400 == q400;
  }

  /** The last year of a cycle split is a leap year exactly when the split says so. */
  lemma LeapByCycles(y: int, q400: int, q100: int, q4: int)
    requires 0 <= q100 <= 3 && 0 <= q4 <= 24
    requires y == 400 * q400 + 100 * q100 + 4 * q4 + 4
    ensures IsLeapYear(y) <==> (q4 != 24 || q100 == 3)
  {
    var c := 4 * q400 + q100;
    assert y == 4 * (25 * c + q4 + 1);
    assert y == 100 * c + 4 * (q4 + 1) && 4 <= 4 * (q4 + 1) <= 100;
    if q4 == 24 {
      assert y == 400 * q400 + 100 * (q100 + 1) && 100 <= 100 * (q100 + 1) <= 400;
    } else {
      assert y % 100 == 4 * (q4 + 1);
    }
  }

  /** A valid date is determined by its day number. */
  lemma DaysFromCivilInjective(a: Date, b: Date)
    requires ValidDate(a) && ValidDate(b)
    requires DaysFromCivil(a) == DaysFromCivil(b)
    ensures a == b
  {
    if a.year < b.year {
      YearStartsIncrease(a.year, b.year);
    } else if b.year < a.year {
      YearStartsIncrease(b.year, a.year);
    }
  }

  /** Converting a valid date to its day number and back gives the date again. */
  lemma DaysFromCivilRoundTrip(d: Date)
    requires ValidDate(d)
    ensures CivilFromDays(DaysFromCivil(d)) == d
  {
    var z := DaysFromCivil(d);
    DaysFromCivilInjective(CivilFromDays(z), d);
  }

  /** Bounds on the year of a day number, from the start of a year on each side. */
  lemma YearWithin(z: int, lo: int, hi: int)
    requires DaysBeforeYear(lo) <= z + EpochOrdinal < DaysBeforeYear(hi + 1)
    ensures lo <= CivilFromDays(z).year <= hi
  {
    var y := CivilFromDays(z).year;
    if y < lo {
      YearStartsIncrease(y, lo);
    }
    if hi < y {
      YearStartsIncrease(hi, y);
    }
  }
}
