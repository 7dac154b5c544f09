/** Millisecond Unix timestamps to `MM/DD/YYYY` dates, as pandas does with
    `to_datetime(..., unit='ms')` followed by `strftime('%m/%d/%Y')`: the
    instant is read as UTC, must fit pandas's 64-bit nanosecond timestamp,
    and is rendered as the calendar day that contains it. */
module Timestamps {
  import opened Wrappers
  import opened Calendar
  import opened DateFormat

  const MillisPerDay := 86400000
  const NanosPerMilli := 1000000

  /** The range of a pandas timestamp in nanoseconds: a signed 64-bit
      integer whose smallest value is reserved for the missing time NaT. */
  const MinNanos := -0x7fff_ffff_ffff_ffff
  const MaxNanos := 0x7fff_ffff_ffff_ffff

  /** The first and last days that such timestamps reach (1677-09-21 and 2262-04-11). */
  const MinDay := -106752
  const MaxDay := 106751

  /** The int64 minimum, which numpy reserves for NaT: a millisecond count
      equal to it, integer or float, is read as a missing time. */
  const NaTMillis := -0x8000_0000_0000_0000

  /** An integer millisecond count whose instant fits a pandas timestamp, so
      that it converts to a date (NaTMillis is read as NaT instead, and every
      other count outside this range is an out-of-bounds error). */
  predicate MillisInRange(ms: int) {
    MinNanos <= ms * NanosPerMilli <= MaxNanos
  }

  /** The same bound for a floating-point millisecond count (a column that
      holds a missing value is read as floats). */
  predicate RealMillisInRange(x: real) {
    MinNanos as real <= x * NanosPerMilli as real <= MaxNanos as real
  }

  /** The day number of the UTC day containing an instant: floor division,
      so an instant before the epoch falls on an earlier day. */
  function DayOfMillis(ms: int): (z: int)
    ensures z * MillisPerDay <= ms < (z + 1) * MillisPerDay
  {
    ms / MillisPerDay
  }

  function DayOfRealMillis(x: real): (z: int)
    ensures z as real * MillisPerDay as real <= x < (z + 1) as real * MillisPerDay as real
  {
    (x / MillisPerDay as real).Floor
  }

  lemma DaysOfInRangeMillis(ms: int)
    requires MillisInRange(ms)
    ensures MinDay <= DayOfMillis(ms) <= MaxDay
  {
  }

  lemma DaysOfInRangeRealMillis(x: real)
    requires RealMillisInRange(x)
    ensures MinDay <= DayOfRealMillis(x) <= MaxDay
  {
  }

  /** Every day a timestamp can reach lies in a four-digit year, 1677 to 2262,
      so `%Y` needs no padding decision. */
  lemma TimestampYears(z: int)
    requires MinDay <= z <= MaxDay
    ensures 1677 <= CivilFromDays(z).year <= 2262
  {
    assert DaysBeforeYear(1677) == 612147;
    assert DaysBeforeYear(2263) == 826178;
    YearWithin(z, 1677, 2262);
  }

  /** The `MM/DD/YYYY` text of day z; it parses back to the date of that day. */
  function FormatDay(z: int): (s: string)
    requires MinDay <= z <= MaxDay
    ensures ParseDate(s) == Some(CivilFromDays(z))
  {
    TimestampYears(z);
    ParseFormatDate(CivilFromDays(z));
    FormatDate(CivilFromDays(z))
  }

  /** The date text of an in-range integer millisecond timestamp: it names a
      valid date of the calendar, and the instant lies within that date. */
  function FormatMillis(ms: int): (s: string)
    requires MillisInRange(ms)
    ensures ParseDate(s).Some? && ValidDate(ParseDate(s).value)
    ensures DaysFromCivil(ParseDate(s).value) * MillisPerDay <= ms
    ensures ms < (DaysFromCivil(ParseDate(s).value) + 1) * MillisPerDay
  {
    DaysOfInRangeMillis(ms);
    FormatDay(DayOfMillis(ms))
  }

  /** The same for a floating-point millisecond count. */
  function FormatRealMillis(x: real): (s: string)
    requires RealMillisInRange(x)
    ensures ParseDate(s).Some? && ValidDate(ParseDate(s).value)
    ensures DaysFromCivil(ParseDate(s).value) as real * MillisPerDay as real <= x
    ensures x < (DaysFromCivil(ParseDate(s).value) + 1) as real * MillisPerDay as real
  {
    DaysOfInRangeRealMillis(x);
    FormatDay(DayOfRealMillis(x))
  }

  /** Only one date text can describe a given instant. */
  lemma FormatMillisUnique(ms: int, d: Date)
    requires MillisInRange(ms) && ValidDate(d)
    requires DaysFromCivil(d) * MillisPerDay <= ms < (DaysFromCivil(d) + 1) * MillisPerDay
    ensures FormatMillis(ms) == FormatDate(d)
  {
    assert DaysFromCivil(d) == DayOfMillis(ms);
    DaysFromCivilRoundTrip(d);
  }

  // Spot checks. Each names the day number of the expected date and lets
  // FormatMillisUnique connect the instant to that date's rendering.

  lemma EpochIsFirstOfJanuary1970()
    ensures FormatMillis(0) == "01/01/1970"
  {
    var d := Date(1970, 1, 1);
    assert DaysFromCivil(d) == 0;
    FormatMillisUnique(0, d);
    FirstOfJanuary1970Text();
  }

  lemma OneTrillionMillisIsNinthOfSeptember2001()
    ensures FormatMillis(1000000000000) == "09/09/2001"
  {
    var d := Date(2001, 9, 9);
    assert DaysFromCivil(d) == 11574;
    FormatMillisUnique(1000000000000, d);
    NinthOfSeptember2001Text();
  }

  lemma NewYear2021()
    ensures FormatMillis(1609459200000) == "01/01/2021"
  {
    var d := Date(2021, 1, 1);
    assert DaysFromCivil(d) == 18628;
    FormatMillisUnique(1609459200000, d);
    FirstOfJanuary2021Text();
  }

  lemma LastMillisecondBeforeEpoch()
    ensures FormatMillis(-1) == "12/31/1969"
  {
    var d := Date(1969, 12, 31);
    assert DaysFromCivil(d) == -1;
    FormatMillisUnique(-1, d);
    LastOfDecember1969Text();
  }

  // The renderings of the dates above.

  lemma FirstOfJanuary1970Text() ensures FormatDate(Date(1970, 1, 1)) == "01/01/1970" { }
  lemma NinthOfSeptember2001Text() ensures FormatDate(Date(2001, 9, 9)) == "09/09/2001" { }
  lemma FirstOfJanuary2021Text() ensures FormatDate(Date(2021, 1, 1)) == "01/01/2021" { }
  lemma LastOfDecember1969Text() ensures FormatDate(Date(1969, 12, 31)) == "12/31/1969" { }
}
