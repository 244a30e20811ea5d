/**
 * Proleptic Gregorian calendar dates as Python's `datetime` represents them:
 * a year in 1..9999, a month and a day.  The scraper only ever builds dates at
 * midnight (`strptime` with a `%Y-%m-%d` format), so the time of day is left out.
 */
module Calendar {
  import opened Wrappers
  import opened Digits

  datatype Date = Date(year: int, month: int, day: int)

  const MinYear: int := 1
  const MaxYear: int := 9999

  /** The earliest and the latest date Python's `datetime` can hold. */
  const MinDate: Date := Date(MinYear, 1, 1)
  const MaxDate: Date := Date(MaxYear, 12, 31)

  predicate IsLeapYear(y: int) {
    y % 4 == 0 && (y % 100 != 0 || y % 400 == 0)
  }

  function DaysInMonth(y: int, m: int): int {
    if m == 2 then (if IsLeapYear(y) then 29 else 28)
    else if m == 4 || m == 6 || m == 9 || m == 11 then 30
    else 31
  }

  function DaysInYear(y: int): int {
    if IsLeapYear(y) then 366 else 365
  }

  /** A date Python's `datetime` accepts. */
  predicate Valid(d: Date) {
    MinYear <= d.year <= MaxYear && 1 <= d.month <= 12 && 1 <= d.day <= DaysInMonth(d.year, d.month)
  }

  /** Number of days in the years before year `y`, counted year by year. */
  function DaysBeforeYear(y: int): int
    requires y >= 1
    decreases y
  {
    if y == 1 then 0 else DaysBeforeYear(y - 1) + DaysInYear(y - 1)
  }

  /** Number of days in the months of year `y` before month `m`. */
  function DaysBeforeMonth(y: int, m: int): int
    requires 1 <= m <= 12
  {
    var cumulative := [0, 31, 59, 90, 120, 151, 181, 212, 243, 273, 304, 334];
    cumulative[m - 1] + (if m > 2 && IsLeapYear(y) then 1 else 0)
  }

  /** The day number of `d`, 0001-01-01 being day 1 (Python's `date.toordinal`). */
  function Ordinal(d: Date): int
    requires Valid(d)
  {
    DaysBeforeYear(d.year) + DaysBeforeMonth(d.year, d.month) + d.day
  }

  /** The day number of MaxDate (3652059). */
  const MaxOrdinal: int := Ordinal(MaxDate)

  /** Python's comparison of two `datetime` values at midnight: field by field. */
  predicate Le(a: Date, b: Date) {
    a.year < b.year || (a.year == b.year && (a.month < b.month || (a.month == b.month && a.day <= b.day)))
  }

  /** Python's date comparison is a total order: reflexive, antisymmetric, transitive and total. */
  lemma LeTotalOrder(a: Date, b: Date, c: Date)
    ensures Le(a, a)
    ensures Le(a, b) && Le(b, a) ==> a == b
    ensures Le(a, b) && Le(b, c) ==> Le(a, c)
    ensures Le(a, b) || Le(b, a)
  {
  }

  lemma DaysBeforeYearStep(y: int)
    requires y >= 1
    ensures DaysBeforeYear(y + 1) == DaysBeforeYear(y) + DaysInYear(y)
  {
  }

  lemma {:induction false} DaysBeforeYearMonotone(y1: int, y2: int)
    requires 1 <= y1 < y2
    ensures DaysBeforeYear(y1) + DaysInYear(y1) <= DaysBeforeYear(y2)
    decreases y2 - y1
  {
    DaysBeforeYearStep(y1);
    if y1 + 1 < y2 {
      DaysBeforeYearMonotone(y1 + 1, y2);
      DaysBeforeYearStep(y1 + 1);
    }
  }

  /** A valid date lies within its own year's block of ordinals. */
  lemma OrdinalWithinYear(d: Date)
    requires Valid(d)
    ensures DaysBeforeYear(d.year) < Ordinal(d) <= DaysBeforeYear(d.year) + DaysInYear(d.year)
  {
  }

  /** Within one year, an earlier month and day give a smaller ordinal. */
  lemma OrdinalWithinYearMonotone(a: Date, b: Date)
    requires Valid(a) && Valid(b) && a.year == b.year
    ensures Le(a, b) <==> Ordinal(a) <= Ordinal(b)
  {
  }

  /** Python's field-by-field comparison agrees with comparing day numbers. */
  lemma LeIffOrdinalLe(a: Date, b: Date)
    requires Valid(a) && Valid(b)
    ensures Le(a, b) <==> Ordinal(a) <= Ordinal(b)
  {
    OrdinalWithinYear(a);
    OrdinalWithinYear(b);
    if a.year < b.year {
      DaysBeforeYearMonotone(a.year, b.year);
    } else if b.year < a.year {
      DaysBeforeYearMonotone(b.year, a.year);
    } else {
      OrdinalWithinYearMonotone(a, b);
    }
  }

  /** Two valid dates with the same day number are the same date. */
  lemma OrdinalInjective(a: Date, b: Date)
    requires Valid(a) && Valid(b) && Ordinal(a) == Ordinal(b)
    ensures a == b
  {
    LeIffOrdinalLe(a, b);
    LeIffOrdinalLe(b, a);
  }

  /** Every valid date lies between MinDate and MaxDate, day 1 and day MaxOrdinal. */
  lemma OrdinalBounds(d: Date)
    requires Valid(d)
    ensures 1 <= Ordinal(d) <= MaxOrdinal
    ensures Ordinal(d) == MaxOrdinal <==> d == MaxDate
  {
    LeIffOrdinalLe(MinDate, d);
    LeIffOrdinalLe(d, MaxDate);
    if Ordinal(d) == MaxOrdinal {
      OrdinalInjective(d, MaxDate);
    }
  }

  /**
   * The day after `d` (`d + timedelta(days=1)`), rolling over the end of a month,
   * the end of a year and February 29 of leap years.  Python raises OverflowError
   * on the day after MaxDate, so that date is excluded.
   */
  function NextDay(d: Date): (r: Date)
    requires Valid(d) && d != MaxDate
    ensures Valid(r) && Ordinal(r) == Ordinal(d) + 1
  {
    if d.day < DaysInMonth(d.year, d.month) then
      Date(d.year, d.month, d.day + 1)
    else if d.month < 12 then
      Date(d.year, d.month + 1, 1)
    else
      DaysBeforeYearStep(d.year);
      Date(d.year + 1, 1, 1)
  }

  /** `d + timedelta(days=n)`, defined as n successive NextDay steps. */
  function AddDays(d: Date, n: nat): (r: Date)
    requires Valid(d) && Ordinal(d) + n <= MaxOrdinal
    ensures Valid(r) && Ordinal(r) == Ordinal(d) + n
    decreases n
  {
    if n == 0 then d
    else
      OrdinalBounds(d);
      AddDays(NextDay(d), n - 1)
  }

  /** Adding one more day is taking the NextDay of the sum. */
  lemma AddDaysSucc(d: Date, n: nat)
    requires Valid(d) && Ordinal(d) + n + 1 <= MaxOrdinal
    ensures AddDays(d, n) != MaxDate
    ensures AddDays(d, n + 1) == NextDay(AddDays(d, n))
  {
    var a := AddDays(d, n);
    OrdinalBounds(a);
    OrdinalInjective(AddDays(d, n + 1), NextDay(a));
  }

  /** `(b - a).days` for two dates at midnight. */
  function DaysBetween(a: Date, b: Date): (n: int)
    requires Valid(a) && Valid(b)
    ensures n >= 0 <==> Le(a, b)
  {
    LeIffOrdinalLe(a, b);
    Ordinal(b) - Ordinal(a)
  }

  /** `d.strftime('%Y-%m-%d')`: four-digit year, two-digit month and day. */
  function IsoDate(d: Date): (s: string)
    requires Valid(d)
    ensures |s| == 10 && s[4] == '-' && s[7] == '-'
    ensures forall i :: 0 <= i < 10 && i != 4 && i != 7 ==> IsDigit(s[i])
  {
    PaddedRoundTrip(d.year, 4);
    PaddedRoundTrip(d.month, 2);
    PaddedRoundTrip(d.day, 2);
    Padded(d.year, 4) + "-" + Padded(d.month, 2) + "-" + Padded(d.day, 2)
  }

  /** Reads a `YYYY-MM-DD` string back; None unless it is a valid date in that shape. */
  function ParseIsoDate(s: string): (r: Option<Date>)
    ensures r.Some? ==> Valid(r.value)
  {
    if |s| == 10 && s[4] == '-' && s[7] == '-'
      && (forall i :: 0 <= i < 10 && i != 4 && i != 7 ==> IsDigit(s[i]))
    then
      var d := Date(DigitsValue(s[..4]), DigitsValue(s[5..7]), DigitsValue(s[8..]));
      if Valid(d) then Some(d) else None
    else None
  }

  /** Formatting a date as `YYYY-MM-DD` loses nothing: parsing the text gives the date back. */
  lemma IsoDateRoundTrip(d: Date)
    requires Valid(d)
    ensures |IsoDate(d)| == 10
    ensures ParseIsoDate(IsoDate(d)) == Some(d)
  {
    PaddedRoundTrip(d.year, 4);
    PaddedRoundTrip(d.month, 2);
    PaddedRoundTrip(d.day, 2);
    var s := IsoDate(d);
    assert s[..4] == Padded(d.year, 4);
    assert s[5..7] == Padded(d.month, 2);
    assert s[8..] == Padded(d.day, 2);
  }

  /** Distinct dates give distinct `YYYY-MM-DD` texts, so per-day URLs never repeat. */
  lemma IsoDateInjective(a: Date, b: Date)
    requires Valid(a) && Valid(b) && IsoDate(a) == IsoDate(b)
    ensures a == b
  {
    IsoDateRoundTrip(a);
    IsoDateRoundTrip(b);
  }

  /**
   * `[start + timedelta(days=x) for x in range((end - start).days + 1)]`:
   * the days from `start` to `end`, both included.
   */
  function DateList(start: Date, end: Date): (ds: seq<Date>)
    requires Valid(start) && Valid(end) && Le(start, end)
    ensures |ds| == DaysBetween(start, end) + 1
    ensures forall x :: 0 <= x < |ds| ==> Valid(ds[x]) && Ordinal(ds[x]) == Ordinal(start) + x
  {
    LeIffOrdinalLe(start, end);
    OrdinalBounds(end);
    seq(DaysBetween(start, end) + 1, x requires 0 <= x <= DaysBetween(start, end) => AddDays(start, x))
  }

  /**
   * The date list starts at `start`, ends at `end`, steps by exactly one day,
   * and every entry lies between the two bounds.
   */
  lemma DateListShape(start: Date, end: Date)
    requires Valid(start) && Valid(end) && Le(start, end)
    ensures DateList(start, end)[0] == start
    ensures DateList(start, end)[|DateList(start, end)| - 1] == end
    ensures forall x :: 0 <= x < |DateList(start, end)| - 1 ==>
      DateList(start, end)[x] != MaxDate && DateList(start, end)[x + 1] == NextDay(DateList(start, end)[x])
    ensures forall x :: 0 <= x < |DateList(start, end)| ==>
      Le(start, DateList(start, end)[x]) && Le(DateList(start, end)[x], end)
  {
    var ds := DateList(start, end);
    OrdinalInjective(ds[0], start);
    OrdinalInjective(ds[|ds| - 1], end);
    forall x | 0 <= x < |ds| - 1
      ensures ds[x] != MaxDate && ds[x + 1] == NextDay(ds[x])
    {
      OrdinalBounds(ds[x + 1]);
      OrdinalBounds(ds[x]);
      OrdinalInjective(ds[x + 1], NextDay(ds[x]));
    }
    forall x | 0 <= x < |ds|
      ensures Le(start, ds[x]) && Le(ds[x], end)
    {
      LeIffOrdinalLe(start, ds[x]);
      LeIffOrdinalLe(ds[x], end);
    }
  }
}
