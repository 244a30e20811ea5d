/**
 * Date reconstruction in `clean_weather_data`: the scraped table carries only
 * a time of day per row, and the pages of consecutive days are concatenated
 * with blank rows between them.  One forward pass gives each data row the day
 * it belongs to, counting a day boundary at the first data row after blank rows.
 */
module DateReconstruction {
  import opened Wrappers
  import opened Calendar
  import opened Frame

  /** The exceptions `clean_weather_data` can raise on its input. */
  datatype CleanError =
    | DateOverflow               // `current_date += timedelta(days=1)` past 9999-12-31
    | MissingColumn(name: string) // a `KeyError` for a column the table lacks

  /**
   * Which rows of the table are blank (`row.isnull().all()`).  The pass looks
   * at nothing else, so the functions and lemmas below take this pattern:
   * `bs[i]` holds when row `i` is blank.
   */
  function BlankPattern<S>(f: Frame<S>): (bs: seq<bool>)
    requires WellFormed(f)
    ensures |bs| == f.height && forall i :: 0 <= i < f.height ==> bs[i] == IsBlankRow(f, i)
  {
    seq(f.height, i requires 0 <= i < f.height => IsBlankRow(f, i))
  }

  /** Row `i` is a data row right after a blank row: the pass moves to the next day there. */
  predicate StartsNewDay(bs: seq<bool>, i: nat)
    requires i < |bs|
  {
    0 < i && !bs[i] && bs[i - 1]
  }

  /** How many times the pass has moved to the next day after its first `n` rows. */
  function Advances(bs: seq<bool>, n: nat): nat
    requires n <= |bs|
  {
    if n == 0 then 0 else Advances(bs, n - 1) + (if StartsNewDay(bs, n - 1) then 1 else 0)
  }

  /** The pass would move past the last date Python can represent, and raises. */
  predicate Overflows(bs: seq<bool>, start: Date)
    requires Valid(start)
  {
    Ordinal(start) + Advances(bs, |bs|) > MaxOrdinal
  }

  /** The day the pass holds in `current_date` when it reaches row `i`, after any advance at that row. */
  function DayOf(bs: seq<bool>, start: Date, i: nat): Date
    requires Valid(start) && i < |bs|
    requires Ordinal(start) + Advances(bs, i + 1) <= MaxOrdinal
  {
    AddDays(start, Advances(bs, i + 1))
  }

  /**
   * The entry of `date_column` for row `i`: nothing for a blank row, and for a
   * data row its day when that day is not after `end`.
   */
  function ExpectedDate(bs: seq<bool>, start: Date, end: Date, i: nat): Option<Date>
    requires Valid(start) && i < |bs|
    requires Ordinal(start) + Advances(bs, i + 1) <= MaxOrdinal
  {
    if bs[i] then None
    else if Le(DayOf(bs, start, i), end) then Some(DayOf(bs, start, i))
    else None
  }

  /** The whole `date_column` for the first `n` rows, row by row. */
  function ExpectedDates(bs: seq<bool>, start: Date, end: Date, n: nat): (ds: seq<Option<Date>>)
    requires Valid(start) && n <= |bs|
    requires Ordinal(start) + Advances(bs, n) <= MaxOrdinal
    ensures |ds| == n
  {
    if n == 0 then [] else ExpectedDates(bs, start, end, n - 1) + [ExpectedDate(bs, start, end, n - 1)]
  }

  /** The advance count never decreases, and grows by at most one per row. */
  lemma {:induction false} AdvancesMonotone(bs: seq<bool>, m: nat, n: nat)
    requires m <= n <= |bs|
    ensures Advances(bs, m) <= Advances(bs, n) <= Advances(bs, m) + (n - m)
    decreases n - m
  {
    if m < n {
      AdvancesMonotone(bs, m, n - 1);
    }
  }

  /** Reaching row `i` with `current_date` one step along: the day that row gets. */
  lemma DayOfStep(bs: seq<bool>, start: Date, i: nat)
    requires Valid(start) && i < |bs|
    requires Ordinal(start) + Advances(bs, i) <= MaxOrdinal
    requires StartsNewDay(bs, i) ==> AddDays(start, Advances(bs, i)) != MaxDate
    ensures Ordinal(start) + Advances(bs, i + 1) <= MaxOrdinal
    ensures DayOf(bs, start, i) ==
      if StartsNewDay(bs, i) then NextDay(AddDays(start, Advances(bs, i))) else AddDays(start, Advances(bs, i))
  {
    if StartsNewDay(bs, i) {
      OrdinalBounds(AddDays(start, Advances(bs, i)));
      AddDaysSucc(start, Advances(bs, i));
    }
  }

  /** A blank row adds a missing entry and leaves the day where it is. */
  lemma BlankRowStep(bs: seq<bool>, start: Date, end: Date, i: nat)
    requires Valid(start) && i < |bs|
    requires Ordinal(start) + Advances(bs, i) <= MaxOrdinal
    requires bs[i]
    ensures Advances(bs, i + 1) == Advances(bs, i)
    ensures ExpectedDates(bs, start, end, i + 1) == ExpectedDates(bs, start, end, i) + [None]
  {
  }

  /**
   * A data row gets the day the pass holds after the row's advance, when
   * that day is not after `end`.
   */
  lemma DataRowStep(bs: seq<bool>, start: Date, end: Date, i: nat)
    requires Valid(start) && i < |bs|
    requires Ordinal(start) + Advances(bs, i) <= MaxOrdinal
    requires !bs[i]
    requires StartsNewDay(bs, i) ==> AddDays(start, Advances(bs, i)) != MaxDate
    ensures Ordinal(start) + Advances(bs, i + 1) <= MaxOrdinal
    ensures AddDays(start, Advances(bs, i + 1)) ==
      if StartsNewDay(bs, i) then NextDay(AddDays(start, Advances(bs, i))) else AddDays(start, Advances(bs, i))
    ensures ExpectedDates(bs, start, end, i + 1) == ExpectedDates(bs, start, end, i) +
      [if Le(AddDays(start, Advances(bs, i + 1)), end) then Some(AddDays(start, Advances(bs, i + 1))) else None]
  {
    DayOfStep(bs, start, i);
  }

  /** Stepping past MaxDate at row `i` means the whole pass overflows. */
  lemma OverflowAt(bs: seq<bool>, start: Date, i: nat)
    requires Valid(start) && i < |bs|
    requires Ordinal(start) + Advances(bs, i) <= MaxOrdinal
    requires StartsNewDay(bs, i) && AddDays(start, Advances(bs, i)) == MaxDate
    ensures Overflows(bs, start)
  {
    OrdinalBounds(MaxDate);
    assert Advances(bs, i + 1) == Advances(bs, i) + 1;
    AdvancesMonotone(bs, i + 1, |bs|);
  }

  /** Entry `i` of the date column is the one ExpectedDate gives for row `i`. */
  lemma {:induction false} ExpectedDatesAt(bs: seq<bool>, start: Date, end: Date, n: nat, i: nat)
    requires Valid(start) && n <= |bs|
    requires Ordinal(start) + Advances(bs, n) <= MaxOrdinal
    requires i < n
    ensures Ordinal(start) + Advances(bs, i + 1) <= MaxOrdinal
    ensures ExpectedDates(bs, start, end, n)[i] == ExpectedDate(bs, start, end, i)
    decreases n
  {
    AdvancesMonotone(bs, i + 1, n);
    if i < n - 1 {
      AdvancesMonotone(bs, n - 1, n);
      ExpectedDatesAt(bs, start, end, n - 1, i);
    }
  }

  /** Within a run of blank rows the count of advances stays where it was at the run's start. */
  lemma {:induction false} BlankRunKeepsDay(bs: seq<bool>, i: nat, k: nat)
    requires i <= k <= |bs|
    requires forall x :: i <= x < k ==> bs[x]
    ensures Advances(bs, k) == Advances(bs, i)
    decreases k
  {
    if i < k {
      BlankRunKeepsDay(bs, i, k - 1);
    }
  }

  /**
   * Blank rows from `i` up to a data row `j`, however many: the pass advances
   * exactly once over them, at row `j`.
   */
  lemma BlankRunAdvancesOnce(bs: seq<bool>, i: nat, j: nat)
    requires i < j < |bs|
    requires forall x :: i <= x < j ==> bs[x]
    requires !bs[j]
    ensures Advances(bs, j + 1) == Advances(bs, i) + 1
  {
    BlankRunKeepsDay(bs, i, j);
    assert StartsNewDay(bs, j);
  }

  /**
   * A data row after a data row stays on the same day: the pass moves only
   * at the first data row after blank rows.
   */
  lemma ConsecutiveDataRowsSameDay(bs: seq<bool>, start: Date, i: nat)
    requires Valid(start) && !Overflows(bs, start)
    requires i + 1 < |bs| && !bs[i] && !bs[i + 1]
    ensures Advances(bs, i + 1) == Advances(bs, i + 2) && Ordinal(start) + Advances(bs, i + 2) <= MaxOrdinal
    ensures DayOf(bs, start, i + 1) == DayOf(bs, start, i)
  {
    AdvancesMonotone(bs, i + 2, |bs|);
  }

  /**
   * A data row, blank rows, then a data row: the second data row is on the day
   * after the first.
   */
  lemma DayAfterBlankRun(bs: seq<bool>, start: Date, i: nat, j: nat)
    requires Valid(start) && !Overflows(bs, start)
    requires 0 < i < j < |bs| && !bs[i - 1]
    requires forall x :: i <= x < j ==> bs[x]
    requires !bs[j]
    ensures Advances(bs, i) < Advances(bs, j + 1) && Ordinal(start) + Advances(bs, j + 1) <= MaxOrdinal
    ensures DayOf(bs, start, i - 1) != MaxDate
    ensures DayOf(bs, start, j) == NextDay(DayOf(bs, start, i - 1))
  {
    BlankRunAdvancesOnce(bs, i, j);
    var n := Advances(bs, i);
    AdvancesMonotone(bs, j + 1, |bs|);
    assert Ordinal(start) + n + 1 <= MaxOrdinal;
    AddDaysSucc(start, n);
    assert (i - 1) + 1 == i && Advances(bs, j + 1) == n + 1;
  }

  /**
   * Blank rows at the very start also count as a boundary: the first data row
   * is already on the day after `start`, and is undated when that day is
   * after `end`.
   */
  lemma LeadingBlankRowsAdvance(bs: seq<bool>, start: Date, end: Date, j: nat)
    requires Valid(start) && !Overflows(bs, start)
    requires 0 < j < |bs| && (forall x :: 0 <= x < j ==> bs[x]) && !bs[j]
    ensures start != MaxDate
    ensures ExpectedDates(bs, start, end, |bs|)[j] ==
      if Le(NextDay(start), end) then Some(NextDay(start)) else None
  {
    BlankRunAdvancesOnce(bs, 0, j);
    assert Advances(bs, j + 1) == 1;
    AdvancesMonotone(bs, j + 1, |bs|);
    OrdinalBounds(start);
    AddDaysSucc(start, 0);
    assert DayOf(bs, start, j) == NextDay(start);
    ExpectedDatesAt(bs, start, end, |bs|, j);
  }

  /**
   * One blank row, then two data rows, with `start` and `end` the same day:
   * the blank row moves the pass to the day after `end`, so neither data row
   * gets a date and the whole table is dropped.
   */
  lemma LeadingSeparatorScenario(bs: seq<bool>, d: Date)
    requires Valid(d) && d != MaxDate && |bs| == 3
    requires bs[0] && !bs[1] && !bs[2]
    ensures !Overflows(bs, d)
    ensures ExpectedDates(bs, d, d, 3) == [None, None, None]
  {
    assert !StartsNewDay(bs, 0) && StartsNewDay(bs, 1) && !StartsNewDay(bs, 2);
    assert Advances(bs, 1) == 0;
    assert Advances(bs, 2) == 1;
    assert Advances(bs, 3) == 1;
    OrdinalBounds(d);
    AddDaysSucc(d, 0);
    LeIffOrdinalLe(NextDay(d), d);
    assert DayOf(bs, d, 1) == NextDay(d);
    assert DayOf(bs, d, 2) == NextDay(d);
    assert ExpectedDates(bs, d, d, 1) == [None];
    assert ExpectedDates(bs, d, d, 2) == [None, None];
  }

  /** Blank rows get no date. */
  lemma BlankRowsUndated(bs: seq<bool>, start: Date, end: Date)
    requires Valid(start) && !Overflows(bs, start)
    ensures forall i :: 0 <= i < |bs| && bs[i] ==> ExpectedDates(bs, start, end, |bs|)[i] == None
  {
    forall i | 0 <= i < |bs| && bs[i]
      ensures ExpectedDates(bs, start, end, |bs|)[i] == None
    {
      ExpectedDatesAt(bs, start, end, |bs|, i);
    }
  }

  /** Every date the pass assigns lies between `start` and `end`. */
  lemma DatesWithinRange(bs: seq<bool>, start: Date, end: Date)
    requires Valid(start) && !Overflows(bs, start)
    ensures forall i :: 0 <= i < |bs| && ExpectedDates(bs, start, end, |bs|)[i].Some? ==>
      Le(start, ExpectedDates(bs, start, end, |bs|)[i].value) && Le(ExpectedDates(bs, start, end, |bs|)[i].value, end)
  {
    var ds := ExpectedDates(bs, start, end, |bs|);
    forall i | 0 <= i < |bs| && ds[i].Some?
      ensures Le(start, ds[i].value) && Le(ds[i].value, end)
    {
      ExpectedDatesAt(bs, start, end, |bs|, i);
      LeIffOrdinalLe(start, ds[i].value);
    }
  }

  /** The day the pass holds never goes backwards from one row to a later one. */
  lemma DayOfMonotone(bs: seq<bool>, start: Date, i: nat, j: nat)
    requires Valid(start) && !Overflows(bs, start)
    requires i <= j < |bs|
    ensures Advances(bs, i + 1) <= Advances(bs, j + 1) && Ordinal(start) + Advances(bs, j + 1) <= MaxOrdinal
    ensures Le(DayOf(bs, start, i), DayOf(bs, start, j))
  {
    AdvancesMonotone(bs, i + 1, j + 1);
    AdvancesMonotone(bs, j + 1, |bs|);
    LeIffOrdinalLe(DayOf(bs, start, i), DayOf(bs, start, j));
  }

  /** The assigned dates never go backwards in row order. */
  lemma DatesNondecreasing(bs: seq<bool>, start: Date, end: Date)
    requires Valid(start) && !Overflows(bs, start)
    ensures forall i, j ::
      (0 <= i < j < |bs| && ExpectedDates(bs, start, end, |bs|)[i].Some? && ExpectedDates(bs, start, end, |bs|)[j].Some?) ==>
        Le(ExpectedDates(bs, start, end, |bs|)[i].value, ExpectedDates(bs, start, end, |bs|)[j].value)
  {
    var ds := ExpectedDates(bs, start, end, |bs|);
    forall i, j | 0 <= i < j < |bs| && ds[i].Some? && ds[j].Some?
      ensures Le(ds[i].value, ds[j].value)
    {
      ExpectedDatesAt(bs, start, end, |bs|, i);
      ExpectedDatesAt(bs, start, end, |bs|, j);
      DayOfMonotone(bs, start, i, j);
    }
  }

  /** Once a data row is past `end` and gets no date, no later row gets one. */
  lemma PastEndStaysUndated(bs: seq<bool>, start: Date, end: Date)
    requires Valid(start) && Valid(end) && !Overflows(bs, start)
    ensures forall i, j :: 0 <= i < j < |bs| && !bs[i] && ExpectedDates(bs, start, end, |bs|)[i].None? ==>
      ExpectedDates(bs, start, end, |bs|)[j].None?
  {
    var ds := ExpectedDates(bs, start, end, |bs|);
    forall i, j | 0 <= i < j < |bs| && !bs[i] && ds[i].None?
      ensures ds[j].None?
    {
      ExpectedDatesAt(bs, start, end, |bs|, i);
      ExpectedDatesAt(bs, start, end, |bs|, j);
      if !bs[j] {
        DayOfMonotone(bs, start, i, j);
        LeIffOrdinalLe(DayOf(bs, start, i), DayOf(bs, start, j));
        LeIffOrdinalLe(DayOf(bs, start, i), end);
        LeIffOrdinalLe(DayOf(bs, start, j), end);
      }
    }
  }

  /**
   * `while len(date_column) < len(df): date_column.append(None)`: pads with
   * missing dates up to `n` entries and keeps the entries already there.
   */
  method PadDates(dates: seq<Option<Date>>, n: nat) returns (padded: seq<Option<Date>>)
    ensures |padded| == if |dates| < n then n else |dates|
    ensures padded[..|dates|] == dates
    ensures forall k :: |dates| <= k < |padded| ==> padded[k] == None
  {
    padded := dates;
    while |padded| < n
      invariant |dates| <= |padded| <= if |dates| < n then n else |dates|
      invariant padded[..|dates|] == dates
      invariant forall k :: |dates| <= k < |padded| ==> padded[k] == None
    {
      padded := padded + [None];
    }
  }

  /**
   * The `date_column` loop and the padding loop after it.  The result has one
   * entry per row, each the one ExpectedDate gives; the padding loop adds
   * nothing.  The pass raises exactly when it would step past 9999-12-31.
   */
  method ReconstructDates<S>(f: Frame<S>, start: Date, end: Date) returns (r: Result<seq<Option<Date>>, CleanError>)
    requires WellFormed(f) && Valid(start) && Valid(end)
    ensures r.Failure? <==> Overflows(BlankPattern(f), start)
    ensures r.Failure? ==> r.error == DateOverflow
    ensures r.Success? ==> |r.value| == f.height && r.value == ExpectedDates(BlankPattern(f), start, end, f.height)
  {
    ghost var bs := BlankPattern(f);
    OrdinalBounds(start);
    var current := start;
    var dates: seq<Option<Date>> := [];
    var blankRow := false;
    for i := 0 to f.height
      invariant |dates| == i
      invariant Ordinal(start) + Advances(bs, i) <= MaxOrdinal
      invariant current == AddDays(start, Advances(bs, i))
      invariant blankRow == (i > 0 && bs[i - 1])
      invariant dates == ExpectedDates(bs, start, end, i)
    {
      if IsBlankRow(f, i) {
        BlankRowStep(bs, start, end, i);
        blankRow := true;
        dates := dates + [None];
      } else {
        if blankRow {
          if current == MaxDate {
            OverflowAt(bs, start, i);
            return Failure(DateOverflow);
          }
          DataRowStep(bs, start, end, i);
          blankRow := false;
          current := NextDay(current);
        } else {
          DataRowStep(bs, start, end, i);
        }
        dates := dates + [if Le(current, end) then Some(current) else None];
      }
    }
    dates := PadDates(dates, f.height);
    r := Success(dates);
  }
}
