/**
 * `clean_weather_data` after the date pass: the date column is attached and
 * incomplete rows are dropped, `Time` and the date are combined into a
 * `datetime` column that moves first, `Time` and `date` are dropped, the
 * measurement columns are renamed to carry their units, and each of them is
 * reduced to the leftmost number in its text.
 */
module Cleaning {
  import opened Wrappers
  import opened Calendar
  import opened Numbers
  import opened Frame
  import opened DateReconstruction

  /** The renaming that adds units to the measurement columns. */
  const RenameMap: map<string, string> := map[
    "Temperature" := "Temperature (F)",
    "Dew Point" := "Dew Point (F)",
    "Humidity" := "Humidity (%)",
    "Wind Speed" := "Wind Speed (mph)",
    "Wind Gust" := "Wind Gust (mph)",
    "Pressure" := "Pressure (in)",
    "Precip." := "Precipitation (in)"
  ]

  /** The columns converted to numbers, in the order they are converted. */
  const NumericColumns: seq<string> := [
    "Temperature (F)", "Dew Point (F)", "Humidity (%)", "Wind Speed (mph)",
    "Wind Gust (mph)", "Pressure (in)", "Precipitation (in)"
  ]

  /** The input columns that do not reach the output under their own name. */
  const Dropped: set<string> := {"datetime", "Time", "date"}

  /** The scraped table holds text or nothing in every cell. */
  predicate ScrapedCells<S>(f: Frame<S>)
    requires WellFormed(f)
  {
    forall c, i :: c in f.columns && 0 <= i < f.height ==> f.data[c][i].Text? || f.data[c][i].Missing?
  }

  /** The `date` column built from the pass: a day or a missing value per row. */
  function DateCells<S>(ds: seq<Option<Date>>): (cs: seq<Cell<S>>)
    ensures |cs| == |ds|
    ensures forall k :: 0 <= k < |ds| ==> (cs[k].Missing? <==> ds[k].None?)
    ensures forall k :: 0 <= k < |ds| && ds[k].Some? ==> cs[k] == Day(ds[k].value)
  {
    seq(|ds|, k requires 0 <= k < |ds| => if ds[k].Some? then Day(ds[k].value) else Missing)
  }

  /**
   * One `datetime` cell: the parse of the day and the time text, or a missing
   * value when the parse fails (`errors='coerce'`) or either part is missing.
   */
  function StampCell<S>(day: Cell<S>, time: Cell<S>, parse: (Date, string) -> Option<S>): (r: Cell<S>)
    ensures r.Stamp? || r.Missing?
    ensures r.Stamp? <==> day.Day? && time.Text? && parse(day.date, time.text).Some?
    ensures r.Stamp? ==> r.stamp == parse(day.date, time.text).value
  {
    if day.Day? && time.Text? then
      match parse(day.date, time.text)
      case Some(s) => Stamp(s)
      case None => Missing
    else Missing
  }

  /** The `datetime` column, row by row. */
  function Timestamps<S>(days: seq<Cell<S>>, times: seq<Cell<S>>, parse: (Date, string) -> Option<S>): (cs: seq<Cell<S>>)
    requires |days| == |times|
    ensures |cs| == |days| && forall k :: 0 <= k < |days| ==> cs[k] == StampCell(days[k], times[k], parse)
  {
    seq(|days|, k requires 0 <= k < |days| => StampCell(days[k], times[k], parse))
  }

  /**
   * One numeric cell: the leftmost number in the text as an exact decimal, a
   * missing value when the text holds none; a cell without text has no string
   * to search and gives a missing value too.
   */
  function ConvertCell<S>(c: Cell<S>): (r: Cell<S>)
    ensures r.Number? || r.Missing?
    ensures r.Number? <==> c.Text? && ExtractNumber(c.text).Some?
    ensures r.Number? ==> r.value == ExtractNumber(c.text).value
  {
    if c.Text? then
      match ExtractNumber(c.text)
      case Some(v) => Number(v)
      case None => Missing
    else Missing
  }

  /** A whole column converted cell by cell. */
  function Converted<S>(cs: seq<Cell<S>>): (rs: seq<Cell<S>>)
    ensures |rs| == |cs| && forall k :: 0 <= k < |cs| ==> rs[k] == ConvertCell(cs[k])
  {
    seq(|cs|, k requires 0 <= k < |cs| => ConvertCell(cs[k]))
  }

  /** Row `i` survives `dropna`: it got a date and no other cell of it is missing. */
  predicate IsKept<S>(f: Frame<S>, ds: seq<Option<Date>>, i: nat)
    requires WellFormed(f) && |ds| == f.height && i < f.height
  {
    ds[i].Some? && forall c :: c in f.columns && c != "date" ==> !f.data[c][i].Missing?
  }

  /** The rows among the first `n` that survive `dropna`, in their order. */
  function KeptRows<S>(f: Frame<S>, ds: seq<Option<Date>>, n: nat): (ks: seq<nat>)
    requires WellFormed(f) && |ds| == f.height && n <= f.height
    ensures forall k :: 0 <= k < |ks| ==> ks[k] < n && IsKept(f, ds, ks[k])
    ensures forall i {:trigger IsKept(f, ds, i), i in ks} :: 0 <= i < n && IsKept(f, ds, i) ==> i in ks
    ensures forall k, l :: 0 <= k < l < |ks| ==> ks[k] < ks[l]
  {
    if n == 0 then []
    else KeptRows(f, ds, n - 1) + (if IsKept(f, ds, n - 1) then [n - 1] else [])
  }

  /** The output columns: `datetime`, then the other columns in their order without `Time` and `date`, renamed. */
  function OutputColumns<S>(f: Frame<S>): (cs: seq<string>)
    ensures |cs| == |Without(f.columns, Dropped)| + 1
    ensures cs[0] == "datetime" && forall j :: 1 <= j < |cs| ==> cs[j] != "datetime"
    ensures forall c :: c in Without(f.columns, Dropped) ==> RenameOne(c, RenameMap) in cs
  {
    OutputColumnsShape(f.columns);
    RenameAll(["datetime"] + Without(f.columns, Dropped), RenameMap)
  }

  /** The renamed list behind OutputColumns holds `datetime` once, first, and the new name of each kept column. */
  lemma OutputColumnsShape(cols: seq<string>)
    ensures var cs := RenameAll(["datetime"] + Without(cols, Dropped), RenameMap);
      && cs[0] == "datetime"
      && (forall j :: 1 <= j < |cs| ==> cs[j] != "datetime")
      && forall c :: c in Without(cols, Dropped) ==> RenameOne(c, RenameMap) in cs
  {
    var w := ["datetime"] + Without(cols, Dropped);
    var cs := RenameAll(w, RenameMap);
    forall j | 1 <= j < |cs| ensures cs[j] != "datetime" {
      assert w[j] in Without(cols, Dropped);
      RenameAvoidsDatetime(w[j]);
    }
    forall c | c in Without(cols, Dropped) ensures RenameOne(c, RenameMap) in cs {
      assert c in w;
      RenameAllMember(w, c, RenameMap);
    }
  }

  /** The first of `names` missing from `present`, which is the one whose lookup raises `KeyError`. */
  function FirstAbsent(names: seq<string>, present: seq<string>): (r: Option<string>)
    ensures r.None? <==> forall x :: x in names ==> x in present
    ensures r.Some? ==> r.value in names && r.value !in present
    ensures r.Some? ==> exists k :: 0 <= k < |names| && names[k] == r.value && forall j :: 0 <= j < k ==> names[j] in present
  {
    if names == [] then None
    else if names[0] !in present then Some(names[0])
    else FirstAbsent(names[1..], present)
  }

  /** The output cells of input column `c`: its surviving cells, converted when its new name is a measurement column. */
  function OutputCells<S>(f: Frame<S>, ks: seq<nat>, c: string, converted: seq<string>): seq<Cell<S>>
    requires WellFormed(f) && c in f.columns && forall k :: 0 <= k < |ks| ==> ks[k] < f.height
  {
    var kept := Select(f.data[c], ks);
    if RenameOne(c, RenameMap) in converted then Converted(kept) else kept
  }

  /** After the date column is attached, row `i` is complete exactly when IsKept holds. */
  lemma DatedRowComplete<S>(f: Frame<S>, ds: seq<Option<Date>>, i: nat)
    requires WellFormed(f) && |ds| == f.height && i < f.height
    ensures IsCompleteRow(SetColumn(f, "date", DateCells(ds)), i) <==> IsKept(f, ds, i)
  {
    var g := SetColumn(f, "date", DateCells(ds));
    assert "date" in g.columns && g.data["date"] == DateCells(ds);
    if IsCompleteRow(g, i) {
      assert !g.data["date"][i].Missing?;
      forall c | c in f.columns && c != "date" ensures !f.data[c][i].Missing? {
        assert c in g.columns && g.data[c] == f.data[c];
      }
    }
    if IsKept(f, ds, i) {
      forall c | c in g.columns ensures !g.data[c][i].Missing? {
        if c != "date" {
          assert c in f.columns && g.data[c] == f.data[c];
        }
      }
    }
  }

  /** One more row extends CompleteRows by that row when it is complete. */
  lemma CompleteRowsStep<S>(g: Frame<S>, n: nat)
    requires WellFormed(g) && 0 < n <= g.height
    ensures CompleteRows(g, n) == CompleteRows(g, n - 1) + (if IsCompleteRow(g, n - 1) then [n - 1] else [])
  {
  }

  /** One more row extends KeptRows by that row when it is kept. */
  lemma KeptRowsStep<S>(f: Frame<S>, ds: seq<Option<Date>>, n: nat)
    requires WellFormed(f) && |ds| == f.height && 0 < n <= f.height
    ensures KeptRows(f, ds, n) == KeptRows(f, ds, n - 1) + (if IsKept(f, ds, n - 1) then [n - 1] else [])
  {
  }

  /** A frame whose complete rows are exactly the rows IsKept names has KeptRows as its complete rows. */
  lemma {:induction false} CompleteRowsAreKept<S>(g: Frame<S>, f: Frame<S>, ds: seq<Option<Date>>, n: nat)
    requires WellFormed(g) && WellFormed(f) && |ds| == f.height && g.height == f.height && n <= f.height
    requires forall i :: 0 <= i < f.height ==> (IsCompleteRow(g, i) <==> IsKept(f, ds, i))
    ensures CompleteRows(g, n) == KeptRows(f, ds, n)
    decreases n
  {
    if n > 0 {
      CompleteRowsAreKept(g, f, ds, n - 1);
      CompleteRowsStep(g, n);
      KeptRowsStep(f, ds, n);
    }
  }

  /** `dropna` after attaching the date column keeps exactly the rows IsKept names. */
  lemma DropNaKeepsDatedRows<S>(f: Frame<S>, ds: seq<Option<Date>>, n: nat)
    requires WellFormed(f) && |ds| == f.height && n <= f.height
    ensures CompleteRows(SetColumn(f, "date", DateCells(ds)), n) == KeptRows(f, ds, n)
  {
    var g := SetColumn(f, "date", DateCells(ds));
    forall i | 0 <= i < f.height ensures IsCompleteRow(g, i) <==> IsKept(f, ds, i) {
      DatedRowComplete(f, ds, i);
    }
    CompleteRowsAreKept(g, f, ds, n);
  }

  /** A row that got a date but has a missing cell (a short scraped row) is still dropped. */
  lemma PaddedRowDropped<S>(f: Frame<S>, ds: seq<Option<Date>>, i: nat, c: string)
    requires WellFormed(f) && |ds| == f.height && i < f.height
    requires c in f.columns && c != "date" && f.data[c][i].Missing?
    ensures i !in CompleteRows(SetColumn(f, "date", DateCells(ds)), f.height)
  {
    DropNaKeepsDatedRows(f, ds, f.height);
  }

  /** The renaming touches exactly the seven measurement names. */
  lemma RenameChangesOnlyMeasurements(c: string)
    ensures RenameOne(c, RenameMap) != c <==> c in RenameMap
  {
  }

  /** Renaming keeps every column in its position, and unnamed columns keep their names. */
  lemma RenameKeepsPositions(cs: seq<string>)
    ensures |RenameAll(cs, RenameMap)| == |cs|
    ensures forall j :: 0 <= j < |cs| && cs[j] !in RenameMap ==> RenameAll(cs, RenameMap)[j] == cs[j]
    ensures forall j :: 0 <= j < |cs| && cs[j] in RenameMap ==> RenameAll(cs, RenameMap)[j] == RenameMap[cs[j]]
  {
  }

  /** The source names of the renaming, in the order of NumericColumns. */
  const MeasurementNames: seq<string> := ["Temperature", "Dew Point", "Humidity", "Wind Speed", "Wind Gust", "Pressure", "Precip."]

  /** Measurement `j` is renamed to measurement column `j`. */
  lemma RenameMapByIndex()
    ensures |MeasurementNames| == |NumericColumns| == 7
    ensures forall x :: x in RenameMap <==> x in MeasurementNames
    ensures forall j :: 0 <= j < 7 ==> RenameMap[MeasurementNames[j]] == NumericColumns[j]
  {
  }

  /** Each name the renaming produces is one of the measurement columns converted to numbers. */
  lemma RenamedToMeasurement(c: string)
    requires c in RenameMap
    ensures RenameMap[c] in NumericColumns
  {
    RenameMapByIndex();
    var j :| 0 <= j < 7 && MeasurementNames[j] == c;
    assert RenameMap[c] == NumericColumns[j];
  }

  /** No two measurement names are renamed to the same column. */
  lemma RenameMapInjective(a: string, b: string)
    requires a in RenameMap && b in RenameMap && RenameMap[a] == RenameMap[b]
    ensures a == b
  {
    RenameMapByIndex();
    NumericColumnsDistinct();
    var x :| 0 <= x < 7 && MeasurementNames[x] == a;
    var y :| 0 <= y < 7 && MeasurementNames[y] == b;
    assert NumericColumns[x] == NumericColumns[y];
  }

  /** Two names that are not unit-carrying names are renamed apart unless they are equal. */
  lemma RenameInjective(a: string, b: string)
    requires a !in NumericColumns && b !in NumericColumns
    requires RenameOne(a, RenameMap) == RenameOne(b, RenameMap)
    ensures a == b
  {
    if a in RenameMap && b in RenameMap {
      RenameMapInjective(a, b);
    } else if a in RenameMap {
      RenamedToMeasurement(a);
    } else if b in RenameMap {
      RenamedToMeasurement(b);
    }
  }

  /** `datetime` keeps its name and is not converted. */
  lemma DatetimeUntouched()
    ensures RenameOne("datetime", RenameMap) == "datetime"
    ensures "datetime" !in NumericColumns
  {
  }

  /** A column other than `datetime` is not renamed to `datetime`. */
  lemma RenameAvoidsDatetime(c: string)
    requires c != "datetime"
    ensures RenameOne(c, RenameMap) != "datetime"
  {
  }

  /**
   * Distinct input names that do not already use a unit-carrying name give
   * distinct output names.
   */
  lemma OutputColumnsDistinct<S>(f: Frame<S>)
    requires Distinct(f.columns)
    requires forall c :: c in f.columns ==> c !in NumericColumns
    ensures Distinct(OutputColumns(f))
  {
    var w := ["datetime"] + Without(f.columns, Dropped);
    WithoutDistinct(f.columns, Dropped);
    var out := OutputColumns(f);
    forall i, j | 0 <= i < j < |out| ensures out[i] != out[j] {
      var b := w[j];
      assert b in Without(f.columns, Dropped) && out[j] == RenameOne(b, RenameMap);
      if i == 0 {
        DatetimeUntouched();
        RenameAvoidsDatetime(b);
      } else {
        var a := w[i];
        assert a in Without(f.columns, Dropped) && a != b && out[i] == RenameOne(a, RenameMap);
        if out[i] == out[j] {
          RenameInjective(a, b);
        }
      }
    }
  }

  /**
   * The columns through the pipeline: attach `d` and `x` when absent, move `x`
   * first, drop the names in `drop`.
   */
  lemma PipelineColumns(cols: seq<string>, d: string, x: string, drop: set<string>)
    requires d in drop && x !in drop
    ensures var c1 := if d in cols then cols else cols + [d];
            var c2 := if x in c1 then c1 else c1 + [x];
            Without([x] + Without(c2, {x}), drop) == [x] + Without(cols, {x} + drop)
  {
    var c1 := if d in cols then cols else cols + [d];
    var c2 := if x in c1 then c1 else c1 + [x];
    WithoutPrepend(x, Without(c2, {x}), drop);
    WithoutWithout(c2, {x}, drop);
    if d !in cols {
      WithoutAppendDropped(cols, d, {x} + drop);
    }
    if x !in c1 {
      WithoutAppendDropped(c1, x, {x} + drop);
    }
  }

  /** The conversion steps name seven different columns. */
  lemma NumericColumnsDistinct()
    ensures Distinct(NumericColumns)
  {
  }

  /** `dropna` after attaching the date column: the kept rows of every column, and the date column added when absent. */
  lemma DatedFrame<S>(f: Frame<S>, ds: seq<Option<Date>>)
    requires WellFormed(f) && |ds| == f.height
    ensures var g := DropNa(SetColumn(f, "date", DateCells(ds)));
      var ks := KeptRows(f, ds, f.height);
      && g.height == |ks|
      && g.columns == (if "date" in f.columns then f.columns else f.columns + ["date"])
      && Without(g.columns, Dropped) == Without(f.columns, Dropped)
      && g.data["date"] == Select(DateCells(ds), ks)
      && forall c :: c in f.columns && c != "date" ==> g.data[c] == Select(f.data[c], ks)
  {
    DropNaKeepsDatedRows(f, ds, f.height);
    if "date" !in f.columns {
      WithoutAppendDropped(f.columns, "date", Dropped);
    }
  }

  /** Lines 84 to 91 on a frame that has `Time` and `date`: the timestamps first, then the other columns but `Time` and `date`. */
  lemma ArrangedFrame<S>(g: Frame<S>, parse: (Date, string) -> Option<S>)
    requires WellFormed(g) && "Time" in g.columns && "date" in g.columns
    ensures var h := DropColumns(MoveToFront(SetColumn(g, "datetime", Timestamps(g.data["date"], g.data["Time"], parse)), "datetime"), {"Time", "date"});
      && h.columns == ["datetime"] + Without(g.columns, Dropped)
      && h.data["datetime"] == Timestamps(g.data["date"], g.data["Time"], parse)
      && forall c :: c in Without(g.columns, Dropped) ==> h.data[c] == g.data[c]
  {
    PipelineColumns(g.columns, "date", "datetime", {"Time", "date"});
    assert {"datetime"} + {"Time", "date"} == Dropped;
  }

  /** `g` is `df` with the first `i` measurement columns converted. */
  ghost predicate ConvertedUpTo<S>(df: Frame<S>, g: Frame<S>, i: nat)
    requires i <= |NumericColumns|
  {
    && WellFormed(g) && g.columns == df.columns && g.height == df.height
    && forall c :: c in df.columns ==>
         c in df.data && g.data[c] == if c in NumericColumns[..i] then Converted(df.data[c]) else df.data[c]
  }

  /** Converting measurement column `i` extends ConvertedUpTo by one column. */
  lemma ConvertStep<S>(df: Frame<S>, g: Frame<S>, i: nat)
    requires WellFormed(df) && i < |NumericColumns| && ConvertedUpTo(df, g, i)
    requires NumericColumns[i] in g.columns
    ensures ConvertedUpTo(df, SetColumn(g, NumericColumns[i], Converted(g.data[NumericColumns[i]])), i + 1)
  {
    var col := NumericColumns[i];
    NumericColumnsDistinct();
    assert NumericColumns[..i + 1] == NumericColumns[..i] + [col];
    assert col !in NumericColumns[..i];
  }

  /**
   * Lines 79 to 102, step by step: `g` after `dropna`, `h` after the
   * timestamps are attached and moved first and `Time` and `date` dropped,
   * `a` after the renaming.  The frame before the conversion loop holds the
   * output columns and the kept cells.
   */
  lemma ArrangedSpec<S>(f: Frame<S>, ds: seq<Option<Date>>, parse: (Date, string) -> Option<S>, g: Frame<S>, h: Frame<S>, a: Frame<S>)
    requires WellFormed(f) && |ds| == f.height && "Time" in f.columns
    requires var ks := KeptRows(f, ds, f.height);
      && g.height == |ks| && "Time" in g.data && "date" in g.data
      && Without(g.columns, Dropped) == Without(f.columns, Dropped)
      && g.data["date"] == Select(DateCells(ds), ks)
      && forall c :: c in f.columns && c != "date" ==> c in g.data && g.data[c] == Select(f.data[c], ks)
    requires && h.height == g.height && h.columns == ["datetime"] + Without(g.columns, Dropped)
      && "datetime" in h.data && h.data["datetime"] == Timestamps(g.data["date"], g.data["Time"], parse)
      && forall c :: c in Without(g.columns, Dropped) ==> c in h.data && h.data[c] == g.data[c]
    requires && a.height == h.height && a.columns == RenameAll(h.columns, RenameMap)
      && forall c :: c in h.columns ==> RenameOne(c, RenameMap) in a.data && c in h.data && a.data[RenameOne(c, RenameMap)] == h.data[c]
    ensures var ks := KeptRows(f, ds, f.height);
      && a.columns == OutputColumns(f) && a.height == |ks|
      && "datetime" in a.columns
      && a.data["datetime"] == Timestamps(Select(DateCells(ds), ks), Select(f.data["Time"], ks), parse)
      && forall c :: c in Without(f.columns, Dropped) ==>
           RenameOne(c, RenameMap) in a.data && a.data[RenameOne(c, RenameMap)] == Select(f.data[c], ks)
  {
    var ks := KeptRows(f, ds, f.height);
    DatetimeUntouched();
    assert "datetime" in h.columns && a.data["datetime"] == h.data["datetime"];
    assert a.columns[0] == "datetime";
    forall c | c in Without(f.columns, Dropped)
      ensures RenameOne(c, RenameMap) in a.data && a.data[RenameOne(c, RenameMap)] == Select(f.data[c], ks)
    {
      assert c in h.columns && h.data[c] == g.data[c];
      assert c in f.columns && c != "date";
    }
  }

  /** Lines 79 to 102 up to the conversion loop, as one expression: the output columns and the kept cells. */
  lemma ArrangedPipeline<S>(f: Frame<S>, ds: seq<Option<Date>>, parse: (Date, string) -> Option<S>)
    requires WellFormed(f) && |ds| == f.height && "Time" in f.columns && Distinct(OutputColumns(f))
    ensures var g := DropNa(SetColumn(f, "date", DateCells(ds)));
      "Time" in g.columns && "date" in g.columns &&
      var h := DropColumns(MoveToFront(SetColumn(g, "datetime", Timestamps(g.data["date"], g.data["Time"], parse)), "datetime"), {"Time", "date"});
      Distinct(RenameAll(h.columns, RenameMap)) &&
      var a := RenameColumns(h, RenameMap);
      var ks := KeptRows(f, ds, f.height);
      && a.columns == OutputColumns(f) && a.height == |ks|
      && "datetime" in a.columns
      && a.data["datetime"] == Timestamps(Select(DateCells(ds), ks), Select(f.data["Time"], ks), parse)
      && forall c :: c in Without(f.columns, Dropped) ==>
           RenameOne(c, RenameMap) in a.data && a.data[RenameOne(c, RenameMap)] == Select(f.data[c], ks)
  {
    var g := DropNa(SetColumn(f, "date", DateCells(ds)));
    DatedFrame(f, ds);
    ArrangedFrame(g, parse);
    var h := DropColumns(MoveToFront(SetColumn(g, "datetime", Timestamps(g.data["date"], g.data["Time"], parse)), "datetime"), {"Time", "date"});
    assert RenameAll(h.columns, RenameMap) == OutputColumns(f);
    ArrangedSpec(f, ds, parse, g, h, RenameColumns(h, RenameMap));
  }

  /**
   * The conversion loop: each measurement column in turn becomes the leftmost
   * number in each of its texts; the first one the frame lacks raises `KeyError`.
   */
  method ConvertMeasurements<S>(df: Frame<S>) returns (r: Result<Frame<S>, CleanError>)
    requires WellFormed(df)
    ensures FirstAbsent(NumericColumns, df.columns).Some? ==>
      r == Failure(MissingColumn(FirstAbsent(NumericColumns, df.columns).value))
    ensures FirstAbsent(NumericColumns, df.columns).None? ==>
      && r.Success? && WellFormed(r.value)
      && r.value.columns == df.columns && r.value.height == df.height
      && forall c :: c in df.columns ==>
           r.value.data[c] == if c in NumericColumns then Converted(df.data[c]) else df.data[c]
  {
    var g := df;
    assert NumericColumns[0..] == NumericColumns;
    for i := 0 to |NumericColumns|
      invariant ConvertedUpTo(df, g, i)
      invariant FirstAbsent(NumericColumns, df.columns) == FirstAbsent(NumericColumns[i..], df.columns)
    {
      var col := NumericColumns[i];
      assert NumericColumns[i..][1..] == NumericColumns[i + 1..];
      if col !in g.columns {
        return Failure(MissingColumn(col));
      }
      ConvertStep(df, g, i);
      g := SetColumn(g, col, Converted(g.data[col]));
    }
    assert NumericColumns[..|NumericColumns|] == NumericColumns;
    r := Success(g);
  }

  /**
   * `g` is what the steps after the date pass make of `f` and its date column
   * `ds`: the output columns, one row per row kept by `dropna`, the parsed
   * timestamps first, and every other column's kept cells under its new name,
   * converted in the measurement columns.
   */
  ghost predicate CleanedWith<S>(f: Frame<S>, ds: seq<Option<Date>>, parse: (Date, string) -> Option<S>, g: Frame<S>)
    requires WellFormed(f) && |ds| == f.height && "Time" in f.columns
  {
    var ks := KeptRows(f, ds, f.height);
    && WellFormed(g)
    && g.columns == OutputColumns(f)
    && g.height == |ks|
    && "datetime" in g.columns
    && g.data["datetime"] == Timestamps(Select(DateCells(ds), ks), Select(f.data["Time"], ks), parse)
    && forall c :: c in Without(f.columns, Dropped) ==>
         RenameOne(c, RenameMap) in g.data && g.data[RenameOne(c, RenameMap)] == OutputCells(f, ks, c, NumericColumns)
  }

  /** `g` is what cleaning `f` gives, with the dates the pass reconstructs from `start`. */
  ghost predicate Cleaned<S>(f: Frame<S>, start: Date, end: Date, parse: (Date, string) -> Option<S>, g: Frame<S>)
    requires WellFormed(f) && Valid(start) && !Overflows(BlankPattern(f), start) && "Time" in f.columns
  {
    CleanedWith(f, ExpectedDates(BlankPattern(f), start, end, f.height), parse, g)
  }

  /** Converting the arranged frame's measurement columns gives the cleaned frame. */
  lemma CleanedFrom<S>(f: Frame<S>, ds: seq<Option<Date>>, parse: (Date, string) -> Option<S>, a: Frame<S>, out: Frame<S>)
    requires WellFormed(f) && |ds| == f.height && "Time" in f.columns
    requires var ks := KeptRows(f, ds, f.height);
      && WellFormed(a) && a.columns == OutputColumns(f) && a.height == |ks|
      && "datetime" in a.columns
      && a.data["datetime"] == Timestamps(Select(DateCells(ds), ks), Select(f.data["Time"], ks), parse)
      && forall c :: c in Without(f.columns, Dropped) ==>
           RenameOne(c, RenameMap) in a.data && a.data[RenameOne(c, RenameMap)] == Select(f.data[c], ks)
    requires WellFormed(out) && out.columns == a.columns && out.height == a.height
    requires forall c :: c in a.columns ==> out.data[c] == if c in NumericColumns then Converted(a.data[c]) else a.data[c]
    ensures CleanedWith(f, ds, parse, out)
  {
    var ks := KeptRows(f, ds, f.height);
    DatetimeUntouched();
    assert out.data["datetime"] == a.data["datetime"];
    forall c | c in Without(f.columns, Dropped)
      ensures RenameOne(c, RenameMap) in out.data && out.data[RenameOne(c, RenameMap)] == OutputCells(f, ks, c, NumericColumns)
    {
      var n := RenameOne(c, RenameMap);
      assert c in ["datetime"] + Without(f.columns, Dropped);
      RenameAllMember(["datetime"] + Without(f.columns, Dropped), c, RenameMap);
      assert out.data[n] == if n in NumericColumns then Converted(a.data[n]) else a.data[n];
    }
  }

  /** A measurement name is neither dropped nor left unrenamed. */
  lemma MeasurementKept(c: string)
    requires c in RenameMap
    ensures c !in Dropped && RenameOne(c, RenameMap) == RenameMap[c] && RenameMap[c] in NumericColumns
  {
    RenamedToMeasurement(c);
  }

  /** In the cleaned frame a measurement column holds its kept cells, converted. */
  lemma MeasurementCells<S>(f: Frame<S>, ds: seq<Option<Date>>, parse: (Date, string) -> Option<S>, g: Frame<S>, c: string)
    requires WellFormed(f) && |ds| == f.height && "Time" in f.columns && CleanedWith(f, ds, parse, g)
    requires c in Without(f.columns, Dropped) && RenameOne(c, RenameMap) in NumericColumns
    ensures RenameOne(c, RenameMap) in g.data
    ensures g.data[RenameOne(c, RenameMap)] == Converted(Select(f.data[c], KeptRows(f, ds, f.height)))
  {
  }

  /**
   * A kept row whose measurement text holds no number stays in the output,
   * with a missing value in that column: the conversion comes after the only
   * `dropna`.
   */
  lemma UnmatchedMeasurementKeepsRow<S>(f: Frame<S>, ds: seq<Option<Date>>, parse: (Date, string) -> Option<S>, g: Frame<S>, c: string, k: nat)
    requires WellFormed(f) && |ds| == f.height && "Time" in f.columns && CleanedWith(f, ds, parse, g)
    requires c in f.columns && c in RenameMap
    requires k < |KeptRows(f, ds, f.height)|
    requires var cell := f.data[c][KeptRows(f, ds, f.height)[k]]; cell.Text? && ExtractNumber(cell.text).None?
    ensures k < g.height && RenameMap[c] in g.data && g.data[RenameMap[c]][k] == Missing
  {
    MeasurementKept(c);
    MeasurementCells(f, ds, parse, g, c);
  }

  /**
   * `clean_weather_data`: the date pass, then the steps of the cleaning in
   * their order.  It fails as the source raises: past 9999-12-31 in the date
   * pass, then on a missing `Time` column, then on the first measurement
   * column missing after the renaming.  Otherwise the result has the output
   * columns, one row per row that got a date and has no missing cell, the
   * parsed timestamps first, and every other cell carried over from its input
   * column, converted to a number in the seven measurement columns.
   */
  method CleanWeatherData<S>(f: Frame<S>, start: Date, end: Date, parse: (Date, string) -> Option<S>)
    returns (r: Result<Frame<S>, CleanError>)
    requires WellFormed(f) && ScrapedCells(f) && Valid(start) && Valid(end)
    requires Distinct(OutputColumns(f))
    ensures Overflows(BlankPattern(f), start) ==> r == Failure(DateOverflow)
    ensures !Overflows(BlankPattern(f), start) && "Time" !in f.columns ==> r == Failure(MissingColumn("Time"))
    ensures !Overflows(BlankPattern(f), start) && "Time" in f.columns ==>
      match FirstAbsent(NumericColumns, OutputColumns(f))
      case Some(col) => r == Failure(MissingColumn(col))
      case None => r.Success?
    ensures r.Success? ==> !Overflows(BlankPattern(f), start) && "Time" in f.columns && Cleaned(f, start, end, parse, r.value)
  {
    var dated := ReconstructDates(f, start, end);
    if dated.Failure? {
      return Failure(dated.error);
    }
    var ds := dated.value;
    var df := SetColumn(f, "date", DateCells(ds));
    df := DropNa(df);
    if "Time" !in df.columns {
      return Failure(MissingColumn("Time"));
    }
    ArrangedPipeline(f, ds, parse);
    df := SetColumn(df, "datetime", Timestamps(df.data["date"], df.data["Time"], parse));
    df := MoveToFront(df, "datetime");
    df := DropColumns(df, {"Time", "date"});
    df := RenameColumns(df, RenameMap);
    r := ConvertMeasurements(df);
    if r.Success? {
      CleanedFrom(f, ds, parse, df, r.value);
    }
  }
}
