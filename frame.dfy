/**
 * The part of a pandas DataFrame the cleaning step relies on: named columns in
 * order, one sequence of cells per column, and a row count.  The operations
 * are the DataFrame calls `clean_weather_data` makes, each producing the new
 * frame the variable `df` is reassigned to.
 */
module Frame {
  import opened Wrappers
  import opened Calendar
  import opened Numbers

  /** One cell: pandas' missing value (None, NaN, NaT), scraped text, a date, a parsed timestamp, or a number. */
  datatype Cell<S> = Missing | Text(text: string) | Day(date: Date) | Stamp(stamp: S) | Number(value: Decimal)

  datatype Frame<S> = Frame(columns: seq<string>, data: map<string, seq<Cell<S>>>, height: nat)

  predicate Distinct(xs: seq<string>) {
    forall i, j :: 0 <= i < j < |xs| ==> xs[i] != xs[j]
  }

  /** Column names are distinct, each has a column of cells, and all columns have `height` cells. */
  ghost predicate WellFormed<S>(f: Frame<S>) {
    && Distinct(f.columns)
    && (forall c :: c in f.columns <==> c in f.data)
    && (forall c :: c in f.data ==> |f.data[c]| == f.height)
  }

  /** `row.isnull().all()`, checked column by column: holds exactly when every cell of row `i` is missing. */
  predicate IsBlankRow<S>(f: Frame<S>, i: nat): (b: bool)
    requires WellFormed(f) && i < f.height
    ensures b <==> forall c :: c in f.columns ==> f.data[c][i].Missing?
  {
    AllMissingMeans(f, f.columns, i);
    AllMissing(f, f.columns, i)
  }

  /** The cells of row `i` in the columns `cs` are all missing, checked column by column. */
  predicate AllMissing<S>(f: Frame<S>, cs: seq<string>, i: nat)
    requires WellFormed(f) && i < f.height && forall c :: c in cs ==> c in f.columns
  {
    cs == [] || (f.data[cs[0]][i].Missing? && AllMissing(f, cs[1..], i))
  }

  lemma {:induction false} AllMissingMeans<S>(f: Frame<S>, cs: seq<string>, i: nat)
    requires WellFormed(f) && i < f.height && forall c :: c in cs ==> c in f.columns
    ensures AllMissing(f, cs, i) <==> forall c :: c in cs ==> f.data[c][i].Missing?
    decreases |cs|
  {
    if cs != [] {
      AllMissingMeans(f, cs[1..], i);
      assert forall c :: c in cs <==> c == cs[0] || c in cs[1..];
    }
  }

  /** Row `i` has no missing cell: `dropna` keeps it. */
  predicate IsCompleteRow<S>(f: Frame<S>, i: nat)
    requires WellFormed(f) && i < f.height
  {
    forall c :: c in f.columns ==> !f.data[c][i].Missing?
  }

  /** The elements of `xs` at the indices `ks`, in the order of `ks`. */
  function Select<T>(xs: seq<T>, ks: seq<nat>): (ys: seq<T>)
    requires forall k :: 0 <= k < |ks| ==> ks[k] < |xs|
    ensures |ys| == |ks| && forall k :: 0 <= k < |ks| ==> ys[k] == xs[ks[k]]
  {
    seq(|ks|, k requires 0 <= k < |ks| => xs[ks[k]])
  }

  /** The names of `xs` that are not in `drop`, in their order. */
  function Without(xs: seq<string>, drop: set<string>): (ys: seq<string>)
    ensures forall y :: y in ys <==> y in xs && y !in drop
  {
    if xs == [] then []
    else Without(xs[..|xs| - 1], drop) + (if xs[|xs| - 1] in drop then [] else [xs[|xs| - 1]])
  }

  lemma {:induction false} WithoutDistinct(xs: seq<string>, drop: set<string>)
    requires Distinct(xs)
    ensures Distinct(Without(xs, drop))
    decreases |xs|
  {
    if xs != [] {
      WithoutDistinct(xs[..|xs| - 1], drop);
    }
  }

  lemma {:induction false} WithoutAppendDropped(xs: seq<string>, y: string, drop: set<string>)
    requires y in drop
    ensures Without(xs + [y], drop) == Without(xs, drop)
  {
    assert (xs + [y])[..|xs + [y]| - 1] == xs;
  }

  lemma {:induction false} WithoutPrepend(x: string, ys: seq<string>, drop: set<string>)
    requires x !in drop
    ensures Without([x] + ys, drop) == [x] + Without(ys, drop)
    decreases |ys|
  {
    if ys != [] {
      var init := ys[..|ys| - 1];
      WithoutPrepend(x, init, drop);
      assert ([x] + ys)[..|[x] + ys| - 1] == [x] + init;
    }
  }

  lemma {:induction false} WithoutWithout(xs: seq<string>, a: set<string>, b: set<string>)
    ensures Without(Without(xs, a), b) == Without(xs, a + b)
    decreases |xs|
  {
    if xs != [] {
      var init := xs[..|xs| - 1];
      var x := xs[|xs| - 1];
      WithoutWithout(init, a, b);
      var w := Without(init, a);
      if x !in a {
        assert Without(xs, a) == w + [x];
        assert (w + [x])[..|w + [x]| - 1] == w;
        assert Without(w + [x], b) == Without(w, b) + (if x in b then [] else [x]);
      } else {
        assert Without(xs, a) == w;
      }
      assert Without(xs, a + b) == Without(init, a + b) + (if x in a + b then [] else [x]);
    }
  }

  /** `df[name] = values`: replaces the column of that name, or appends a new last column. */
  function SetColumn<S>(f: Frame<S>, name: string, values: seq<Cell<S>>): (g: Frame<S>)
    requires WellFormed(f) && |values| == f.height
    ensures WellFormed(g) && g.height == f.height
    ensures g.columns == if name in f.columns then f.columns else f.columns + [name]
    ensures g.data == f.data[name := values]
  {
    Frame(if name in f.columns then f.columns else f.columns + [name], f.data[name := values], f.height)
  }

  /** The increasing indices of the complete rows among the first `n`. */
  function CompleteRows<S>(f: Frame<S>, n: nat): (ks: seq<nat>)
    requires WellFormed(f) && n <= f.height
    ensures forall k :: 0 <= k < |ks| ==> ks[k] < n && IsCompleteRow(f, ks[k])
    ensures forall i {:trigger IsCompleteRow(f, i), i in ks} :: 0 <= i < n && IsCompleteRow(f, i) ==> i in ks
    ensures forall k, l :: 0 <= k < l < |ks| ==> ks[k] < ks[l]
  {
    if n == 0 then []
    else CompleteRows(f, n - 1) + (if IsCompleteRow(f, n - 1) then [n - 1] else [])
  }

  /** `df.dropna()`: keeps the complete rows, in their order, and every column. */
  function DropNa<S>(f: Frame<S>): (g: Frame<S>)
    requires WellFormed(f)
    ensures WellFormed(g) && g.columns == f.columns
    ensures g.height == |CompleteRows(f, f.height)|
    ensures forall c :: c in f.data ==> g.data[c] == Select(f.data[c], CompleteRows(f, f.height))
  {
    var ks := CompleteRows(f, f.height);
    Frame(f.columns, map c | c in f.data :: Select(f.data[c], ks), |ks|)
  }

  /** After `dropna` no cell is missing. */
  lemma DropNaComplete<S>(f: Frame<S>)
    requires WellFormed(f)
    ensures forall i :: 0 <= i < DropNa(f).height ==> IsCompleteRow(DropNa(f), i)
  {
    var g := DropNa(f);
    var ks := CompleteRows(f, f.height);
    forall i | 0 <= i < g.height ensures IsCompleteRow(g, i) {
      forall c | c in g.columns ensures !g.data[c][i].Missing? {
        assert g.data[c][i] == f.data[c][ks[i]];
      }
    }
  }

  /** `df[[name] + [c for c in df.columns if c != name]]`: the named column moves first. */
  function MoveToFront<S>(f: Frame<S>, name: string): (g: Frame<S>)
    requires WellFormed(f) && name in f.columns
    ensures WellFormed(g) && g.height == f.height && g.data == f.data
    ensures g.columns == [name] + Without(f.columns, {name})
  {
    WithoutDistinct(f.columns, {name});
    Frame([name] + Without(f.columns, {name}), f.data, f.height)
  }

  /** `df.drop(columns=names)`: every other column keeps its place and cells. */
  function DropColumns<S>(f: Frame<S>, names: set<string>): (g: Frame<S>)
    requires WellFormed(f) && forall c :: c in names ==> c in f.columns
    ensures WellFormed(g) && g.height == f.height
    ensures g.columns == Without(f.columns, names)
    ensures forall c :: c in g.data ==> g.data[c] == f.data[c]
  {
    WithoutDistinct(f.columns, names);
    Frame(Without(f.columns, names), map c | c in f.data && c !in names :: f.data[c], f.height)
  }

  /** The column map of a renamed frame: the cells of `cs[j]` under its new name. */
  function RenamedData<S>(cs: seq<string>, data: map<string, seq<Cell<S>>>, m: map<string, string>): map<string, seq<Cell<S>>>
    requires Distinct(RenameAll(cs, m)) && forall c :: c in cs ==> c in data
  {
    map j | 0 <= j < |cs| :: RenameOne(cs[j], m) := data[cs[j]]
  }

  /** The renamed map has a column under each new name and no other. */
  lemma RenamedDataDomain<S>(cs: seq<string>, data: map<string, seq<Cell<S>>>, m: map<string, string>)
    requires Distinct(RenameAll(cs, m)) && forall c :: c in cs ==> c in data
    ensures forall c :: c in RenamedData(cs, data, m) <==> c in RenameAll(cs, m)
  {
    var d := RenamedData(cs, data, m);
    var rs := RenameAll(cs, m);
    forall c ensures c in d <==> c in rs {
      if c in rs {
        var j :| 0 <= j < |cs| && rs[j] == c;
      }
      if c in d {
        var j :| 0 <= j < |cs| && RenameOne(cs[j], m) == c;
        assert rs[j] == c;
      }
    }
  }

  /** Under its new name, each column keeps its cells. */
  lemma RenamedDataValues<S>(cs: seq<string>, data: map<string, seq<Cell<S>>>, m: map<string, string>)
    requires Distinct(RenameAll(cs, m)) && forall c :: c in cs ==> c in data
    ensures forall c :: c in cs ==>
      (RenameOne(c, m) in RenamedData(cs, data, m) && RenamedData(cs, data, m)[RenameOne(c, m)] == data[c])
  {
    var d := RenamedData(cs, data, m);
    forall c | c in cs ensures RenameOne(c, m) in d && d[RenameOne(c, m)] == data[c] {
      var j :| 0 <= j < |cs| && cs[j] == c;
      assert RenameAll(cs, m)[j] == RenameOne(c, m);
    }
  }

  /**
   * `df.rename(columns=m, inplace=True)`: column `c` is called `m[c]` when `c`
   * is a key of `m` and keeps its name otherwise; order and cells are unchanged.
   */
  function RenameColumns<S>(f: Frame<S>, m: map<string, string>): (g: Frame<S>)
    requires WellFormed(f) && Distinct(RenameAll(f.columns, m))
    ensures WellFormed(g) && g.height == f.height
    ensures g.columns == RenameAll(f.columns, m)
    ensures forall c :: c in f.columns ==> g.data[RenameOne(c, m)] == f.data[c]
  {
    RenamedDataDomain(f.columns, f.data, m);
    RenamedDataValues(f.columns, f.data, m);
    Frame(RenameAll(f.columns, m), RenamedData(f.columns, f.data, m), f.height)
  }

  /** The new name of one column under the renaming `m`. */
  function RenameOne(c: string, m: map<string, string>): string {
    if c in m then m[c] else c
  }

  function RenameAll(cs: seq<string>, m: map<string, string>): (rs: seq<string>)
    ensures |rs| == |cs| && forall j :: 0 <= j < |cs| ==> rs[j] == RenameOne(cs[j], m)
  {
    seq(|cs|, j requires 0 <= j < |cs| => RenameOne(cs[j], m))
  }

  /** A renamed list holds the new name of each of its old names. */
  lemma RenameAllMember(cs: seq<string>, c: string, m: map<string, string>)
    requires c in cs
    ensures RenameOne(c, m) in RenameAll(cs, m)
  {
    var j :| 0 <= j < |cs| && cs[j] == c;
    assert RenameAll(cs, m)[j] == RenameOne(c, m);
  }
}
