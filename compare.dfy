/**
 * The comparison tab: for one question group, the per-year satisfaction tables
 * are put side by side in a frame `c`, one column per year (`c[a] = aux[a]`).
 * While `c` has no rows, assigning a non-empty column gives `c` that column's
 * row labels, and the columns assigned before it (all empty) become all NaN.
 * Every other assignment is aligned to the labels `c` already has, so an item
 * the first year with rows lacks is dropped and an item a year lacks gets NaN.
 */
module Compare {
  import opened Wrappers
  import opened OrderedDict
  import opened Indicator

  /** One year's table for the group, `da['df'].iloc[0]`: rows of (item name, index). */
  datatype YearTable = YearTable(year: string, rows: seq<IndicatorRow>)

  /** A column of `c`: an index, or `None` for NaN. */
  type Cells = seq<Option<real>>

  /** The frame `c`: its row labels, its column labels (years) in order, and its columns keyed by year. */
  datatype Comparison = Comparison(names: seq<string>, years: seq<string>, columns: map<string, Cells>)

  /** The row labels of a year's table. */
  function Names(rows: seq<IndicatorRow>): (ns: seq<string>)
    ensures |ns| == |rows| && forall i :: 0 <= i < |rows| ==> ns[i] == rows[i].name
  {
    seq(|rows|, i requires 0 <= i < |rows| => rows[i].name)
  }

  /** The column of the year that gives `c` its rows, taken as it stands. */
  function Positional(rows: seq<IndicatorRow>): (cells: Cells)
    ensures |cells| == |rows| && forall i :: 0 <= i < |rows| ==> cells[i] == Some(rows[i].index)
  {
    seq(|rows|, i requires 0 <= i < |rows| => Some(rows[i].index))
  }

  /** The first row at or after `from` that carries the label. */
  function FirstFrom(rows: seq<IndicatorRow>, name: string, from: nat): (r: Option<nat>)
    requires from <= |rows|
    ensures r.Some? ==> (from <= r.value < |rows| && rows[r.value].name == name
      && forall j :: from <= j < r.value ==> rows[j].name != name)
    ensures r.None? ==> forall j :: from <= j < |rows| ==> rows[j].name != name
    decreases |rows| - from
  {
    if from == |rows| then None
    else if rows[from].name == name then Some(from)
    else FirstFrom(rows, name, from + 1)
  }

  /** The value a label selects in a year's table: its first row with that label, or NaN when there is none. */
  function Lookup(rows: seq<IndicatorRow>, name: string): Option<real> {
    match FirstFrom(rows, name, 0)
    case None => None
    case Some(i) => Some(rows[i].index)
  }

  /** A label selects NaN exactly when no row of the year's table carries it. */
  lemma {:induction false} LookupMissing(rows: seq<IndicatorRow>, name: string)
    ensures Lookup(rows, name).None? <==> forall i :: 0 <= i < |rows| ==> rows[i].name != name
  {
  }

  /** A label that a year's table has selects the index of its first row with that label. */
  lemma {:induction false} LookupFirst(rows: seq<IndicatorRow>, name: string, i: nat)
    requires i < |rows| && rows[i].name == name
    requires forall j :: 0 <= j < i ==> rows[j].name != name
    ensures Lookup(rows, name) == Some(rows[i].index)
  {
    var r := FirstFrom(rows, name, 0);
    assert r.Some? && r.value == i;
  }

  /** Any other year's column, aligned to the row labels of `c`. */
  function Aligned(names: seq<string>, rows: seq<IndicatorRow>): (cells: Cells)
    ensures |cells| == |names| && forall i :: 0 <= i < |names| ==> cells[i] == Lookup(rows, names[i])
  {
    seq(|names|, i requires 0 <= i < |names| => Lookup(rows, names[i]))
  }

  /** A column of `n` NaN cells. */
  function Blanks(n: nat): (cells: Cells)
    ensures |cells| == n && forall i :: 0 <= i < n ==> cells[i].None?
  {
    seq(n, i => None)
  }

  /** Re-indexing a frame without rows to `n` rows: every column becomes `n` NaN cells. */
  function Reindex(columns: map<string, Cells>, n: nat): (r: map<string, Cells>)
    ensures forall y :: y in r <==> y in columns
    ensures forall y :: y in r ==> r[y] == Blanks(n)
  {
    map y | y in columns :: Blanks(n)
  }

  /**
   * `c[a] = aux[a]` for one year. A new year goes last among the columns. While
   * `c` has no rows, a table with rows gives `c` its labels and re-indexes the
   * columns already there; otherwise the year's indexes are aligned to the
   * labels `c` has.
   */
  function Assign(c: Comparison, t: YearTable): Comparison {
    var years := if t.year in c.columns then c.years else c.years + [t.year];
    if c.names == [] && |t.rows| > 0 then
      Comparison(Names(t.rows), years, Reindex(c.columns, |t.rows|)[t.year := Positional(t.rows)])
    else Comparison(c.names, years, c.columns[t.year := Aligned(c.names, t.rows)])
  }

  /** `c` after the loop has assigned the columns of the first `k` years. */
  function CompareUpTo(tables: seq<YearTable>, k: nat): Comparison
    requires k <= |tables|
  {
    if k == 0 then Comparison([], [], map[]) else Assign(CompareUpTo(tables, k - 1), tables[k - 1])
  }

  /** `c = pd.DataFrame()` and the loop `c[a] = aux[a]` over the years in order. */
  method CompareYears(tables: seq<YearTable>) returns (c: Comparison)
    ensures c == CompareUpTo(tables, |tables|)
  {
    c := Comparison([], [], map[]);
    for k := 0 to |tables|
      invariant c == CompareUpTo(tables, k)
    {
      var t := tables[k];
      var years := if t.year in c.columns then c.years else c.years + [t.year];
      if c.names == [] && |t.rows| > 0 {
        c := Comparison(Names(t.rows), years, Reindex(c.columns, |t.rows|)[t.year := Positional(t.rows)]);
      } else {
        c := Comparison(c.names, years, c.columns[t.year := Aligned(c.names, t.rows)]);
      }
    }
  }

  /** Years listed once each, as the keys of a `groupby` are. */
  ghost predicate DistinctYears(tables: seq<YearTable>) {
    forall i, j :: 0 <= i < j < |tables| ==> tables[i].year != tables[j].year
  }

  /** The first of the first `k` years whose table has a row. */
  function FirstWithRows(tables: seq<YearTable>, k: nat): (r: Option<nat>)
    requires k <= |tables|
    ensures r.Some? ==> r.value < k && |tables[r.value].rows| > 0
    ensures r.Some? ==> forall j :: 0 <= j < r.value ==> |tables[j].rows| == 0
    ensures r.None? ==> forall j :: 0 <= j < k ==> |tables[j].rows| == 0
  {
    if k == 0 then None
    else
      var prev := FirstWithRows(tables, k - 1);
      if prev.Some? then prev
      else if |tables[k - 1].rows| > 0 then Some(k - 1)
      else None
  }

  /** The row labels `c` should have after `k` years: those of the first year with rows, or none. */
  function RowLabels(tables: seq<YearTable>, k: nat): seq<string>
    requires k <= |tables|
  {
    match FirstWithRows(tables, k)
    case None => []
    case Some(f) => Names(tables[f].rows)
  }

  /**
   * One more year: if no earlier year had rows and this one has, it becomes the
   * first year with rows and gives the labels; otherwise both stay as they were.
   */
  lemma {:induction false} RowLabelsStep(tables: seq<YearTable>, k: nat)
    requires 0 < k <= |tables|
    ensures RowLabels(tables, k - 1) == [] <==> FirstWithRows(tables, k - 1).None?
    ensures RowLabels(tables, k - 1) == [] && |tables[k - 1].rows| > 0 ==>
      FirstWithRows(tables, k) == Some(k - 1) && RowLabels(tables, k) == Names(tables[k - 1].rows)
    ensures !(RowLabels(tables, k - 1) == [] && |tables[k - 1].rows| > 0) ==>
      FirstWithRows(tables, k) == FirstWithRows(tables, k - 1) && RowLabels(tables, k) == RowLabels(tables, k - 1)
  {
    match FirstWithRows(tables, k - 1)
    case None =>
    case Some(f) =>
      assert |Names(tables[f].rows)| > 0;
  }

  /** `c`'s row labels are those of the first year with rows, and it has none while no year had rows. */
  lemma {:induction false} CompareNames(tables: seq<YearTable>, k: nat)
    requires k <= |tables|
    ensures CompareUpTo(tables, k).names == RowLabels(tables, k)
  {
    if k > 0 {
      CompareNames(tables, k - 1);
      RowLabelsStep(tables, k);
    }
  }

  /** `len(c) > 0`, the condition for showing the table, holds exactly when some year's table has a row. */
  lemma {:induction false} ShownIffSomeRows(tables: seq<YearTable>)
    ensures |CompareUpTo(tables, |tables|).names| > 0 <==> exists j :: 0 <= j < |tables| && |tables[j].rows| > 0
  {
    CompareNames(tables, |tables|);
    match FirstWithRows(tables, |tables|)
    case None =>
    case Some(f) =>
      assert |Names(tables[f].rows)| > 0;
  }

  /** The years of the first `k` tables, in order. */
  function YearsOf(tables: seq<YearTable>, k: nat): (ys: seq<string>)
    requires k <= |tables|
    ensures |ys| == k
  {
    if k == 0 then [] else YearsOf(tables, k - 1) + [tables[k - 1].year]
  }

  /** The `i`th of the listed years is the `i`th table's. */
  lemma {:induction false} YearsOfAt(tables: seq<YearTable>, k: nat, i: nat)
    requires i < k <= |tables|
    ensures YearsOf(tables, k)[i] == tables[i].year
  {
    if i < k - 1 {
      YearsOfAt(tables, k - 1, i);
    }
  }

  /** With the years listed once each, a table's year is not among those of the tables before it. */
  lemma {:induction false} YearNotYet(tables: seq<YearTable>, k: nat, m: nat)
    requires k <= m < |tables| && DistinctYears(tables)
    ensures tables[m].year !in YearsOf(tables, k)
  {
    if k > 0 {
      YearNotYet(tables, k - 1, m);
      assert tables[k - 1].year != tables[m].year;
    }
  }

  /** `c`'s column labels are exactly the years it has columns for, listed once each, as a frame's are. */
  lemma {:induction false} CompareFrame(tables: seq<YearTable>, k: nat)
    requires k <= |tables|
    ensures Dict(CompareUpTo(tables, k).years, CompareUpTo(tables, k).columns).Valid()
  {
    if k > 0 {
      CompareFrame(tables, k - 1);
    }
  }

  /** With the years listed once each, `c` has one column per year assigned, in year order. */
  lemma {:induction false} CompareKeys(tables: seq<YearTable>, k: nat)
    requires k <= |tables| && DistinctYears(tables)
    ensures CompareUpTo(tables, k).years == YearsOf(tables, k)
  {
    if k > 0 {
      CompareKeys(tables, k - 1);
      CompareFrame(tables, k - 1);
      YearNotYet(tables, k - 1, k - 1);
    }
  }

  /** With the years listed once each, `c`'s rows are the first year with rows' items and it has one column per year, in order. */
  lemma {:induction false} CompareShape(tables: seq<YearTable>, k: nat)
    requires k <= |tables| && DistinctYears(tables)
    ensures CompareUpTo(tables, k).names == RowLabels(tables, k)
    ensures |CompareUpTo(tables, k).years| == k
    ensures forall i :: 0 <= i < k ==> CompareUpTo(tables, k).years[i] == tables[i].year
  {
    CompareNames(tables, k);
    CompareKeys(tables, k);
    forall i | 0 <= i < k
      ensures CompareUpTo(tables, k).years[i] == tables[i].year
    {
      YearsOfAt(tables, k, i);
    }
  }

  /** Aligning a table without rows to any labels gives NaN throughout. */
  lemma {:induction false} AlignedNoRows(names: seq<string>, rows: seq<IndicatorRow>)
    requires |rows| == 0
    ensures Aligned(names, rows) == Blanks(|names|)
  {
    forall i | 0 <= i < |names|
      ensures Lookup(rows, names[i]).None?
    {
      LookupMissing(rows, names[i]);
    }
  }

  /** The column `Assign` gives the year it assigns. */
  lemma {:induction false} AssignOwn(c: Comparison, t: YearTable)
    ensures t.year in Assign(c, t).columns
    ensures Assign(c, t).columns[t.year] ==
      if c.names == [] && |t.rows| > 0 then Positional(t.rows) else Aligned(c.names, t.rows)
  {
  }

  /** What `Assign` leaves of the column of another year: NaN throughout if it gives `c` its rows, the column as it was otherwise. */
  lemma {:induction false} AssignOther(c: Comparison, t: YearTable, y: string)
    requires y in c.columns && y != t.year
    ensures y in Assign(c, t).columns
    ensures Assign(c, t).columns[y] ==
      if c.names == [] && |t.rows| > 0 then Blanks(|t.rows|) else c.columns[y]
  {
  }

  /** The statement of `CompareColumn` for the year assigned last. */
  lemma {:induction false} NewColumn(tables: seq<YearTable>, k: nat)
    requires 0 < k <= |tables|
    ensures tables[k - 1].year in CompareUpTo(tables, k).columns
    ensures CompareUpTo(tables, k).columns[tables[k - 1].year] ==
      if FirstWithRows(tables, k) == Some(k - 1) then Positional(tables[k - 1].rows)
      else Aligned(RowLabels(tables, k), tables[k - 1].rows)
  {
    var c := CompareUpTo(tables, k - 1);
    var t := tables[k - 1];
    assert CompareUpTo(tables, k) == Assign(c, t);
    CompareNames(tables, k - 1);
    RowLabelsStep(tables, k);
    AssignOwn(c, t);
    if c.names == [] && |t.rows| > 0 {
      assert FirstWithRows(tables, k) == Some(k - 1);
    } else {
      assert FirstWithRows(tables, k) == FirstWithRows(tables, k - 1) && RowLabels(tables, k) == c.names;
    }
  }

  /** The statement of `CompareColumn` for a year before the one that gives `c` its rows: NaN throughout. */
  lemma {:induction false} BlankedColumn(tables: seq<YearTable>, k: nat, i: nat)
    requires i < k - 1 && k <= |tables| && DistinctYears(tables)
    requires CompareUpTo(tables, k - 1).names == [] && |tables[k - 1].rows| > 0
    ensures tables[i].year in CompareUpTo(tables, k).columns
    ensures CompareUpTo(tables, k).columns[tables[i].year] ==
      if FirstWithRows(tables, k) == Some(i) then Positional(tables[i].rows)
      else Aligned(RowLabels(tables, k), tables[i].rows)
    decreases k, 0
  {
    var c := CompareUpTo(tables, k - 1);
    var t := tables[k - 1];
    var y := tables[i].year;
    assert CompareUpTo(tables, k) == Assign(c, t);
    CompareNames(tables, k - 1);
    RowLabelsStep(tables, k);
    CompareColumn(tables, k - 1, i);
    assert y != t.year;
    AssignOther(c, t, y);
    assert FirstWithRows(tables, k) == Some(k - 1) && RowLabels(tables, k) == Names(t.rows);
    AlignedNoRows(Names(t.rows), tables[i].rows);
  }

  /** The statement of `CompareColumn` for an earlier year, across a step that keeps `c`'s rows. */
  lemma {:induction false} KeptColumn(tables: seq<YearTable>, k: nat, i: nat)
    requires i < k - 1 && k <= |tables| && DistinctYears(tables)
    requires !(CompareUpTo(tables, k - 1).names == [] && |tables[k - 1].rows| > 0)
    ensures tables[i].year in CompareUpTo(tables, k).columns
    ensures CompareUpTo(tables, k).columns[tables[i].year] ==
      if FirstWithRows(tables, k) == Some(i) then Positional(tables[i].rows)
      else Aligned(RowLabels(tables, k), tables[i].rows)
    decreases k, 0
  {
    var c := CompareUpTo(tables, k - 1);
    var t := tables[k - 1];
    var y := tables[i].year;
    assert CompareUpTo(tables, k) == Assign(c, t);
    CompareNames(tables, k - 1);
    RowLabelsStep(tables, k);
    CompareColumn(tables, k - 1, i);
    assert y != t.year;
    AssignOther(c, t, y);
    assert FirstWithRows(tables, k) == FirstWithRows(tables, k - 1) && RowLabels(tables, k) == c.names;
  }

  /**
   * With the years listed once each, the column of the first year with rows
   * holds that year's indexes as they stand, and every other year's column
   * holds, for each row of `c`, the index that year gives the row's item (NaN
   * throughout for a year before it, which has no rows).
   */
  lemma {:induction false} CompareColumn(tables: seq<YearTable>, k: nat, i: nat)
    requires i < k <= |tables| && DistinctYears(tables)
    ensures tables[i].year in CompareUpTo(tables, k).columns
    ensures CompareUpTo(tables, k).columns[tables[i].year] ==
      if FirstWithRows(tables, k) == Some(i) then Positional(tables[i].rows)
      else Aligned(RowLabels(tables, k), tables[i].rows)
    decreases k, 1
  {
    if i == k - 1 {
      NewColumn(tables, k);
    } else if CompareUpTo(tables, k - 1).names == [] && |tables[k - 1].rows| > 0 {
      BlankedColumn(tables, k, i);
    } else {
      KeptColumn(tables, k, i);
    }
  }

  /**
   * In the table shown, with `f` the first year with rows: an item of another
   * year that year `f` lacks has no row; a row whose item a year lacks is NaN
   * in that year's column, and every year before `f` is NaN throughout.
   */
  lemma {:induction false} AlignmentDropsAndBlanks(tables: seq<YearTable>, f: nat, i: nat, r: nat)
    requires DistinctYears(tables) && FirstWithRows(tables, |tables|) == Some(f)
    requires i < |tables| && i != f && r < |tables[f].rows|
    ensures var c := CompareUpTo(tables, |tables|);
      && tables[i].year in c.columns && |c.names| == |tables[f].rows|
      && r < |c.columns[tables[i].year]|
      && (c.columns[tables[i].year][r].None? <==>
          forall j :: 0 <= j < |tables[i].rows| ==> tables[i].rows[j].name != tables[f].rows[r].name)
      && (i < f ==> c.columns[tables[i].year][r].None?)
    ensures forall name :: name !in Names(tables[f].rows) ==> name !in CompareUpTo(tables, |tables|).names
  {
    CompareNames(tables, |tables|);
    CompareColumn(tables, |tables|, i);
    LookupMissing(tables[i].rows, tables[f].rows[r].name);
  }

  /** When the first year's items have distinct names, its column is also what aligning by name would give. */
  lemma {:induction false} FirstColumnIsAligned(rows: seq<IndicatorRow>)
    requires forall i, j :: 0 <= i < j < |rows| ==> rows[i].name != rows[j].name
    ensures Positional(rows) == Aligned(Names(rows), rows)
  {
    forall i | 0 <= i < |rows|
      ensures Lookup(rows, rows[i].name) == Some(rows[i].index)
    {
      LookupFirst(rows, rows[i].name, i);
    }
  }
}
