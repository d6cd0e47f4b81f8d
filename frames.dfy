/**
 * The pandas DataFrame of survey responses, as far as the pipeline uses it:
 * named columns in insertion order, all of one length, holding text or a
 * missing value. The rare-value suppressor (`remove_single_occurrences`) and
 * `fillna('', inplace=True)` rewrite its columns in place.
 */
module Frames {
  import opened OrderedDict

  /** One cell: `Null` is pandas' None/NaN, which `value_counts` does not count. */
  datatype Cell = Null | Str(s: string)

  type Column = seq<Cell>

  /** How often the value `v` occurs in a column (one entry of `value_counts()`). */
  function Occurrences(col: Column, v: string): (c: nat)
    ensures c <= |col|
  {
    if col == [] then 0
    else (if col[0] == Str(v) then 1 else 0) + Occurrences(col[1..], v)
  }

  /** A value is counted exactly when it occurs somewhere in the column. */
  lemma {:induction false} OccurrencesPositive(col: Column, v: string)
    ensures Occurrences(col, v) > 0 <==> Str(v) in col
  {
    if col != [] {
      OccurrencesPositive(col[1..], v);
      assert col == [col[0]] + col[1..];
    }
  }

  /** `value_counts[value_counts <= n].index`: the values seen at least once and at most `n` times. */
  function RareValues(col: Column, n: int): (rare: set<string>)
    ensures forall v :: v in rare <==> 0 < Occurrences(col, v) <= n
  {
    var rare := set i | 0 <= i < |col| && col[i].Str? && Occurrences(col, col[i].s) <= n :: col[i].s;
    assert forall v :: v in rare <==> 0 < Occurrences(col, v) <= n by {
      forall v
        ensures v in rare <==> 0 < Occurrences(col, v) <= n
      {
        OccurrencesPositive(col, v);
        if 0 < Occurrences(col, v) <= n {
          var i :| 0 <= i < |col| && col[i] == Str(v);
        }
      }
    }
    rare
  }

  /** The cell after `apply(lambda x: x if x not in to_remove else None)`. */
  function Wipe(c: Cell, rare: set<string>): Cell {
    if c.Str? && c.s in rare then Null else c
  }

  /** The column after the `apply`: same length, rare values replaced by `Null` cell by cell. */
  function Scrub(col: Column, rare: set<string>): (r: Column)
    ensures |r| == |col|
    ensures forall i :: 0 <= i < |col| ==> r[i] == Wipe(col[i], rare)
  {
    if col == [] then [] else [Wipe(col[0], rare)] + Scrub(col[1..], rare)
  }

  /**
   * One column after suppression: a value occurring at most `n` times in this
   * column becomes `Null` wherever it occurs; every other cell, missing ones
   * included, is left as it was; the length does not change.
   */
  function SuppressColumn(col: Column, n: int): (r: Column)
    ensures |r| == |col|
    ensures forall i :: 0 <= i < |col| ==> (r[i] == Null <==> col[i] == Null || Occurrences(col, col[i].s) <= n)
    ensures forall i :: 0 <= i < |col| && r[i] != Null ==> r[i] == col[i]
  {
    var r := Scrub(col, RareValues(col, n));
    assert forall i :: 0 <= i < |col| && col[i].Str? ==> Occurrences(col, col[i].s) > 0 by {
      forall i | 0 <= i < |col| && col[i].Str?
        ensures Occurrences(col, col[i].s) > 0
      {
        OccurrencesPositive(col, col[i].s);
      }
    }
    r
  }

  /** Scrubbing removes every occurrence of a rare value and keeps every occurrence of the others. */
  lemma {:induction false} OccurrencesScrub(col: Column, rare: set<string>, v: string)
    ensures Occurrences(Scrub(col, rare), v) == if v in rare then 0 else Occurrences(col, v)
  {
    if col != [] {
      OccurrencesScrub(col[1..], rare, v);
      assert Scrub(col, rare)[1..] == Scrub(col[1..], rare);
    }
  }

  /** After suppression a value occurs either not at all or exactly as often as before, and then more than `n` times. */
  lemma {:induction false} SuppressCounts(col: Column, n: int, v: string)
    ensures Occurrences(SuppressColumn(col, n), v) == if Occurrences(col, v) <= n then 0 else Occurrences(col, v)
  {
    OccurrencesScrub(col, RareValues(col, n), v);
  }

  /** Suppressing twice is suppressing once: `Null` cells are not counted, and surviving values keep their counts. */
  lemma {:induction false} SuppressIdempotent(col: Column, n: int)
    ensures SuppressColumn(SuppressColumn(col, n), n) == SuppressColumn(col, n)
  {
    var once := SuppressColumn(col, n);
    var twice := SuppressColumn(once, n);
    forall i | 0 <= i < |col|
      ensures twice[i] == once[i]
    {
      if once[i] != Null {
        SuppressCounts(col, n, once[i].s);
      }
    }
  }

  /** `fillna('')` on one column. */
  function FillColumn(col: Column): (r: Column)
    ensures |r| == |col|
    ensures forall i :: 0 <= i < |col| ==> r[i].Str?
    ensures forall i :: 0 <= i < |col| && col[i].Str? ==> r[i] == col[i]
  {
    if col == [] then [] else [if col[0] == Null then Str("") else col[0]] + FillColumn(col[1..])
  }

  /** The two whole-frame rewrites, each applied to one column at a time. */
  datatype ColumnOp = Suppress(n: int) | Fill

  function Apply(op: ColumnOp, col: Column): (r: Column)
    ensures |r| == |col|
  {
    match op
    case Suppress(n) => SuppressColumn(col, n)
    case Fill => FillColumn(col)
  }

  /** The rewrite as a function on columns. */
  function Op(op: ColumnOp): Column -> Column {
    col => Apply(op, col)
  }

  /** Every column suppressed on its own. */
  function SuppressAll(cols: Dict<Column>, n: int): (r: Dict<Column>)
    requires cols.Valid()
    ensures r.Valid() && r.keys == cols.keys
    ensures forall k :: k in cols.entries <==> k in r.entries
    ensures forall k :: k in cols.entries ==> r.entries[k] == SuppressColumn(cols.entries[k], n)
  {
    MapAll(cols, Op(Suppress(n)))
  }

  /** Every column with its missing cells filled with the empty string. */
  function FillAll(cols: Dict<Column>): (r: Dict<Column>)
    requires cols.Valid()
    ensures r.Valid() && r.keys == cols.keys
    ensures forall k :: k in cols.entries <==> k in r.entries
    ensures forall k :: k in cols.entries ==> r.entries[k] == FillColumn(cols.entries[k])
  {
    MapAll(cols, Op(Fill))
  }

  /** Every column has `rows` cells. */
  ghost predicate Rectangular(cols: Dict<Column>, rows: nat) {
    cols.Valid() && forall k :: k in cols.entries ==> |cols.entries[k]| == rows
  }

  /** Rewriting every column keeps every column `rows` long. */
  lemma {:induction false} RewriteKeepsShape(cols: Dict<Column>, rows: nat, op: ColumnOp)
    requires Rectangular(cols, rows)
    ensures Rectangular(MapAll(cols, Op(op)), rows)
  {
    var r := MapAll(cols, Op(op));
    forall k | k in r.entries
      ensures |r.entries[k]| == rows
    {
      assert r.entries[k] == Apply(op, cols.entries[k]);
    }
  }

  /** The suppressed table is again a table of the same number of rows, and suppressing it again changes nothing. */
  lemma {:induction false} SuppressAllShape(cols: Dict<Column>, rows: nat, n: int)
    requires Rectangular(cols, rows)
    ensures Rectangular(SuppressAll(cols, n), rows)
    ensures SuppressAll(SuppressAll(cols, n), n) == SuppressAll(cols, n)
  {
    var once := SuppressAll(cols, n);
    forall k | k in cols.entries
      ensures SuppressAll(once, n).entries[k] == once.entries[k]
    {
      SuppressIdempotent(cols.entries[k], n);
    }
  }

  /**
   * Counts are column-local: with n = 1, "x" is suppressed in a column where it
   * occurs once and kept in a column where it occurs three times.
   */
  lemma {:induction false} SuppressionIsPerColumn()
    ensures var a := [Str("x"), Str("y"), Str("y")];
      SuppressColumn(a, 1) == [Null, Str("y"), Str("y")]
    ensures var b := [Str("x"), Str("x"), Str("x")];
      SuppressColumn(b, 1) == b
  {
    var a := [Str("x"), Str("y"), Str("y")];
    assert Occurrences(a, "x") == 1;
    assert Occurrences(a, "y") == 2;
    var b := [Str("x"), Str("x"), Str("x")];
    assert Occurrences(b, "x") == 3;
  }

  class DataFrame {
    var columns: Dict<Column>
    var rows: nat

    ghost predicate Valid()
      reads this
    {
      Rectangular(columns, rows)
    }

    /** `pd.DataFrame()`: no columns and no rows. */
    constructor Empty()
      ensures Valid() && columns == OrderedDict.Empty() && rows == 0
    {
      columns := OrderedDict.Empty();
      rows := 0;
    }

    /** A frame as read from a file. */
    constructor (cols: Dict<Column>, n: nat)
      requires Rectangular(cols, n)
      ensures Valid() && columns == cols && rows == n
    {
      columns := cols;
      rows := n;
    }

    /**
     * `df[name] = col`. While the frame has no rows, the column gives it its
     * rows, and the columns already there (all empty) become missing values
     * throughout; once it has rows, the column must have one cell per row. A
     * new name goes last, an existing one is replaced where it stands.
     */
    method SetColumn(name: string, col: Column)
      requires Valid()
      requires rows == 0 || |col| == rows
      modifies this
      ensures Valid()
      ensures columns == (if old(rows) == 0 then Reindexed(old(columns), |col|) else old(columns)).Put(name, col)
      ensures rows == if old(rows) == 0 then |col| else old(rows)
    {
      if rows == 0 {
        columns := Reindexed(columns, |col|);
        rows := |col|;
      }
      columns := columns.Put(name, col);
    }

    /** `df[name] = None`: a column of missing values, one per row. */
    method SetMissing(name: string)
      requires Valid()
      modifies this
      ensures Valid()
      ensures columns == old(columns).Put(name, Nulls(old(rows)))
      ensures rows == old(rows)
    {
      columns := columns.Put(name, Nulls(rows));
    }

    /**
     * `df[column] = df[column].apply(...)` for the `i`th column of the frame
     * `start` the loop began with: that column is replaced where it stands.
     */
    method RewriteColumn(ghost start: Dict<Column>, i: nat, op: ColumnOp)
      requires start.Valid() && i < |start.keys|
      requires columns == MapFirst(start, Op(op), i)
      modifies this
      ensures columns == MapFirst(start, Op(op), i + 1)
      ensures rows == old(rows)
    {
      MapFirstStep(start, Op(op), i);
      var column := columns.keys[i];
      columns := Dict(columns.keys, columns.entries[column := Apply(op, columns.entries[column])]);
    }

    /** The loop over `df.columns` that replaces each column by `op` of itself. */
    method RewriteColumns(op: ColumnOp)
      requires Valid()
      modifies this
      ensures Valid()
      ensures columns == MapAll(old(columns), Op(op))
      ensures rows == old(rows)
    {
      ghost var start := columns;
      for i := 0 to |columns.keys|
        invariant columns == MapFirst(start, Op(op), i)
        invariant rows == old(rows)
      {
        RewriteColumn(start, i, op);
      }
      MapAllIsMapFirst(start, Op(op));
      RewriteKeepsShape(start, rows, op);
    }

    /** `remove_single_occurrences(df, n)`: every column rewritten in place with its rare values removed. */
    method RemoveSingleOccurrences(n: int)
      requires Valid()
      modifies this
      ensures Valid()
      ensures columns == SuppressAll(old(columns), n)
      ensures rows == old(rows)
    {
      RewriteColumns(Suppress(n));
    }

    /** `df.fillna('', inplace=True)`. */
    method FillNa()
      requires Valid()
      modifies this
      ensures Valid()
      ensures columns == FillAll(old(columns))
      ensures rows == old(rows)
    {
      RewriteColumns(Fill);
    }

    /** `df.drop(names, axis=1, errors='ignore', inplace=True)`: the listed columns that exist are removed. */
    method DropColumns(names: seq<string>)
      requires Valid()
      modifies this
      ensures Valid() && rows == old(rows)
      ensures columns == RemoveAll(old(columns), names)
    {
      ghost var start := columns;
      for i := 0 to |names|
        invariant columns == RemoveAll(start, names[..i])
        invariant Rectangular(columns, rows) && rows == old(rows)
      {
        assert names[..i + 1][..i] == names[..i];
        if names[i] in columns.entries {
          columns := columns.Remove(names[i]);
        }
      }
      assert names[..|names|] == names;
    }

    /**
     * `if len(df_selected) == 1: df_selected.drop(labels=df_selected.index[0], inplace=True)`:
     * a selection of a single respondent is emptied (same columns, no rows);
     * any other selection is left as it is.
     */
    method DropSingleRow()
      requires Valid()
      modifies this
      ensures Valid()
      ensures columns.keys == old(columns.keys)
      ensures forall k :: k in columns.entries <==> k in old(columns.entries)
      ensures old(rows) == 1 ==> rows == 0 && forall k :: k in columns.entries ==> columns.entries[k] == []
      ensures old(rows) != 1 ==> rows == old(rows) && columns == old(columns)
      ensures columns == SingleRowDropped(old(columns), old(rows))
    {
      if rows == 1 {
        columns := MapAll(columns, NoCells);
        rows := 0;
      }
    }
  }

  /** The columns of a frame without rows once it is given `n` rows: every column becomes `n` missing values, keys and order kept. */
  function Reindexed(cols: Dict<Column>, n: nat): (r: Dict<Column>)
    requires cols.Valid()
    ensures Rectangular(r, n) && r.keys == cols.keys
    ensures forall k :: k in r.entries <==> k in cols.entries
    ensures forall k :: k in r.entries ==> r.entries[k] == Nulls(n)
  {
    Dict(cols.keys, map k | k in cols.entries :: Nulls(n))
  }

  /** Re-indexing changes nothing when the frame has no columns, or when it stays without rows. */
  lemma {:induction false} ReindexedUnchanged(cols: Dict<Column>, n: nat)
    requires Rectangular(cols, 0) && (cols.keys == [] || n == 0)
    ensures Reindexed(cols, n) == cols
  {
    var r := Reindexed(cols, n);
    forall k | k in cols.entries
      ensures r.entries[k] == cols.entries[k]
    {
      assert k in cols.keys;
    }
    assert r.entries == cols.entries;
  }

  /** The columns of a frame of `rows` rows after `DropSingleRow`: emptied when there is exactly one row, kept otherwise. */
  function SingleRowDropped(cols: Dict<Column>, rows: nat): (r: Dict<Column>)
    requires cols.Valid()
    ensures r.Valid() && r.keys == cols.keys
    ensures forall k :: k in r.entries <==> k in cols.entries
    ensures rows == 1 ==> forall k :: k in r.entries ==> r.entries[k] == []
    ensures rows != 1 ==> r == cols
  {
    if rows == 1 then MapAll(cols, NoCells) else cols
  }

  /** A column with its cells removed. */
  function NoCells(col: Column): (r: Column)
    ensures r == []
  {
    []
  }

  /** A column of `n` missing values. */
  function Nulls(n: nat): (col: Column)
    ensures |col| == n && forall i :: 0 <= i < n ==> col[i] == Null
  {
    if n == 0 then [] else [Null] + Nulls(n - 1)
  }
}
