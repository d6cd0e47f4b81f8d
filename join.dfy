/**
 * The joiner (`include_subquestion`): every item of the flattened codebook is
 * given the response column stored under its code. The lenient variant drops
 * items whose code is not a column; the strict variant indexes `A[c]` and so
 * aborts with a KeyError on the first such item. Both read `Q['subquestions']`
 * first: a codebook without items gives a Q with no columns at all, and both
 * abort there with a KeyError for that label.
 */
module Join {
  import opened Wrappers
  import opened OrderedDict
  import opened Frames
  import opened Flattener

  /** A row of Q after `Q['data'] = l`: the item and its column's values in row order. */
  datatype JoinedItem = JoinedItem(item: Item, data: Column)

  /** pandas' KeyError for a column label that A (or Q) does not have. */
  datatype JoinError = KeyError(code: string)

  /** The label of Q's column of item codes. */
  const ItemColumn: string := "subquestions"

  // ---------------------------------------------------------------------------
  // Lenient join.
  // ---------------------------------------------------------------------------

  /** The joined table after the loop has seen the first `k` items. */
  function LenientUpTo(items: seq<Item>, cols: Dict<Column>, k: nat): seq<JoinedItem>
    requires k <= |items|
  {
    if k == 0 then []
    else
      var prev := LenientUpTo(items, cols, k - 1);
      var c := items[k - 1].code;
      if c in cols.entries then prev + [JoinedItem(items[k - 1], cols.entries[c])] else prev
  }

  /** The lenient join: Q without items has no `subquestions` column to read; otherwise the loop over all items. */
  function LenientJoin(items: seq<Item>, cols: Dict<Column>): Result<seq<JoinedItem>, JoinError> {
    if |items| == 0 then Err(KeyError(ItemColumn)) else Ok(LenientUpTo(items, cols, |items|))
  }

  /** The lenient loop: a code that is a column contributes its values, any other code is filtered out of Q. */
  method IncludeSubquestionLenient(items: seq<Item>, a: DataFrame) returns (r: Result<seq<JoinedItem>, JoinError>)
    requires a.Valid()
    ensures r == LenientJoin(items, a.columns)
  {
    if |items| == 0 {
      return Err(KeyError(ItemColumn));
    }
    var joined := [];
    for i := 0 to |items|
      invariant joined == LenientUpTo(items, a.columns, i)
    {
      var c := items[i].code;
      if c in a.columns.entries {
        joined := joined + [JoinedItem(items[i], a.columns.entries[c])];
      }
    }
    r := Ok(joined);
  }

  /** The positions in `items` of the items that survive, in increasing order. */
  function KeptPositions(items: seq<Item>, cols: Dict<Column>, k: nat): (pos: seq<nat>)
    requires k <= |items|
    ensures forall j :: 0 <= j < |pos| ==> pos[j] < k && items[pos[j]].code in cols.entries
    ensures forall j, j' :: 0 <= j < j' < |pos| ==> pos[j] < pos[j']
  {
    if k == 0 then []
    else
      var prev := KeptPositions(items, cols, k - 1);
      if items[k - 1].code in cols.entries then prev + [k - 1] else prev
  }

  /**
   * The lenient join keeps exactly the items whose code is a column, in their
   * original relative order, and gives each the values of that column.
   */
  lemma {:induction false} LenientJoinSpec(items: seq<Item>, cols: Dict<Column>, k: nat)
    requires k <= |items|
    ensures |LenientUpTo(items, cols, k)| == |KeptPositions(items, cols, k)|
    ensures forall j :: 0 <= j < |LenientUpTo(items, cols, k)| ==>
      var p := KeptPositions(items, cols, k)[j];
      LenientUpTo(items, cols, k)[j] == JoinedItem(items[p], cols.entries[items[p].code])
    ensures forall p :: 0 <= p < k && items[p].code in cols.entries ==> p in KeptPositions(items, cols, k)
  {
    if k > 0 {
      LenientJoinSpec(items, cols, k - 1);
    }
  }

  /**
   * The lenient join fails exactly when there are no items, with the KeyError
   * for Q's `subquestions` column; otherwise it keeps exactly the items whose
   * code is a column, in order, each with that column's values.
   */
  lemma {:induction false} LenientJoinOutcome(items: seq<Item>, cols: Dict<Column>)
    ensures LenientJoin(items, cols).Err? <==> |items| == 0
    ensures LenientJoin(items, cols).Err? ==> LenientJoin(items, cols).error == KeyError("subquestions")
    ensures LenientJoin(items, cols).Ok? ==>
      var joined := LenientJoin(items, cols).value;
      var pos := KeptPositions(items, cols, |items|);
      && |joined| == |pos|
      && (forall j :: 0 <= j < |joined| ==> joined[j] == JoinedItem(items[pos[j]], cols.entries[items[pos[j]].code]))
      && (forall p :: 0 <= p < |items| && items[p].code in cols.entries ==> p in pos)
  {
    LenientJoinSpec(items, cols, |items|);
  }

  /**
   * An item whose code is a column survives the lenient join with that
   * column's values; no survivor carries a code that is not a column.
   */
  lemma {:induction false} LenientMembership(items: seq<Item>, cols: Dict<Column>, p: nat)
    requires p < |items|
    ensures LenientJoin(items, cols).Ok?
    ensures items[p].code in cols.entries ==>
      JoinedItem(items[p], cols.entries[items[p].code]) in LenientJoin(items, cols).value
    ensures items[p].code !in cols.entries ==>
      forall j :: 0 <= j < |LenientJoin(items, cols).value| ==> LenientJoin(items, cols).value[j].item.code != items[p].code
  {
    LenientJoinSpec(items, cols, |items|);
    var pos := KeptPositions(items, cols, |items|);
    var joined := LenientJoin(items, cols).value;
    if items[p].code in cols.entries {
      var j :| 0 <= j < |pos| && pos[j] == p;
      assert joined[j] == JoinedItem(items[p], cols.entries[items[p].code]);
    } else {
      forall j | 0 <= j < |joined|
        ensures joined[j].item.code != items[p].code
      {
        assert joined[j].item == items[pos[j]];
      }
    }
  }

  // ---------------------------------------------------------------------------
  // Strict join.
  // ---------------------------------------------------------------------------

  /** The strict loop over the first `k` items: `l.append(list(A[c].values))`, or the KeyError of the first missing code. */
  function StrictUpTo(items: seq<Item>, cols: Dict<Column>, k: nat): (r: Result<seq<JoinedItem>, JoinError>)
    requires k <= |items|
  {
    if k == 0 then Ok([])
    else
      match StrictUpTo(items, cols, k - 1)
      case Err(e) => Err(e)
      case Ok(prev) =>
        var c := items[k - 1].code;
        if c in cols.entries then Ok(prev + [JoinedItem(items[k - 1], cols.entries[c])]) else Err(KeyError(c))
  }

  /** The strict join: Q without items has no `subquestions` column to read; otherwise the loop over all items. */
  function StrictJoin(items: seq<Item>, cols: Dict<Column>): Result<seq<JoinedItem>, JoinError> {
    if |items| == 0 then Err(KeyError(ItemColumn)) else StrictUpTo(items, cols, |items|)
  }

  /** Once a code is missing, the strict loop has aborted with that code's KeyError for good. */
  lemma {:induction false} StrictErrorPersists(items: seq<Item>, cols: Dict<Column>, m: nat, n: nat)
    requires m <= n <= |items| && StrictUpTo(items, cols, m).Err?
    ensures StrictUpTo(items, cols, n) == StrictUpTo(items, cols, m)
    decreases n - m
  {
    if m < n {
      StrictErrorPersists(items, cols, m, n - 1);
    }
  }

  /** The strict loop: `A[c]` for every item, in item order. */
  method IncludeSubquestionStrict(items: seq<Item>, a: DataFrame) returns (r: Result<seq<JoinedItem>, JoinError>)
    requires a.Valid()
    ensures r == StrictJoin(items, a.columns)
  {
    if |items| == 0 {
      return Err(KeyError(ItemColumn));
    }
    var l := [];
    for i := 0 to |items|
      invariant StrictUpTo(items, a.columns, i) == Ok(l)
    {
      var c := items[i].code;
      if c !in a.columns.entries {
        StrictErrorPersists(items, a.columns, i + 1, |items|);
        return Err(KeyError(c));
      }
      l := l + [JoinedItem(items[i], a.columns.entries[c])];
    }
    r := Ok(l);
  }

  /**
   * The strict loop succeeds exactly when every code is a column; it then has
   * one entry per item, in item order, each holding its code's column, and
   * agrees with the lenient loop.
   */
  lemma {:induction false} StrictJoinSpec(items: seq<Item>, cols: Dict<Column>, k: nat)
    requires k <= |items|
    ensures StrictUpTo(items, cols, k).Ok? <==> forall j :: 0 <= j < k ==> items[j].code in cols.entries
    ensures StrictUpTo(items, cols, k).Ok? ==>
      && StrictUpTo(items, cols, k).value == LenientUpTo(items, cols, k)
      && |StrictUpTo(items, cols, k).value| == k
      && forall j :: 0 <= j < k ==>
           StrictUpTo(items, cols, k).value[j] == JoinedItem(items[j], cols.entries[items[j].code])
  {
    if k > 0 {
      StrictJoinSpec(items, cols, k - 1);
    }
  }

  /** When the strict loop fails, it reports the first code, in item order, that is not a column. */
  lemma {:induction false} StrictJoinFirstMissing(items: seq<Item>, cols: Dict<Column>, k: nat)
    requires k <= |items|
    ensures StrictUpTo(items, cols, k).Err? ==>
      exists j :: 0 <= j < k && items[j].code !in cols.entries
        && StrictUpTo(items, cols, k).error == KeyError(items[j].code)
        && forall j' :: 0 <= j' < j ==> items[j'].code in cols.entries
  {
    if k > 0 {
      StrictJoinFirstMissing(items, cols, k - 1);
      if StrictUpTo(items, cols, k - 1).Ok? && items[k - 1].code !in cols.entries {
        StrictJoinSpec(items, cols, k - 1);
        assert StrictUpTo(items, cols, k).error == KeyError(items[k - 1].code);
      }
    }
  }

  /**
   * The strict join succeeds exactly when there are items and every code is a
   * column; it then holds every item, in order, with its column's values, as
   * the lenient join does. It fails with the KeyError for `subquestions` when
   * there are no items, and otherwise with the KeyError of the first missing code.
   */
  lemma {:induction false} StrictJoinOutcome(items: seq<Item>, cols: Dict<Column>)
    ensures StrictJoin(items, cols).Ok? <==>
      |items| > 0 && forall j :: 0 <= j < |items| ==> items[j].code in cols.entries
    ensures StrictJoin(items, cols).Ok? ==>
      && StrictJoin(items, cols) == LenientJoin(items, cols)
      && |StrictJoin(items, cols).value| == |items|
      && forall j :: 0 <= j < |items| ==>
           StrictJoin(items, cols).value[j] == JoinedItem(items[j], cols.entries[items[j].code])
    ensures |items| == 0 ==> StrictJoin(items, cols) == Err(KeyError("subquestions"))
    ensures |items| > 0 && StrictJoin(items, cols).Err? ==>
      exists j :: 0 <= j < |items| && items[j].code !in cols.entries
        && StrictJoin(items, cols).error == KeyError(items[j].code)
        && forall j' :: 0 <= j' < j ==> items[j'].code in cols.entries
  {
    StrictJoinSpec(items, cols, |items|);
    StrictJoinFirstMissing(items, cols, |items|);
  }
}
