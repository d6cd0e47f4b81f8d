/**
 * The stages chained as the scripts chain them.
 *
 * The second script version parses the codebook, suppresses rare values in
 * the raw responses, flattens the codebook and joins strictly: with no column
 * renaming in between, a codebook code that the raw export names differently
 * is a missing column and aborts the run.
 *
 * The current version parses the codebook, renames and backfills the columns,
 * suppresses rare values, fills the remaining gaps with '', drops the columns
 * 'Unidade' and 'LOTACAO', takes the whole frame as the selection (the results
 * tab with no filter picked), empties a selection of a single respondent,
 * flattens the codebook and joins leniently.
 *
 * Both versions abort at the join when the codebook has no question at all.
 */
module Pipeline {
  import opened Wrappers
  import opened OrderedDict
  import opened Codebook
  import opened Flattener
  import opened Frames
  import opened Normalize
  import opened Join

  /** `remove_single_occurrences(df)` is always called with its default `n=1`. */
  const RareThreshold: int := 1

  /** The run aborts on a malformed codebook row, or with the KeyError the join raises. */
  datatype PipelineError = CodebookError(cause: ParseError) | JoinAborted(raised: JoinError)

  // ---------------------------------------------------------------------------
  // The second script version: strict join, no renaming.
  // ---------------------------------------------------------------------------

  function StrictRun(codebook: seq<Row>, cols: Dict<Column>): Result<seq<JoinedItem>, PipelineError>
    requires cols.Valid()
  {
    match Parse(codebook)
    case Err(e) => Err(CodebookError(e))
    case Ok(d) =>
      match StrictJoin(Flatten(d), SuppressAll(cols, RareThreshold))
      case Err(e) => Err(JoinAborted(e))
      case Ok(q) => Ok(q)
  }

  /** `questions = extract...`, `A = remove_single_occurrences(A)`, `Q = transform...`, `Q = include_subquestion(A, Q)`. */
  method RunStrict(codebook: seq<Row>, a: DataFrame) returns (r: Result<seq<JoinedItem>, PipelineError>)
    requires a.Valid()
    modifies a
    ensures r == StrictRun(codebook, old(a.columns))
    ensures a.Valid() && a.rows == old(a.rows)
    ensures a.columns == if Parse(codebook).Ok? then SuppressAll(old(a.columns), RareThreshold) else old(a.columns)
  {
    var questions := ExtractQuestions(codebook);
    if questions.Err? {
      return Err(CodebookError(questions.error));
    }
    a.RemoveSingleOccurrences(RareThreshold);
    var items := TransformQuestions(questions.value);
    var joined := IncludeSubquestionStrict(items, a);
    match joined
    case Err(e) => r := Err(JoinAborted(e));
    case Ok(q) => r := Ok(q);
  }

  /**
   * With a well-formed codebook the strict run succeeds exactly when there is
   * an item and every flattened code is a column of the raw export
   * (suppression removes no column); it then carries each item's suppressed
   * column. Without items it aborts on Q's missing `subquestions` column;
   * otherwise it names the first code, in item order, that the export lacks.
   */
  lemma {:induction false} StrictRunSpec(codebook: seq<Row>, cols: Dict<Column>)
    requires cols.Valid() && Parse(codebook).Ok?
    ensures var items := Flatten(Parse(codebook).value);
      StrictRun(codebook, cols).Ok? <==>
        |items| > 0 && forall j :: 0 <= j < |items| ==> items[j].code in cols.entries
    ensures var items := Flatten(Parse(codebook).value);
      StrictRun(codebook, cols).Ok? ==>
        |StrictRun(codebook, cols).value| == |items| &&
        forall j :: 0 <= j < |items| ==>
          StrictRun(codebook, cols).value[j] ==
            JoinedItem(items[j], SuppressColumn(cols.entries[items[j].code], RareThreshold))
    ensures var items := Flatten(Parse(codebook).value);
      |items| == 0 ==> StrictRun(codebook, cols) == Err(JoinAborted(KeyError("subquestions")))
    ensures var items := Flatten(Parse(codebook).value);
      |items| > 0 && StrictRun(codebook, cols).Err? ==>
        exists j :: 0 <= j < |items| && items[j].code !in cols.entries
          && StrictRun(codebook, cols).error == JoinAborted(KeyError(items[j].code))
          && forall j' :: 0 <= j' < j ==> items[j'].code in cols.entries
  {
    var items := Flatten(Parse(codebook).value);
    StrictJoinOutcome(items, SuppressAll(cols, RareThreshold));
  }

  // ---------------------------------------------------------------------------
  // The current version: renaming, suppression, filling, lenient join.
  // ---------------------------------------------------------------------------

  /** The columns the results tab drops before filtering. */
  const Dropped: seq<string> := ["Unidade", "LOTACAO"]

  /** The response frame's columns once prepared: renamed and backfilled, suppressed, filled, two columns dropped. */
  function Prepared(cols: Dict<Column>, rows: nat, dic: Dict<string>): (p: Dict<Column>)
    requires cols.Valid() && dic.Valid()
    ensures p.Valid()
  {
    RemoveAll(FillAll(SuppressAll(Normalized(cols, rows, dic), RareThreshold)), Dropped)
  }

  /** `df_selected` with no filter picked: the prepared frame, emptied if it holds a single respondent. */
  function Selected(cols: Dict<Column>, rows: nat, dic: Dict<string>): (s: Dict<Column>)
    requires cols.Valid() && dic.Valid()
    ensures s.Valid()
  {
    SingleRowDropped(Prepared(cols, rows, dic), NormalizedRows(cols, rows))
  }

  function LenientRun(codebook: seq<Row>, cols: Dict<Column>, rows: nat, dic: Dict<string>): Result<seq<JoinedItem>, PipelineError>
    requires cols.Valid() && dic.Valid()
  {
    match Parse(codebook)
    case Err(e) => Err(CodebookError(e))
    case Ok(d) =>
      match LenientJoin(Flatten(d), Selected(cols, rows, dic))
      case Err(e) => Err(JoinAborted(e))
      case Ok(q) => Ok(q)
  }

  /**
   * `questions = extract...`, `A = fun_exc[perfil](A)`, `remove_single_occurrences`,
   * `fillna('')`, `drop(['Unidade', 'LOTACAO'])`, `df_selected = A.copy()`, the
   * single-respondent drop, `transform...`, `include_subquestion`. The selection
   * is a new object whose row count is the "Respondentes" metric; the raw frame
   * is left as it was.
   */
  method RunLenient(codebook: seq<Row>, a: DataFrame, dic: Dict<string>) returns (r: Result<seq<JoinedItem>, PipelineError>, b: DataFrame)
    requires a.Valid() && dic.Valid()
    ensures r == LenientRun(codebook, a.columns, a.rows, dic)
    ensures fresh(b) && b.Valid()
    ensures Parse(codebook).Ok? ==> b.columns == Selected(a.columns, a.rows, dic)
    ensures Parse(codebook).Ok? ==>
      b.rows == if NormalizedRows(a.columns, a.rows) == 1 then 0 else NormalizedRows(a.columns, a.rows)
  {
    var questions := ExtractQuestions(codebook);
    if questions.Err? {
      b := new DataFrame.Empty();
      return Err(CodebookError(questions.error)), b;
    }
    b := NormalizeColumns(a, dic);
    ghost var n := b.rows;
    b.RemoveSingleOccurrences(RareThreshold);
    b.FillNa();
    b.DropColumns(Dropped);
    assert b.rows == n && b.columns == Prepared(a.columns, a.rows, dic);
    b.DropSingleRow();
    assert b.rows == if n == 1 then 0 else n;
    var items := TransformQuestions(questions.value);
    var joined := IncludeSubquestionLenient(items, b);
    match joined
    case Err(e) => r := Err(JoinAborted(e));
    case Ok(q) => r := Ok(q);
  }

  /** The prepared frame has a column for every canonical name except the two dropped ones, and none of its cells is missing. */
  lemma {:induction false} PreparedColumns(cols: Dict<Column>, rows: nat, dic: Dict<string>, t: string)
    requires Rectangular(cols, rows) && dic.Valid()
    ensures IsCanonical(dic, t) && t !in Dropped ==> t in Prepared(cols, rows, dic).entries
    ensures t in Prepared(cols, rows, dic).entries ==>
      forall i :: 0 <= i < |Prepared(cols, rows, dic).entries[t]| ==> Prepared(cols, rows, dic).entries[t][i].Str?
  {
    NormalizeSchema(cols, rows, dic, t);
  }

  /**
   * In the current version an item whose code is a canonical column name
   * (other than the two dropped ones) is never lost by the join, whatever the
   * raw export calls its columns, and every value it carries is text.
   */
  lemma {:induction false} CanonicalItemsSurvive(codebook: seq<Row>, cols: Dict<Column>, rows: nat, dic: Dict<string>, p: nat)
    requires Rectangular(cols, rows) && dic.Valid() && Parse(codebook).Ok?
    requires p < |Flatten(Parse(codebook).value)|
    requires IsCanonical(dic, Flatten(Parse(codebook).value)[p].code)
    requires Flatten(Parse(codebook).value)[p].code !in Dropped
    ensures var item := Flatten(Parse(codebook).value)[p];
      var selected := Selected(cols, rows, dic);
      && LenientRun(codebook, cols, rows, dic).Ok?
      && item.code in selected.entries
      && JoinedItem(item, selected.entries[item.code]) in LenientRun(codebook, cols, rows, dic).value
      && forall i :: 0 <= i < |selected.entries[item.code]| ==> selected.entries[item.code][i].Str?
  {
    var items := Flatten(Parse(codebook).value);
    PreparedColumns(cols, rows, dic, items[p].code);
    LenientMembership(items, Selected(cols, rows, dic), p);
  }

  /**
   * Both versions abort with the KeyError for `subquestions` exactly when the
   * codebook, though well formed, has no "Q" row: Q is then built from an
   * empty list and has no columns.
   */
  lemma {:induction false} NoQuestionAborts(codebook: seq<Row>, cols: Dict<Column>, rows: nat, dic: Dict<string>)
    requires cols.Valid() && dic.Valid() && Parse(codebook).Ok?
    ensures (forall t :: 0 <= t < |codebook| ==> !IsQuestionRow(codebook[t])) <==>
      |Flatten(Parse(codebook).value)| == 0
    ensures (forall t :: 0 <= t < |codebook| ==> !IsQuestionRow(codebook[t])) ==>
      && StrictRun(codebook, cols) == Err(JoinAborted(KeyError("subquestions")))
      && LenientRun(codebook, cols, rows, dic) == Err(JoinAborted(KeyError("subquestions")))
  {
    ParseKeys(codebook, |codebook|);
    NoQuestionRowNoCodes(codebook, |codebook|);
    FlattenEmpty(Parse(codebook).value);
  }
}
