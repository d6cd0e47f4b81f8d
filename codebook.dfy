/**
 * The codebook parser (`extract_questions_and_subquestions`). The codebook is a
 * tab-separated file; each line arrives here as the list of its fields, as
 * `csv.reader` yields it. Field 0 is the row kind ("Q" or "SQ"), field 2 the
 * code and field 4 the display text. The parser walks the rows once, keeping a
 * "current question", and builds an insertion-ordered dict from question id to
 * (text, sub-questions in file order).
 */
module Codebook {
  import opened Wrappers
  import opened OrderedDict

  /** One line of the codebook, split on tabs. */
  type Row = seq<string>

  datatype SubQuestion = SubQuestion(id: string, text: string)

  datatype Question = Question(text: string, subquestions: seq<SubQuestion>)

  /** Python's IndexError on `row[field]`, with the 0-based number of the offending row. */
  datatype ParseError = IndexError(row: nat, field: nat)

  /** The loop's variables: the dict `questions` and `current_question` (None until a "Q" row). */
  datatype ParseState = ParseState(questions: Dict<Question>, current: Option<string>)

  ghost predicate Inv(st: ParseState) {
    && st.questions.Valid()
    && (st.current.Some? ==> st.current.value in st.questions.entries)
  }

  predicate IsQuestionRow(row: Row) { |row| > 0 && row[0] == "Q" }

  predicate IsSubRow(row: Row) { |row| > 0 && row[0] == "SQ" }

  /** Python truthiness of `current_question`: None and the empty string are false. */
  predicate Active(current: Option<string>) { current.Some? && current.value != "" }

  /** The field index whose access raises first on a short row. */
  function MissingField(row: Row): nat {
    if |row| == 0 then 0 else if |row| <= 2 then 2 else 4
  }

  /** Field `k` of a row, or "" when the row is shorter (only used where the row is known to be long enough). */
  function Field(row: Row, k: nat): string {
    if k < |row| then row[k] else ""
  }

  /** One iteration of the loop over the reader, for row number `i`. */
  function Step(st: ParseState, i: nat, row: Row): (r: Result<ParseState, ParseError>)
    requires Inv(st)
    ensures r.Ok? ==> Inv(r.value)
  {
    if |row| == 0 then Err(IndexError(i, 0))
    else if row[0] == "Q" then
      if |row| < 5 then Err(IndexError(i, MissingField(row)))
      else Ok(ParseState(st.questions.Put(row[2], Question(row[4], [])), Some(row[2])))
    else if row[0] == "SQ" && Active(st.current) then
      if |row| < 5 then Err(IndexError(i, MissingField(row)))
      else
        var q := st.questions.entries[st.current.value];
        var q' := Question(q.text, q.subquestions + [SubQuestion(row[2], row[4])]);
        Ok(ParseState(st.questions.Put(st.current.value, q'), st.current))
    else Ok(st)
  }

  /** The state after the first `n` rows, or the first IndexError among them. */
  function ParseUpTo(rows: seq<Row>, n: nat): (r: Result<ParseState, ParseError>)
    requires n <= |rows|
    ensures r.Ok? ==> Inv(r.value)
    ensures r.Err? ==> r.error.row < n
  {
    if n == 0 then Ok(ParseState(Empty(), None))
    else
      match ParseUpTo(rows, n - 1)
      case Err(e) => Err(e)
      case Ok(st) => Step(st, n - 1, rows[n - 1])
  }

  /** The parser's result: the questions dict, or the IndexError that aborts it. */
  function Parse(rows: seq<Row>): (r: Result<Dict<Question>, ParseError>)
    ensures r.Ok? ==> r.value.Valid()
  {
    match ParseUpTo(rows, |rows|)
    case Err(e) => Err(e)
    case Ok(st) => Ok(st.questions)
  }

  /** The loop of `extract_questions_and_subquestions`, updating `questions` and `current_question` in place. */
  method ExtractQuestions(rows: seq<Row>) returns (r: Result<Dict<Question>, ParseError>)
    ensures r == Parse(rows)
    ensures r.Ok? ==> r.value.Valid()
  {
    var questions: Dict<Question> := Empty();
    var current: Option<string> := None;
    for i := 0 to |rows|
      invariant ParseUpTo(rows, i) == Ok(ParseState(questions, current))
    {
      var row := rows[i];
      assert ParseUpTo(rows, i + 1) == Step(ParseState(questions, current), i, row);
      if |row| == 0 {
        ErrorPersists(rows, i + 1, |rows|);
        return Err(IndexError(i, 0));
      }
      if row[0] == "Q" {
        if |row| < 5 {
          ErrorPersists(rows, i + 1, |rows|);
          return Err(IndexError(i, MissingField(row)));
        }
        questions := questions.Put(row[2], Question(row[4], []));
        current := Some(row[2]);
      } else if row[0] == "SQ" && Active(current) {
        if |row| < 5 {
          ErrorPersists(rows, i + 1, |rows|);
          return Err(IndexError(i, MissingField(row)));
        }
        var q := questions.entries[current.value];
        questions := questions.Put(current.value, Question(q.text, q.subquestions + [SubQuestion(row[2], row[4])]));
      }
    }
    r := Ok(questions);
  }

  /** Once a row has raised, the parse of any longer prefix raises the same error. */
  lemma {:induction false} ErrorPersists(rows: seq<Row>, m: nat, n: nat)
    requires m <= n <= |rows|
    requires ParseUpTo(rows, m).Err?
    ensures ParseUpTo(rows, n) == ParseUpTo(rows, m)
    decreases n - m
  {
    if m < n {
      ErrorPersists(rows, m, n - 1);
    }
  }

  // ---------------------------------------------------------------------------
  // A reference description of the result, stated over the rows themselves.
  // ---------------------------------------------------------------------------

  /** Index of the last "Q" row among the first `n` rows. */
  function LastQuestionRow(rows: seq<Row>, n: nat): (r: Option<nat>)
    requires n <= |rows|
    ensures r.Some? ==> r.value < n && IsQuestionRow(rows[r.value])
    ensures r.Some? ==> forall t :: r.value < t < n ==> !IsQuestionRow(rows[t])
    ensures r.None? ==> forall t :: 0 <= t < n ==> !IsQuestionRow(rows[t])
  {
    if n == 0 then None
    else if IsQuestionRow(rows[n - 1]) then Some(n - 1)
    else LastQuestionRow(rows, n - 1)
  }

  /** Index of the last "Q" row with code `q` among the first `n` rows. */
  function LastRowOf(rows: seq<Row>, n: nat, q: string): (r: Option<nat>)
    requires n <= |rows|
    ensures r.Some? ==> r.value < n && IsQuestionRow(rows[r.value]) && Field(rows[r.value], 2) == q
    ensures r.Some? ==> forall t :: r.value < t < n ==> !(IsQuestionRow(rows[t]) && Field(rows[t], 2) == q)
    ensures r.None? ==> forall t :: 0 <= t < n ==> !(IsQuestionRow(rows[t]) && Field(rows[t], 2) == q)
  {
    if n == 0 then None
    else if IsQuestionRow(rows[n - 1]) && Field(rows[n - 1], 2) == q then Some(n - 1)
    else LastRowOf(rows, n - 1, q)
  }

  /** The first "Q" row at or after `from`, below `n`; `n` when there is none. */
  function NextQuestionRow(rows: seq<Row>, from: nat, n: nat): (r: nat)
    requires from <= n <= |rows|
    ensures from <= r <= n
    ensures r < n ==> IsQuestionRow(rows[r])
    ensures forall t :: from <= t < r ==> !IsQuestionRow(rows[t])
    decreases n - from
  {
    if from == n then n
    else if IsQuestionRow(rows[from]) then from
    else NextQuestionRow(rows, from + 1, n)
  }

  /** The "SQ" rows with index in [lo, hi), as sub-questions, in file order. */
  function SubRowsBetween(rows: seq<Row>, lo: nat, hi: nat): seq<SubQuestion>
    requires hi <= |rows|
    decreases hi
  {
    if hi <= lo then []
    else
      var row := rows[hi - 1];
      SubRowsBetween(rows, lo, hi - 1) + (if IsSubRow(row) then [SubQuestion(Field(row, 2), Field(row, 4))] else [])
  }

  /** Codes of the "Q" rows among the first `n`, each listed once, in order of first appearance. */
  function FirstSeenCodes(rows: seq<Row>, n: nat): seq<string>
    requires n <= |rows|
  {
    if n == 0 then []
    else
      var prev := FirstSeenCodes(rows, n - 1);
      var row := rows[n - 1];
      if IsQuestionRow(row) && Field(row, 2) !in prev then prev + [Field(row, 2)] else prev
  }

  /** Row `i` raises when reached: blank, or a short "Q" row, or a short "SQ" row while a question is current. */
  predicate Raises(rows: seq<Row>, i: nat)
    requires i < |rows|
  {
    var row := rows[i];
    || |row| == 0
    || (row[0] == "Q" && |row| < 5)
    || (row[0] == "SQ" && |row| < 5 && ActiveAt(rows, i))
  }

  /** A question with a non-empty code is current just before row `i`. */
  predicate ActiveAt(rows: seq<Row>, i: nat)
    requires i <= |rows|
  {
    match LastQuestionRow(rows, i)
    case None => false
    case Some(k) => Field(rows[k], 2) != ""
  }

  /** `current_question` after `n` rows is the code of the last "Q" row, and every "Q" row so far was complete. */
  lemma {:induction false} CurrentIsLastQuestion(rows: seq<Row>, n: nat)
    requires n <= |rows|
    requires ParseUpTo(rows, n).Ok?
    ensures ParseUpTo(rows, n).value.current ==
      (match LastQuestionRow(rows, n) case None => None case Some(k) => Some(Field(rows[k], 2)))
    ensures forall t :: 0 <= t < n && IsQuestionRow(rows[t]) ==> |rows[t]| >= 5
  {
    if n > 0 {
      assert ParseUpTo(rows, n - 1).Ok?;
      CurrentIsLastQuestion(rows, n - 1);
      var st := ParseUpTo(rows, n - 1).value;
      assert ParseUpTo(rows, n) == Step(st, n - 1, rows[n - 1]);
      StepCurrent(st, n - 1, rows[n - 1]);
    }
  }

  /** A "Q" row, which is long enough when the step succeeds, makes its code current; other rows leave `current` alone. */
  lemma {:induction false} StepCurrent(st: ParseState, i: nat, row: Row)
    requires Inv(st) && Step(st, i, row).Ok?
    ensures Step(st, i, row).value.current == if IsQuestionRow(row) then Some(Field(row, 2)) else st.current
    ensures IsQuestionRow(row) ==> |row| >= 5
  {
  }

  /**
   * The parse fails exactly when some row raises, and it reports the first such
   * row and the field whose access failed.
   */
  lemma {:induction false} ParseErrors(rows: seq<Row>, n: nat)
    requires n <= |rows|
    ensures ParseUpTo(rows, n).Ok? <==> forall i :: 0 <= i < n ==> !Raises(rows, i)
    ensures ParseUpTo(rows, n).Err? ==>
      var e := ParseUpTo(rows, n).error;
      && e.row < n && Raises(rows, e.row)
      && e.field == MissingField(rows[e.row])
      && forall i :: 0 <= i < e.row ==> !Raises(rows, i)
  {
    if n > 0 {
      ParseErrors(rows, n - 1);
      if ParseUpTo(rows, n - 1).Ok? {
        CurrentIsLastQuestion(rows, n - 1);
        var st := ParseUpTo(rows, n - 1).value;
        assert ParseUpTo(rows, n) == Step(st, n - 1, rows[n - 1]);
        assert Active(st.current) == ActiveAt(rows, n - 1);
        assert ParseUpTo(rows, n).Err? <==> Raises(rows, n - 1);
      } else {
        assert Raises(rows, ParseUpTo(rows, n - 1).error.row);
      }
    }
  }

  /** A newly reached row moves the next "Q" row only when none was found before it. */
  lemma {:induction false} NextQuestionRowGrow(rows: seq<Row>, from: nat, n: nat)
    requires from <= n < |rows|
    ensures NextQuestionRow(rows, from, n + 1) ==
      if NextQuestionRow(rows, from, n) < n then NextQuestionRow(rows, from, n)
      else if IsQuestionRow(rows[n]) then n else n + 1
    decreases n - from
  {
    if from < n && !IsQuestionRow(rows[from]) {
      NextQuestionRowGrow(rows, from + 1, n);
    }
  }

  /** Dict keys are the question codes in order of first appearance (a repeated code keeps its first place). */
  lemma {:induction false} ParseKeys(rows: seq<Row>, n: nat)
    requires n <= |rows|
    requires ParseUpTo(rows, n).Ok?
    ensures ParseUpTo(rows, n).value.questions.keys == FirstSeenCodes(rows, n)
  {
    if n > 0 {
      assert ParseUpTo(rows, n - 1).Ok?;
      ParseKeys(rows, n - 1);
      var st := ParseUpTo(rows, n - 1).value;
      assert ParseUpTo(rows, n) == Step(st, n - 1, rows[n - 1]);
      StepKeys(st, n - 1, rows[n - 1]);
    }
  }

  /** Some code is seen exactly when some row is a "Q" row. */
  lemma {:induction false} NoQuestionRowNoCodes(rows: seq<Row>, n: nat)
    requires n <= |rows|
    ensures FirstSeenCodes(rows, n) == [] <==> forall t :: 0 <= t < n ==> !IsQuestionRow(rows[t])
  {
    if n > 0 {
      NoQuestionRowNoCodes(rows, n - 1);
    }
  }

  /** Only a "Q" row with a code not seen before adds a key, and it goes last. */
  lemma {:induction false} StepKeys(st: ParseState, i: nat, row: Row)
    requires Inv(st) && Step(st, i, row).Ok?
    ensures Step(st, i, row).value.questions.keys ==
      if IsQuestionRow(row) && Field(row, 2) !in st.questions.keys then st.questions.keys + [Field(row, 2)]
      else st.questions.keys
  {
  }

  /**
   * What the dict says about question `q` after `n` rows: an entry exists
   * exactly when some "Q" row has code `q`; its text is that of the LAST such
   * row; its sub-questions are the "SQ" rows after that row up to the next "Q"
   * row, in file order, and none at all when `q` is the empty code.
   */
  ghost predicate EntryMatches(rows: seq<Row>, n: nat, d: Dict<Question>, q: string)
    requires n <= |rows|
  {
    && (q in d.entries <==> LastRowOf(rows, n, q).Some?)
    && (q in d.entries ==>
          var j := LastRowOf(rows, n, q).value;
          && d.entries[q].text == Field(rows[j], 4)
          && d.entries[q].subquestions ==
               (if q == "" then [] else SubRowsBetween(rows, j + 1, NextQuestionRow(rows, j + 1, n))))
  }

  /** A "Q" row with code `q` (re)opens the entry for `q`: its text, no sub-questions yet. */
  lemma {:induction false} StepOpens(rows: seq<Row>, m: nat, q: string)
    requires m < |rows| && IsQuestionRow(rows[m]) && Field(rows[m], 2) == q
    requires ParseUpTo(rows, m + 1).Ok?
    ensures EntryMatches(rows, m + 1, ParseUpTo(rows, m + 1).value.questions, q)
  {
    var st := ParseUpTo(rows, m).value;
    var row := rows[m];
    assert ParseUpTo(rows, m + 1) == Step(st, m, row);
    assert LastRowOf(rows, m + 1, q) == Some(m);
    assert NextQuestionRow(rows, m + 1, m + 1) == m + 1;
  }

  /** Facts shared by the cases where row `m` is not a "Q" row for an existing entry `q`. */
  ghost predicate KeepCase(rows: seq<Row>, m: nat, q: string)
    requires m < |rows|
  {
    && !(IsQuestionRow(rows[m]) && Field(rows[m], 2) == q)
    && ParseUpTo(rows, m + 1).Ok?
    && EntryMatches(rows, m, ParseUpTo(rows, m).value.questions, q)
    && q in ParseUpTo(rows, m).value.questions.entries
  }

  /** A "SQ" row after the last "Q" row `j` belongs to `j`'s block, which stays open. */
  lemma {:induction false} BlockGrows(rows: seq<Row>, j: nat, m: nat)
    requires m < |rows| && LastQuestionRow(rows, m) == Some(j) && IsSubRow(rows[m])
    ensures NextQuestionRow(rows, j + 1, m) == m
    ensures NextQuestionRow(rows, j + 1, m + 1) == m + 1
    ensures SubRowsBetween(rows, j + 1, m + 1)
      == SubRowsBetween(rows, j + 1, m) + [SubQuestion(Field(rows[m], 2), Field(rows[m], 4))]
  {
    NextQuestionRowGrow(rows, j + 1, m);
  }

  /** A "SQ" row while `q`, last opened at row `j`, is current extends `q`'s still open block. */
  lemma {:induction false} StepAppends(rows: seq<Row>, m: nat, q: string, j: nat, d: Dict<Question>, d': Dict<Question>)
    requires m < |rows| && IsSubRow(rows[m]) && q != ""
    requires LastQuestionRow(rows, m) == Some(j) && LastRowOf(rows, m, q) == Some(j)
    requires EntryMatches(rows, m, d, q) && q in d.entries && q in d'.entries
    requires d'.entries[q] ==
      Question(d.entries[q].text, d.entries[q].subquestions + [SubQuestion(Field(rows[m], 2), Field(rows[m], 4))])
    ensures EntryMatches(rows, m + 1, d', q)
  {
    LastRowStays(rows, m, q);
    BlockGrows(rows, j, m);
    assert d.entries[q].subquestions == SubRowsBetween(rows, j + 1, m);
    assert d'.entries[q].subquestions == SubRowsBetween(rows, j + 1, NextQuestionRow(rows, j + 1, m + 1));
    assert d'.entries[q].text == Field(rows[j], 4);
  }

  /** A row that is not a "SQ" row of a still open block leaves that block's sub-question rows as they were. */
  lemma {:induction false} BlockUnchanged(rows: seq<Row>, j: nat, m: nat)
    requires j < m < |rows|
    requires IsSubRow(rows[m]) ==> NextQuestionRow(rows, j + 1, m) < m
    ensures SubRowsBetween(rows, j + 1, NextQuestionRow(rows, j + 1, m + 1))
      == SubRowsBetween(rows, j + 1, NextQuestionRow(rows, j + 1, m))
  {
    NextQuestionRowGrow(rows, j + 1, m);
  }

  /** A row that is not a "Q" row with code `q` leaves `q`'s last "Q" row where it was. */
  lemma {:induction false} LastRowStays(rows: seq<Row>, m: nat, q: string)
    requires m < |rows| && !(IsQuestionRow(rows[m]) && Field(rows[m], 2) == q)
    ensures LastRowOf(rows, m + 1, q) == LastRowOf(rows, m, q)
  {
  }

  /** Any row that does not touch `q`'s entry, last opened at row `j`, also leaves `q`'s block as it was. */
  lemma {:induction false} StepLeaves(rows: seq<Row>, m: nat, q: string, j: nat, d: Dict<Question>, d': Dict<Question>)
    requires m < |rows| && !(IsQuestionRow(rows[m]) && Field(rows[m], 2) == q)
    requires LastRowOf(rows, m, q) == Some(j) && EntryMatches(rows, m, d, q)
    requires q in d.entries && q in d'.entries && d'.entries[q] == d.entries[q]
    requires IsSubRow(rows[m]) && q != "" ==> NextQuestionRow(rows, j + 1, m) < m
    ensures EntryMatches(rows, m + 1, d', q)
  {
    LastRowStays(rows, m, q);
    var e := d.entries[q];
    assert e.text == Field(rows[j], 4);
    if q != "" {
      assert e.subquestions == SubRowsBetween(rows, j + 1, NextQuestionRow(rows, j + 1, m));
      BlockUnchanged(rows, j, m);
    } else {
      assert e.subquestions == [];
    }
    EntryFrom(rows, m + 1, d', q, j);
  }

  /** The reference description holds once the entry's text and sub-questions are those of the last "Q" row `j` with code `q`. */
  lemma {:induction false} EntryFrom(rows: seq<Row>, n: nat, d: Dict<Question>, q: string, j: nat)
    requires n <= |rows| && LastRowOf(rows, n, q) == Some(j) && q in d.entries
    requires d.entries[q].text == Field(rows[j], 4)
    requires d.entries[q].subquestions ==
      if q == "" then [] else SubRowsBetween(rows, j + 1, NextQuestionRow(rows, j + 1, n))
    ensures EntryMatches(rows, n, d, q)
  {
  }

  /** Any other row leaves an existing entry for `q` as the reference description says. */
  lemma {:induction false} StepKeeps(rows: seq<Row>, m: nat, q: string)
    requires m < |rows| && KeepCase(rows, m, q)
    ensures EntryMatches(rows, m + 1, ParseUpTo(rows, m + 1).value.questions, q)
  {
    CurrentIsLastQuestion(rows, m);
    var st := ParseUpTo(rows, m).value;
    var row := rows[m];
    assert ParseUpTo(rows, m + 1) == Step(st, m, row);
    if IsSubRow(row) && Active(st.current) && st.current.value == q {
      // q is the question seen last, so its block is still open
      var j := LastRowOf(rows, m, q).value;
      assert LastQuestionRow(rows, m) == Some(j);
      StepAppends(rows, m, q, j, st.questions, ParseUpTo(rows, m + 1).value.questions);
    } else {
      var j := LastRowOf(rows, m, q).value;
      if IsSubRow(row) && q != "" {
        // another question was seen after q, so q's block is closed
        assert j < LastQuestionRow(rows, m).value;
      }
      StepLeaves(rows, m, q, j, st.questions, ParseUpTo(rows, m + 1).value.questions);
    }
  }

  /** Without a "Q" row for `q` there is still no entry for `q`. */
  lemma {:induction false} StepAbsent(rows: seq<Row>, m: nat, q: string)
    requires m < |rows| && !(IsQuestionRow(rows[m]) && Field(rows[m], 2) == q)
    requires ParseUpTo(rows, m + 1).Ok?
    requires EntryMatches(rows, m, ParseUpTo(rows, m).value.questions, q)
    requires q !in ParseUpTo(rows, m).value.questions.entries
    ensures EntryMatches(rows, m + 1, ParseUpTo(rows, m + 1).value.questions, q)
  {
    var st := ParseUpTo(rows, m).value;
    assert ParseUpTo(rows, m + 1) == Step(st, m, rows[m]);
    assert LastRowOf(rows, m + 1, q) == None;
  }

  /** One more row keeps the entry for `q` in line with the reference description. */
  lemma {:induction false} StepEntry(rows: seq<Row>, m: nat, q: string)
    requires m < |rows|
    requires ParseUpTo(rows, m + 1).Ok?
    requires EntryMatches(rows, m, ParseUpTo(rows, m).value.questions, q)
    ensures EntryMatches(rows, m + 1, ParseUpTo(rows, m + 1).value.questions, q)
  {
    if IsQuestionRow(rows[m]) && Field(rows[m], 2) == q {
      StepOpens(rows, m, q);
    } else if q in ParseUpTo(rows, m).value.questions.entries {
      assert KeepCase(rows, m, q);
      StepKeeps(rows, m, q);
    } else {
      StepAbsent(rows, m, q);
    }
  }

  /** The parse agrees with the reference description for every question code. */
  lemma {:induction false} ParseEntries(rows: seq<Row>, n: nat)
    requires n <= |rows|
    requires ParseUpTo(rows, n).Ok?
    ensures forall q :: EntryMatches(rows, n, ParseUpTo(rows, n).value.questions, q)
  {
    if n > 0 {
      var m := n - 1;
      assert ParseUpTo(rows, m).Ok? && ParseUpTo(rows, m + 1).Ok?;
      ParseEntries(rows, m);
      var d := ParseUpTo(rows, m).value.questions;
      var d' := ParseUpTo(rows, m + 1).value.questions;
      forall q ensures EntryMatches(rows, n, d', q) {
        assert EntryMatches(rows, m, d, q);
        StepEntry(rows, m, q);
      }
    }
  }
}
