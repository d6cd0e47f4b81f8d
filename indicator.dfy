/**
 * The indicator arithmetic of the results and comparison tabs: the answers of a
 * Likert item are scored through the table `repl0`, a column is kept only when
 * the replacement leaves it numeric (`select_dtypes(include=['number'])`), and
 * each kept item gets a satisfaction index (the mean score, as a percentage)
 * and a non-response rate (the share of rows without a score, as a percentage).
 *
 * Scores are held in hundredths (1 -> 100, 0.66 -> 66, 0.33 -> 33, 0 -> 0), so
 * the index `B.sum() / B.count() * 100` is the sum of hundredths over the count.
 */
module Indicator {
  import opened OrderedDict
  import opened Frames
  import opened Flattener
  import opened Join

  /** The two answers `repl0` maps to None, spelled as the script spells them (a doubly encoded "ã"). */
  const Neutral: string := "N\U{00C3}\U{00A3}o concordo nem discordo"
  const DontKnow: string := "N\U{00C3}\U{00A3}o sei / N\U{00C3}\U{00A3}o se aplica"

  /** A cell after `.replace(repl0)`: a score in hundredths, NaN, or text the table does not know. */
  datatype Encoded = Score(hundredths: nat) | NaN | Text(s: string)

  /** `repl0`: the four agreement labels are scored, the two neutral answers and '' become None; other text is left alone. */
  function Replace0(s: string): (e: Encoded)
    ensures e.Score? ==> e.hundredths <= 100
    ensures e.Text? ==> e == Text(s) && s != ""
  {
    if s == "Concordo totalmente" then Score(100)
    else if s == "Concordo" then Score(66)
    else if s == "Discordo" then Score(33)
    else if s == "Discordo totalmente" then Score(0)
    else if s == Neutral || s == DontKnow || s == "" then NaN
    else Text(s)
  }

  /** A missing cell stays missing; a text cell goes through `repl0`. */
  function Encode(c: Cell): (e: Encoded)
    ensures e.Score? ==> e.hundredths <= 100
  {
    match c
    case Null => NaN
    case Str(s) => Replace0(s)
  }

  /**
   * The explicit rule standing in for dtype inference: after the replacement
   * the column is numeric when no cell is left as text and some cell holds a
   * score (a column of None only keeps the object dtype). `CountPositive`
   * states the second half cell by cell.
   */
  predicate IsNumeric(col: Column) {
    && (forall i :: 0 <= i < |col| ==> !Encode(col[i]).Text?)
    && ScoreCount(col) > 0
  }

  /** `B.count()`: the cells holding a score. */
  function ScoreCount(col: Column): (n: nat)
    ensures n <= |col|
  {
    if col == [] then 0 else (if Encode(col[0]).Score? then 1 else 0) + ScoreCount(col[1..])
  }

  /** `B.sum(skipna=True)`, in hundredths: no more than 100 per counted cell. */
  function ScoreSum(col: Column): (s: nat)
    ensures s <= 100 * ScoreCount(col)
  {
    if col == [] then 0
    else
      var e := Encode(col[0]);
      (if e.Score? then e.hundredths else 0) + ScoreSum(col[1..])
  }

  /** A column has a counted cell exactly when some cell holds a score. */
  lemma {:induction false} CountPositive(col: Column)
    ensures ScoreCount(col) > 0 <==> exists i :: 0 <= i < |col| && Encode(col[i]).Score?
  {
    if col != [] {
      CountPositive(col[1..]);
      if ScoreCount(col[1..]) > 0 {
        var i :| 0 <= i < |col[1..]| && Encode(col[1..][i]).Score?;
        assert Encode(col[i + 1]).Score?;
      }
      if exists i :: 0 <= i < |col| && Encode(col[i]).Score? {
        var i :| 0 <= i < |col| && Encode(col[i]).Score?;
        if i > 0 {
          assert Encode(col[1..][i - 1]).Score?;
        }
      }
    }
  }

  /** Comparing a quotient with a bound is comparing the numerator with the bound times the denominator. */
  lemma {:induction false} Ratio(num: real, den: real, v: real)
    requires den > 0.0
    ensures num / den == v <==> num == v * den
    ensures num / den <= v <==> num <= v * den
    ensures num / den >= v <==> num >= v * den
  {
    var x := num / den;
    assert x * den == num;
    if x <= v { assert x * den <= v * den; } else { assert x * den > v * den; }
    if x >= v { assert x * den >= v * den; } else { assert x * den < v * den; }
  }

  /** A mean of naturals equals a natural `v` exactly when the sum is `v` times the count. */
  lemma {:induction false} MeanIs(sum: nat, count: nat, v: nat)
    requires count > 0
    ensures sum as real / count as real == v as real <==> sum == v * count
  {
    Ratio(sum as real, count as real, v as real);
    assert (v * count) as real == v as real * count as real;
  }

  /** `B.sum(skipna=True) / B.count() * 100`: a percentage between 0 and 100. */
  function SatisfactionIndex(col: Column): (x: real)
    requires ScoreCount(col) > 0
    ensures 0.0 <= x <= 100.0
  {
    var sum := ScoreSum(col) as real;
    var count := ScoreCount(col) as real;
    Ratio(sum, count, 100.0);
    Ratio(sum, count, 0.0);
    sum / count
  }

  /** `(1 - B.count() / len(B)) * 100`: a percentage between 0 and 100. */
  function NonResponseRate(col: Column): (x: real)
    requires |col| > 0
    ensures 0.0 <= x <= 100.0
  {
    var count := ScoreCount(col) as real;
    var rows := |col| as real;
    Ratio(count, rows, 1.0);
    Ratio(count, rows, 0.0);
    100.0 * (1.0 - count / rows)
  }

  /** The index is 100 exactly when every scored answer is "Concordo totalmente". */
  lemma {:induction false} SumAtTop(col: Column)
    ensures ScoreSum(col) == 100 * ScoreCount(col) <==>
      forall i :: 0 <= i < |col| && Encode(col[i]).Score? ==> Encode(col[i]).hundredths == 100
  {
    if col != [] {
      SumAtTop(col[1..]);
      assert forall i :: 1 <= i < |col| ==> col[i] == col[1..][i - 1];
    }
  }

  /** The index is 0 exactly when every scored answer is "Discordo totalmente". */
  lemma {:induction false} SumAtBottom(col: Column)
    ensures ScoreSum(col) == 0 <==>
      forall i :: 0 <= i < |col| && Encode(col[i]).Score? ==> Encode(col[i]).hundredths == 0
  {
    if col != [] {
      SumAtBottom(col[1..]);
      assert forall i :: 1 <= i < |col| ==> col[i] == col[1..][i - 1];
    }
  }

  /** Every row is counted exactly when every cell holds a score. */
  lemma {:induction false} CountAll(col: Column)
    ensures ScoreCount(col) == |col| <==> forall i :: 0 <= i < |col| ==> Encode(col[i]).Score?
  {
    if col != [] {
      CountAll(col[1..]);
      assert forall i :: 1 <= i < |col| ==> col[i] == col[1..][i - 1];
    }
  }

  /** The index is 100 exactly when every scored answer is "Concordo totalmente". */
  lemma {:induction false} IndexAtTop(col: Column)
    requires ScoreCount(col) > 0
    ensures SatisfactionIndex(col) == 100.0 <==>
      forall i :: 0 <= i < |col| && Encode(col[i]).Score? ==> Encode(col[i]).hundredths == 100
  {
    SumAtTop(col);
    MeanIs(ScoreSum(col), ScoreCount(col), 100);
  }

  /** The index is 0 exactly when every scored answer is "Discordo totalmente". */
  lemma {:induction false} IndexAtBottom(col: Column)
    requires ScoreCount(col) > 0
    ensures SatisfactionIndex(col) == 0.0 <==>
      forall i :: 0 <= i < |col| && Encode(col[i]).Score? ==> Encode(col[i]).hundredths == 0
  {
    SumAtBottom(col);
    MeanIs(ScoreSum(col), ScoreCount(col), 0);
  }

  /**
   * The non-response rate is 0 exactly when every row holds a score, and for a
   * numeric column it is below 100, since some row does.
   */
  lemma {:induction false} RateBounds(col: Column)
    requires |col| > 0
    ensures NonResponseRate(col) == 0.0 <==> forall i :: 0 <= i < |col| ==> Encode(col[i]).Score?
    ensures IsNumeric(col) ==> NonResponseRate(col) < 100.0
  {
    CountAll(col);
    var count := ScoreCount(col) as real;
    var rows := |col| as real;
    Ratio(count, rows, 1.0);
    Ratio(count, rows, 0.0);
  }

  /** Two agreements, one blank and one strong disagreement: index 166/3, non-response 25. */
  lemma {:induction false} WorkedExample()
    ensures var col := [Str("Concordo totalmente"), Str("Concordo"), Str(""), Str("Discordo totalmente")];
      IsNumeric(col) && SatisfactionIndex(col) == 166.0 / 3.0 && NonResponseRate(col) == 25.0
  {
    var col := [Str("Concordo totalmente"), Str("Concordo"), Str(""), Str("Discordo totalmente")];
    assert Encode(col[0]).Score?;
    assert col[1..] == [Str("Concordo"), Str(""), Str("Discordo totalmente")];
    assert col[1..][1..] == [Str(""), Str("Discordo totalmente")];
    assert col[1..][1..][1..] == [Str("Discordo totalmente")];
    assert ScoreCount(col) == 3;
    assert ScoreSum(col) == 166;
  }

  /** A column of free text is not numeric and is dropped rather than scored. */
  lemma {:induction false} TextIsDropped(col: Column, i: nat)
    requires i < |col| && col[i].Str? && Replace0(col[i].s).Text?
    ensures !IsNumeric(col)
  {
  }

  // ---------------------------------------------------------------------------
  // Per-item tables.
  // ---------------------------------------------------------------------------

  /** One row of a satisfaction table: the item's code, its name `dic_q[code]`, its index and non-response rate. */
  datatype IndicatorRow = IndicatorRow(code: string, name: string, index: real, nonResponse: real)

  /** The table for the first `k` of the columns `cols`: one row per numeric column, in column order. */
  function IndicatorsUpTo(cols: seq<string>, frame: Dict<Column>, labels: map<string, string>, k: nat): seq<IndicatorRow>
    requires k <= |cols|
    requires forall j :: 0 <= j < |cols| ==> cols[j] in frame.entries && cols[j] in labels
  {
    if k == 0 then []
    else
      var prev := IndicatorsUpTo(cols, frame, labels, k - 1);
      var c := cols[k - 1];
      var col := frame.entries[c];
      if IsNumeric(col) then
        prev + [IndicatorRow(c, labels[c], SatisfactionIndex(col), NonResponseRate(col))]
      else prev
  }

  /** The positions of the numeric columns among the first `k`, in increasing order. */
  function NumericPositions(cols: seq<string>, frame: Dict<Column>, k: nat): (pos: seq<nat>)
    requires k <= |cols|
    requires forall j :: 0 <= j < |cols| ==> cols[j] in frame.entries
    ensures forall j :: 0 <= j < |pos| ==> pos[j] < k && IsNumeric(frame.entries[cols[pos[j]]])
    ensures forall j, j' :: 0 <= j < j' < |pos| ==> pos[j] < pos[j']
  {
    if k == 0 then []
    else
      var prev := NumericPositions(cols, frame, k - 1);
      if IsNumeric(frame.entries[cols[k - 1]]) then prev + [k - 1] else prev
  }

  /**
   * The table has one row for each numeric column and none for the others, in
   * column order; each row carries the column's code, label, index and
   * non-response rate.
   */
  lemma {:induction false} IndicatorsSpec(cols: seq<string>, frame: Dict<Column>, labels: map<string, string>, k: nat)
    requires k <= |cols|
    requires forall j :: 0 <= j < |cols| ==> cols[j] in frame.entries && cols[j] in labels
    ensures |IndicatorsUpTo(cols, frame, labels, k)| == |NumericPositions(cols, frame, k)|
    ensures forall j :: 0 <= j < |IndicatorsUpTo(cols, frame, labels, k)| ==>
      var c := cols[NumericPositions(cols, frame, k)[j]];
      var row := IndicatorsUpTo(cols, frame, labels, k)[j];
      row == IndicatorRow(c, labels[c], SatisfactionIndex(frame.entries[c]), NonResponseRate(frame.entries[c]))
    ensures forall p :: 0 <= p < k && IsNumeric(frame.entries[cols[p]]) ==> p in NumericPositions(cols, frame, k)
  {
    IndicatorRows(cols, frame, labels, k);
    NumericComplete(cols, frame, k);
  }

  /** Row `j` of the table is built from the `j`th numeric column. */
  lemma {:induction false} IndicatorRows(cols: seq<string>, frame: Dict<Column>, labels: map<string, string>, k: nat)
    requires k <= |cols|
    requires forall j :: 0 <= j < |cols| ==> cols[j] in frame.entries && cols[j] in labels
    ensures |IndicatorsUpTo(cols, frame, labels, k)| == |NumericPositions(cols, frame, k)|
    ensures forall j :: 0 <= j < |IndicatorsUpTo(cols, frame, labels, k)| ==>
      var c := cols[NumericPositions(cols, frame, k)[j]];
      var row := IndicatorsUpTo(cols, frame, labels, k)[j];
      row == IndicatorRow(c, labels[c], SatisfactionIndex(frame.entries[c]), NonResponseRate(frame.entries[c]))
  {
    if k > 0 {
      IndicatorRows(cols, frame, labels, k - 1);
    }
  }

  /** Every numeric column among the first `k` has its position listed. */
  lemma {:induction false} NumericComplete(cols: seq<string>, frame: Dict<Column>, k: nat)
    requires k <= |cols|
    requires forall j :: 0 <= j < |cols| ==> cols[j] in frame.entries
    ensures forall p :: 0 <= p < k && IsNumeric(frame.entries[cols[p]]) ==> p in NumericPositions(cols, frame, k)
  {
    if k > 0 {
      NumericComplete(cols, frame, k - 1);
    }
  }

  // ---------------------------------------------------------------------------
  // From the joined table Q to the tables shown.
  // ---------------------------------------------------------------------------

  /** The position of the first occurrence of `x` in `s`. */
  function FirstIndex(s: seq<string>, x: string): (i: nat)
    requires x in s
    ensures i < |s| && s[i] == x && forall j :: 0 <= j < i ==> s[j] != x
  {
    if x in s[..|s| - 1] then FirstIndex(s[..|s| - 1], x) else |s| - 1
  }

  /** `list(...unique())`: the values in order of first appearance, each once. */
  function Distinct(s: seq<string>): (r: seq<string>)
    ensures forall x :: x in r <==> x in s
    ensures forall i, j :: 0 <= i < j < |r| ==> r[i] in s && r[j] in s && FirstIndex(s, r[i]) < FirstIndex(s, r[j])
    ensures |r| <= |s|
  {
    if s == [] then []
    else
      var prev := Distinct(s[..|s| - 1]);
      var x := s[|s| - 1];
      assert s == s[..|s| - 1] + [x];
      assert forall y :: y in s[..|s| - 1] ==> FirstIndex(s, y) == FirstIndex(s[..|s| - 1], y);
      if x in prev then prev else prev + [x]
  }

  /** The codes of Q, in row order. */
  function Codes(q: seq<JoinedItem>): (cs: seq<string>)
    ensures |cs| == |q| && forall j :: 0 <= j < |q| ==> cs[j] == q[j].item.code
  {
    seq(|q|, j requires 0 <= j < |q| => q[j].item.code)
  }

  /** The rows of Q whose `question_data` is `qd`, by position, in increasing order. */
  function GroupPositions(q: seq<JoinedItem>, qd: string): (pos: seq<nat>)
    ensures forall i :: 0 <= i < |pos| ==> pos[i] < |q| && q[pos[i]].item.questionData == qd
    ensures forall i, i' :: 0 <= i < i' < |pos| ==> pos[i] < pos[i']
    ensures forall j :: 0 <= j < |q| && q[j].item.questionData == qd ==> j in pos
  {
    if q == [] then []
    else
      var prev := GroupPositions(q[..|q| - 1], qd);
      assert forall j :: 0 <= j < |q| - 1 ==> q[..|q| - 1][j] == q[j];
      if q[|q| - 1].item.questionData == qd then prev + [|q| - 1] else prev
  }

  /** Listing the code of each row of the group, by position, lists every code the group carries. */
  lemma {:induction false} GroupCover(q: seq<JoinedItem>, qd: string, cs: seq<string>)
    requires |cs| == |GroupPositions(q, qd)|
    requires forall i :: 0 <= i < |cs| ==> cs[i] == q[GroupPositions(q, qd)[i]].item.code
    ensures forall c :: (exists j :: 0 <= j < |q| && q[j].item.questionData == qd && q[j].item.code == c) ==> c in cs
  {
    var pos := GroupPositions(q, qd);
    forall c | exists j :: 0 <= j < |q| && q[j].item.questionData == qd && q[j].item.code == c
      ensures c in cs
    {
      var j :| 0 <= j < |q| && q[j].item.questionData == qd && q[j].item.code == c;
      var i :| 0 <= i < |pos| && pos[i] == j;
      assert cs[i] == c;
    }
  }

  /**
   * `Q[Q['question_data'] == qd]['subquestions']`: the codes of one question
   * group, in row order; a code occurs once per row of the group.
   */
  function GroupCodes(q: seq<JoinedItem>, qd: string): (cs: seq<string>)
    ensures |cs| == |GroupPositions(q, qd)|
    ensures forall i :: 0 <= i < |cs| ==> cs[i] == q[GroupPositions(q, qd)[i]].item.code
    ensures forall c :: c in cs <==> exists j :: 0 <= j < |q| && q[j].item.questionData == qd && q[j].item.code == c
  {
    var pos := GroupPositions(q, qd);
    var cs := seq(|pos|, i requires 0 <= i < |pos| => q[pos[i]].item.code);
    GroupCover(q, qd, cs);
    cs
  }

  /** The labels after the first `k` rows of Q: each code seen so far with the text of its last row so far. */
  function LabelsUpTo(q: seq<JoinedItem>, k: nat): (m: map<string, string>)
    requires k <= |q|
    ensures forall c :: c in m <==> exists j :: 0 <= j < k && q[j].item.code == c
  {
    if k == 0 then map[]
    else LabelsUpTo(q, k - 1)[q[k - 1].item.code := q[k - 1].item.text]
  }

  /** A row whose code does not recur among the first `k` rows gives that code its label. */
  lemma {:induction false} LabelsUpToLast(q: seq<JoinedItem>, k: nat, j: nat)
    requires j < k <= |q|
    requires forall j' :: j < j' < k ==> q[j'].item.code != q[j].item.code
    ensures q[j].item.code in LabelsUpTo(q, k) && LabelsUpTo(q, k)[q[j].item.code] == q[j].item.text
  {
    if j < k - 1 {
      LabelsUpToLast(q, k - 1, j);
    }
  }

  /** Each code of Q is labelled with the text of the last row carrying it. */
  lemma {:induction false} LabelsLast(q: seq<JoinedItem>)
    ensures forall j :: 0 <= j < |q| && (forall j' :: j < j' < |q| ==> q[j'].item.code != q[j].item.code) ==>
      q[j].item.code in LabelsUpTo(q, |q|) && LabelsUpTo(q, |q|)[q[j].item.code] == q[j].item.text
  {
    forall j | 0 <= j < |q| && (forall j' :: j < j' < |q| ==> q[j'].item.code != q[j].item.code)
      ensures q[j].item.code in LabelsUpTo(q, |q|) && LabelsUpTo(q, |q|)[q[j].item.code] == q[j].item.text
    {
      LabelsUpToLast(q, |q|, j);
    }
  }

  /** `dict(zip(Q['subquestions'], Q['text']))`: each code of Q labelled with the text of its last row. */
  function Labels(q: seq<JoinedItem>): (m: map<string, string>)
    ensures forall c :: c in m <==> exists j :: 0 <= j < |q| && q[j].item.code == c
    ensures forall j :: 0 <= j < |q| && (forall j' :: j < j' < |q| ==> q[j'].item.code != q[j].item.code) ==>
      q[j].item.code in m && m[q[j].item.code] == q[j].item.text
  {
    LabelsLast(q);
    LabelsUpTo(q, |q|)
  }

  /** Every code of Q is a column of the frame, as the lenient join guarantees. */
  ghost predicate CodesAreColumns(q: seq<JoinedItem>, frame: Dict<Column>) {
    forall j :: 0 <= j < |q| ==> q[j].item.code in frame.entries
  }

  /**
   * A column has a row in the table exactly when it is one of `cols` and
   * numeric; the row shows its name `labels[code]`, and the index and
   * non-response rate of its column.
   */
  lemma {:induction false} TableRows(cols: seq<string>, frame: Dict<Column>, labels: map<string, string>, c: string)
    requires forall j :: 0 <= j < |cols| ==> cols[j] in frame.entries && cols[j] in labels
    ensures (exists j :: 0 <= j < |IndicatorsUpTo(cols, frame, labels, |cols|)| && IndicatorsUpTo(cols, frame, labels, |cols|)[j].code == c)
      <==> c in cols && IsNumeric(frame.entries[c])
    ensures forall j :: 0 <= j < |IndicatorsUpTo(cols, frame, labels, |cols|)| ==>
      var row := IndicatorsUpTo(cols, frame, labels, |cols|)[j];
      && row.code in cols && row.code in frame.entries && IsNumeric(frame.entries[row.code])
      && row.code in labels && row.name == labels[row.code]
      && row.index == SatisfactionIndex(frame.entries[row.code])
      && row.nonResponse == NonResponseRate(frame.entries[row.code])
  {
    var t := IndicatorsUpTo(cols, frame, labels, |cols|);
    var pos := NumericPositions(cols, frame, |cols|);
    IndicatorsSpec(cols, frame, labels, |cols|);
    if c in cols && IsNumeric(frame.entries[c]) {
      var p :| 0 <= p < |cols| && cols[p] == c;
      var j :| 0 <= j < |pos| && pos[j] == p;
      assert t[j].code == c;
    }
  }

  /** Over the distinct codes of `s`, the table's rows follow the order in which the codes first appear in `s`. */
  lemma {:induction false} InCodeOrder(s: seq<string>, frame: Dict<Column>, labels: map<string, string>)
    requires Resolvable(Distinct(s), frame, labels)
    ensures forall j, j' :: 0 <= j < j' < |IndicatorsUpTo(Distinct(s), frame, labels, |Distinct(s)|)| ==>
      var t := IndicatorsUpTo(Distinct(s), frame, labels, |Distinct(s)|);
      t[j].code in s && t[j'].code in s && FirstIndex(s, t[j].code) < FirstIndex(s, t[j'].code)
  {
    var cols := Distinct(s);
    var t := IndicatorsUpTo(cols, frame, labels, |cols|);
    var pos := NumericPositions(cols, frame, |cols|);
    IndicatorRows(cols, frame, labels, |cols|);
    forall j, j' | 0 <= j < j' < |t|
      ensures t[j].code in s && t[j'].code in s && FirstIndex(s, t[j].code) < FirstIndex(s, t[j'].code)
    {
      assert t[j].code == cols[pos[j]] && t[j'].code == cols[pos[j']];
      assert pos[j] < pos[j'];
    }
  }

  /** Each element of `cols` is a column of the frame and has a label. */
  ghost predicate Resolvable(cols: seq<string>, frame: Dict<Column>, labels: map<string, string>) {
    forall j :: 0 <= j < |cols| ==> cols[j] in frame.entries && cols[j] in labels
  }

  /**
   * The table of one question group (`cols = ...unique()`, `replace`,
   * `select_dtypes`, index, relabel): a code has a row exactly when some item of
   * the group carries it and its column is numeric; the rows follow the order in
   * which the codes first appear in the group; each row is labelled with
   * `dic_q[code]` and holds its column's index and non-response rate.
   */
  function GroupTable(q: seq<JoinedItem>, frame: Dict<Column>, qd: string): (t: seq<IndicatorRow>)
    requires CodesAreColumns(q, frame)
    ensures forall c :: (exists j :: 0 <= j < |t| && t[j].code == c) <==>
      c in GroupCodes(q, qd) && c in frame.entries && IsNumeric(frame.entries[c])
    ensures forall j, j' :: 0 <= j < j' < |t| ==>
      t[j].code in GroupCodes(q, qd) && t[j'].code in GroupCodes(q, qd) &&
      FirstIndex(GroupCodes(q, qd), t[j].code) < FirstIndex(GroupCodes(q, qd), t[j'].code)
    ensures forall j :: 0 <= j < |t| ==>
      && t[j].code in frame.entries && IsNumeric(frame.entries[t[j].code])
      && t[j].code in Labels(q) && t[j].name == Labels(q)[t[j].code]
      && t[j].index == SatisfactionIndex(frame.entries[t[j].code])
      && t[j].nonResponse == NonResponseRate(frame.entries[t[j].code])
  {
    var cols := Distinct(GroupCodes(q, qd));
    var labels := Labels(q);
    assert Resolvable(cols, frame, labels) by {
      forall j | 0 <= j < |cols|
        ensures cols[j] in frame.entries && cols[j] in labels
      {
        assert cols[j] in GroupCodes(q, qd);
      }
    }
    forall c
      ensures (exists j :: 0 <= j < |IndicatorsUpTo(cols, frame, labels, |cols|)| && IndicatorsUpTo(cols, frame, labels, |cols|)[j].code == c)
        <==> c in GroupCodes(q, qd) && c in frame.entries && IsNumeric(frame.entries[c])
    {
      TableRows(cols, frame, labels, c);
      if c in GroupCodes(q, qd) {
        var i :| 0 <= i < |q| && q[i].item.questionData == qd && q[i].item.code == c;
      }
    }
    TableRows(cols, frame, labels, "");
    InCodeOrder(GroupCodes(q, qd), frame, labels);
    IndicatorsUpTo(cols, frame, labels, |cols|)
  }

  /**
   * The summary table over every code of Q (`list(dic_q.keys())`, in order of
   * first appearance), with the non-response rate beside the index.
   */
  function SummaryTable(q: seq<JoinedItem>, frame: Dict<Column>): (t: seq<IndicatorRow>)
    requires CodesAreColumns(q, frame)
    ensures forall c :: (exists j :: 0 <= j < |t| && t[j].code == c) <==>
      c in Codes(q) && c in frame.entries && IsNumeric(frame.entries[c])
    ensures forall j, j' :: 0 <= j < j' < |t| ==>
      t[j].code in Codes(q) && t[j'].code in Codes(q) &&
      FirstIndex(Codes(q), t[j].code) < FirstIndex(Codes(q), t[j'].code)
    ensures forall j :: 0 <= j < |t| ==>
      && t[j].code in frame.entries && IsNumeric(frame.entries[t[j].code])
      && t[j].code in Labels(q) && t[j].name == Labels(q)[t[j].code]
      && t[j].index == SatisfactionIndex(frame.entries[t[j].code])
      && t[j].nonResponse == NonResponseRate(frame.entries[t[j].code])
  {
    var cols := Distinct(Codes(q));
    var labels := Labels(q);
    assert Resolvable(cols, frame, labels) by {
      forall j | 0 <= j < |cols|
        ensures cols[j] in frame.entries && cols[j] in labels
      {
        assert cols[j] in Codes(q);
        var i :| 0 <= i < |q| && Codes(q)[i] == cols[j];
      }
    }
    forall c
      ensures (exists j :: 0 <= j < |IndicatorsUpTo(cols, frame, labels, |cols|)| && IndicatorsUpTo(cols, frame, labels, |cols|)[j].code == c)
        <==> c in Codes(q) && c in frame.entries && IsNumeric(frame.entries[c])
    {
      TableRows(cols, frame, labels, c);
    }
    TableRows(cols, frame, labels, "");
    InCodeOrder(Codes(q), frame, labels);
    IndicatorsUpTo(cols, frame, labels, |cols|)
  }

  /** The tables are built over the output of the lenient join, whose codes are all columns. */
  lemma {:induction false} LenientCodesAreColumns(items: seq<Item>, cols: Dict<Column>)
    ensures LenientJoin(items, cols).Ok? ==> CodesAreColumns(LenientJoin(items, cols).value, cols)
  {
    LenientJoinSpec(items, cols, |items|);
  }
}
