/**
 * The flattener (`transform_questions_to_dataframe`, and the module-level loop
 * of the first script version): one item per answerable unit, i.e. the question
 * itself when it has no sub-questions, otherwise one item per sub-question,
 * tagged with the column code under which the responses are stored.
 */
module Flattener {
  import opened OrderedDict
  import opened Codebook

  /** One row of the table Q: `question_id`, `question_data`, `subquestions` (the column code) and `text`. */
  datatype Item = Item(questionId: string, questionData: string, code: string, text: string)

  /** The column code of a sub-question: `f"{question_id}[{subquestion_id}]"`. */
  function SubCode(qid: string, sid: string): string {
    qid + "[" + sid + "]"
  }

  /** The `s`-th item of a question: the question itself, or its `s`-th sub-question coded `qid[sid]`. */
  function ItemAt(qid: string, q: Question, s: nat): Item {
    if s < |q.subquestions| then Item(qid, q.text, SubCode(qid, q.subquestions[s].id), q.subquestions[s].text)
    else Item(qid, q.text, qid, q.text)
  }

  /** The items of the first `s` sub-questions. */
  function SubItems(qid: string, q: Question, s: nat): (items: seq<Item>)
    requires s <= |q.subquestions|
    ensures |items| == s
  {
    if s == 0 then [] else SubItems(qid, q, s - 1) + [ItemAt(qid, q, s - 1)]
  }

  /** The items one question yields. */
  function ItemsOf(qid: string, q: Question): (items: seq<Item>)
    ensures |items| == if |q.subquestions| == 0 then 1 else |q.subquestions|
  {
    if |q.subquestions| == 0 then [Item(qid, q.text, qid, q.text)] else SubItems(qid, q, |q.subquestions|)
  }

  /** The blocks of the first `k` lists, one after another. */
  function Concat<T>(blocks: seq<seq<T>>, k: nat): seq<T>
    requires k <= |blocks|
  {
    if k == 0 then [] else Concat(blocks, k - 1) + blocks[k - 1]
  }

  /** The blocks before `a` come first, unchanged by the blocks after them. */
  lemma {:induction false} ConcatPrefix<T>(blocks: seq<seq<T>>, a: nat, m: nat)
    requires a <= m <= |blocks|
    ensures Concat(blocks, a) <= Concat(blocks, m)
    decreases m - a
  {
    if a < m {
      ConcatPrefix(blocks, a, m - 1);
      assert Concat(blocks, m - 1) <= Concat(blocks, m);
    }
  }

  /** Element `s` of block `a` sits right after the blocks before it. */
  lemma {:induction false} ConcatAt<T>(blocks: seq<seq<T>>, a: nat, m: nat, s: nat)
    requires a < m <= |blocks| && s < |blocks[a]|
    ensures |Concat(blocks, a)| + s < |Concat(blocks, m)|
    ensures Concat(blocks, m)[|Concat(blocks, a)| + s] == blocks[a][s]
  {
    assert Concat(blocks, a + 1) == Concat(blocks, a) + blocks[a];
    ConcatPrefix(blocks, a + 1, m);
  }

  /** The block of items of each question of `questions.items()`. */
  function Blocks(qs: seq<(string, Question)>): (bs: seq<seq<Item>>)
    ensures |bs| == |qs| && forall i :: 0 <= i < |qs| ==> bs[i] == ItemsOf(qs[i].0, qs[i].1)
  {
    seq(|qs|, i requires 0 <= i < |qs| => ItemsOf(qs[i].0, qs[i].1))
  }

  /** The items of the first `k` questions of `questions.items()`. */
  function FlattenUpTo(qs: seq<(string, Question)>, k: nat): (items: seq<Item>)
    requires k <= |qs|
  {
    Concat(Blocks(qs), k)
  }

  function Flatten(d: Dict<Question>): seq<Item>
    requires d.Valid()
  {
    FlattenUpTo(d.Items(), |d.keys|)
  }

  /** One more question appends its block of items. */
  lemma {:induction false} FlattenStep(qs: seq<(string, Question)>, k: nat)
    requires k < |qs|
    ensures FlattenUpTo(qs, k + 1) == FlattenUpTo(qs, k) + ItemsOf(qs[k].0, qs[k].1)
  {
    assert Blocks(qs)[k] == ItemsOf(qs[k].0, qs[k].1);
  }

  /** The inner loop: one item per sub-question appended to Q, in order. */
  method AppendSubItems(items: seq<Item>, qid: string, q: Question) returns (r: seq<Item>)
    ensures r == items + SubItems(qid, q, |q.subquestions|)
  {
    r := items;
    for s := 0 to |q.subquestions|
      invariant r == items + SubItems(qid, q, s)
    {
      var sub := q.subquestions[s];
      r := r + [Item(qid, q.text, SubCode(qid, sub.id), sub.text)];
    }
  }

  /** The loop that appends one dict per item to the list Q. */
  method TransformQuestions(d: Dict<Question>) returns (items: seq<Item>)
    requires d.Valid()
    ensures items == Flatten(d)
  {
    var qs := d.Items();
    items := [];
    for k := 0 to |qs|
      invariant items == FlattenUpTo(qs, k)
    {
      var (qid, q) := qs[k];
      FlattenStep(qs, k);
      if |q.subquestions| == 0 {
        items := items + [Item(qid, q.text, qid, q.text)];
      } else {
        items := AppendSubItems(items, qid, q);
      }
    }
  }

  /** Number of items: one per question without sub-questions, plus one per sub-question. */
  function ItemCount(qs: seq<(string, Question)>, k: nat): nat
    requires k <= |qs|
  {
    if k == 0 then 0
    else
      var subs := |qs[k - 1].1.subquestions|;
      ItemCount(qs, k - 1) + (if subs == 0 then 1 else subs)
  }

  /** The table has max(1, number of sub-questions) rows per question. */
  lemma {:induction false} FlattenCount(qs: seq<(string, Question)>, k: nat)
    requires k <= |qs|
    ensures |FlattenUpTo(qs, k)| == ItemCount(qs, k)
  {
    if k > 0 {
      FlattenCount(qs, k - 1);
      assert FlattenUpTo(qs, k) == FlattenUpTo(qs, k - 1) + ItemsOf(qs[k - 1].0, qs[k - 1].1);
    }
  }

  /** Every question contributes at least one item. */
  lemma {:induction false} ItemCountAtLeast(qs: seq<(string, Question)>, k: nat)
    requires k <= |qs|
    ensures ItemCount(qs, k) >= k
  {
    if k > 0 {
      ItemCountAtLeast(qs, k - 1);
    }
  }

  /** The table of items is empty exactly when the codebook has no question. */
  lemma {:induction false} FlattenEmpty(d: Dict<Question>)
    requires d.Valid()
    ensures |Flatten(d)| == 0 <==> |d.keys| == 0
  {
    FlattenCount(d.Items(), |d.keys|);
    ItemCountAtLeast(d.Items(), |d.keys|);
  }

  /** The items of the first `a` questions come first, unchanged by later questions. */
  lemma {:induction false} FlattenPrefix(qs: seq<(string, Question)>, a: nat, m: nat)
    requires a <= m <= |qs|
    ensures FlattenUpTo(qs, a) <= FlattenUpTo(qs, m)
  {
    ConcatPrefix(Blocks(qs), a, m);
  }

  /** The `t`th of the first `s` sub-question items is the item of sub-question `t`. */
  lemma {:induction false} SubItemsAt(qid: string, q: Question, s: nat, t: nat)
    requires t < s <= |q.subquestions|
    ensures SubItems(qid, q, s)[t] == ItemAt(qid, q, t)
  {
    if t < s - 1 {
      SubItemsAt(qid, q, s - 1, t);
    }
  }

  /**
   * The items of one question: its own code and text when it has no
   * sub-questions, otherwise `qid[sid]` and the sub-question text for each
   * sub-question, in order; every item carries the question's text as
   * `question_data`.
   */
  lemma {:induction false} ItemsOfAt(qid: string, q: Question, t: nat)
    requires t < |ItemsOf(qid, q)|
    ensures ItemsOf(qid, q)[t] == ItemAt(qid, q, t)
  {
    if |q.subquestions| > 0 {
      SubItemsAt(qid, q, |q.subquestions|, t);
    }
  }

  /**
   * Question number `a` contributes one contiguous block, its items in order,
   * placed right after the items of the questions before it. Later questions do
   * not disturb the block.
   */
  lemma {:induction false} FlattenBlock(qs: seq<(string, Question)>, a: nat, m: nat, s: nat)
    requires a < m <= |qs|
    requires s < |ItemsOf(qs[a].0, qs[a].1)|
    ensures |FlattenUpTo(qs, a)| + s < |FlattenUpTo(qs, m)|
    ensures FlattenUpTo(qs, m)[|FlattenUpTo(qs, a)| + s] == ItemsOf(qs[a].0, qs[a].1)[s]
  {
    var blocks := Blocks(qs);
    ConcatAt(blocks, a, m, s);
    assert blocks[a] == ItemsOf(qs[a].0, qs[a].1);
  }

  /** The item names a question of the dict and carries that question's text as `question_data`. */
  ghost predicate BelongsTo(it: Item, d: Dict<Question>) {
    it.questionId in d.entries && it.questionData == d.entries[it.questionId].text
  }

  /** Every item belongs to a question of the dict and carries that question's text as `question_data`. */
  lemma {:induction false} FlattenOwners(d: Dict<Question>, k: nat)
    requires d.Valid() && k <= |d.keys|
    ensures forall i :: 0 <= i < |FlattenUpTo(d.Items(), k)| ==> BelongsTo(FlattenUpTo(d.Items(), k)[i], d)
  {
    if k > 0 {
      var qs := d.Items();
      FlattenOwners(d, k - 1);
      var prev := FlattenUpTo(qs, k - 1);
      var qid := d.keys[k - 1];
      var block := ItemsOf(qid, d.entries[qid]);
      assert qs[k - 1] == (qid, d.entries[qid]);
      var items := prev + block;
      assert items == FlattenUpTo(qs, k);
      assert qid in d.keys;
      forall i | 0 <= i < |items|
        ensures BelongsTo(items[i], d)
      {
        if i < |prev| {
          assert items[i] == prev[i];
        } else {
          assert items[i] == block[i - |prev|];
          ItemsOfAt(qid, d.entries[qid], i - |prev|);
        }
      }
    }
  }

  /**
   * Column codes need not be unique: a question coded "A[x]" without
   * sub-questions and a question "A" with sub-question "x" both yield "A[x]".
   */
  lemma {:induction false} CodesMayCollide()
    ensures var qs := [("A[x]", Question("t", [])), ("A", Question("u", [SubQuestion("x", "v")]))];
      |FlattenUpTo(qs, 2)| == 2 && FlattenUpTo(qs, 2)[0].code == FlattenUpTo(qs, 2)[1].code
  {
    var qs := [("A[x]", Question("t", [])), ("A", Question("u", [SubQuestion("x", "v")]))];
    assert FlattenUpTo(qs, 1) == [Item("A[x]", "t", "A[x]", "t")];
    assert ItemsOf("A", Question("u", [SubQuestion("x", "v")])) == [Item("A", "u", "A" + "[" + "x" + "]", "v")];
  }
}
