/**
 * The filters of the results tab: the options picked for each of the first
 * two columns are pruned (a column with nothing picked, or with an option
 * containing "Tod", as in "Todos"/"Todas", is not filtered), and the rest is
 * turned into a pandas query string, `(col=="a" | col=="b")&(...)`.
 */
module Selection {
  import opened Wrappers
  import opened OrderedDict

  /** The options picked for each filtered column, in the order of `keys_dict`. */
  type Picks = Dict<seq<string>>

  /** `d.pop(k)` on a key that is absent. */
  datatype KeyError = KeyError(key: string)

  /** The three characters of `k` from position `i` spell "Tod". */
  predicate TodAt(k: string, i: nat)
    requires i + 3 <= |k|
  {
    k[i..i + 3] == "Tod"
  }

  /** `'Tod' in k`: the option contains the substring "Tod". */
  predicate HasTod(k: string) {
    exists i: nat :: i + 3 <= |k| && TodAt(k, i)
  }

  /** How many of the options contain "Tod". */
  function TodCount(opt: seq<string>): (n: nat)
    ensures n <= |opt|
  {
    if opt == [] then 0 else TodCount(opt[..|opt| - 1]) + (if HasTod(opt[|opt| - 1]) then 1 else 0)
  }

  /** `keys.pop(nam)`. */
  function Pop(d: Picks, k: string): (r: Result<Picks, KeyError>)
    requires d.Valid()
    ensures r.Ok? <==> k in d.entries
    ensures r.Ok? ==> r.value.Valid() && r.value.entries == d.entries - {k}
  {
    if k in d.entries then Ok(d.Remove(k)) else Err(KeyError(k))
  }

  // ---------------------------------------------------------------------------
  // The pruning loop as written.
  // ---------------------------------------------------------------------------

  /** The inner loop `for k in opt: if 'Tod' in k: keys.pop(nam)` over the first `j` options. */
  function InnerUpTo(d: Picks, nam: string, opt: seq<string>, j: nat): (r: Result<Picks, KeyError>)
    requires d.Valid() && j <= |opt|
    ensures r.Ok? ==> r.value.Valid()
  {
    if j == 0 then Ok(d)
    else
      match InnerUpTo(d, nam, opt, j - 1)
      case Err(e) => Err(e)
      case Ok(d') => if HasTod(opt[j - 1]) then Pop(d', nam) else Ok(d')
  }

  /** One pass of the outer loop for the key `nam`: the pop for an empty pick, then the inner loop. */
  function Visit(d: Picks, nam: string, opt: seq<string>): (r: Result<Picks, KeyError>)
    requires d.Valid()
    ensures r.Ok? ==> r.value.Valid()
  {
    if |opt| == 0 then Pop(d, nam) else InnerUpTo(d, nam, opt, |opt|)
  }

  /** `keys` after the outer loop has visited the first `i` keys of `keys_dict`. */
  function PruneAsWrittenUpTo(sel: Picks, i: nat): (r: Result<Picks, KeyError>)
    requires sel.Valid() && i <= |sel.keys|
    ensures r.Ok? ==> r.value.Valid()
  {
    if i == 0 then Ok(sel)
    else
      match PruneAsWrittenUpTo(sel, i - 1)
      case Err(e) => Err(e)
      case Ok(d) =>
        var nam := sel.keys[i - 1];
        Visit(d, nam, sel.entries[nam])
  }

  function PruneAsWritten(sel: Picks): Result<Picks, KeyError>
    requires sel.Valid()
  {
    PruneAsWrittenUpTo(sel, |sel.keys|)
  }

  // ---------------------------------------------------------------------------
  // The intended pruning.
  // ---------------------------------------------------------------------------

  /** The key is dropped: nothing was picked, or some pick contains "Tod". */
  predicate Dropped(opt: seq<string>) {
    |opt| == 0 || TodCount(opt) > 0
  }

  /** The intended loop: each key popped at most once. */
  function PruneUpTo(sel: Picks, i: nat): (r: Picks)
    requires sel.Valid() && i <= |sel.keys|
    ensures r.Valid()
  {
    if i == 0 then sel
    else
      var prev := PruneUpTo(sel, i - 1);
      var nam := sel.keys[i - 1];
      if Dropped(sel.entries[nam]) then prev.Remove(nam) else prev
  }

  function Prune(sel: Picks): Picks
    requires sel.Valid()
  {
    PruneUpTo(sel, |sel.keys|)
  }

  /** After `i` keys: a key is kept unless it is among them and dropped; kept keys keep their picks. */
  lemma {:induction false} PruneUpToSpec(sel: Picks, i: nat, k: string)
    requires sel.Valid() && i <= |sel.keys|
    ensures k in PruneUpTo(sel, i).entries <==>
      k in sel.entries && !(k in sel.keys[..i] && Dropped(sel.entries[k]))
    ensures k in PruneUpTo(sel, i).entries ==> PruneUpTo(sel, i).entries[k] == sel.entries[k]
  {
    if i > 0 {
      PruneUpToSpec(sel, i - 1, k);
      assert k in sel.keys[..i] <==> k in sel.keys[..i - 1] || k == sel.keys[i - 1] by {
        assert sel.keys[..i] == sel.keys[..i - 1] + [sel.keys[i - 1]];
      }
    }
  }

  /**
   * The intended pruning keeps exactly the columns with a non-empty pick and
   * no "Tod" option, with their picks unchanged, in their original order.
   */
  lemma {:induction false} PruneSpec(sel: Picks, k: string)
    requires sel.Valid()
    ensures k in Prune(sel).entries <==> k in sel.entries && !Dropped(sel.entries[k])
    ensures k in Prune(sel).entries ==> Prune(sel).entries[k] == sel.entries[k]
  {
    PruneUpToSpec(sel, |sel.keys|, k);
    assert sel.keys[..|sel.keys|] == sel.keys;
  }

  /** The inner loop on a present key pops it on the first "Tod" option and fails on the second. */
  lemma {:induction false} InnerSpec(d: Picks, nam: string, opt: seq<string>, j: nat)
    requires d.Valid() && j <= |opt| && nam in d.entries
    ensures TodCount(opt[..j]) == 0 ==> InnerUpTo(d, nam, opt, j) == Ok(d)
    ensures TodCount(opt[..j]) == 1 ==> InnerUpTo(d, nam, opt, j) == Ok(d.Remove(nam))
    ensures TodCount(opt[..j]) >= 2 ==> InnerUpTo(d, nam, opt, j) == Err(KeyError(nam))
  {
    if j > 0 {
      InnerSpec(d, nam, opt, j - 1);
      assert opt[..j][..j - 1] == opt[..j - 1];
      if TodCount(opt[..j - 1]) >= 2 {
        assert InnerUpTo(d, nam, opt, j - 1).Err?;
      }
    }
  }

  /** One visit of a present key: it is popped once when dropped, and a second "Tod" option raises. */
  lemma {:induction false} VisitSpec(d: Picks, nam: string, opt: seq<string>)
    requires d.Valid() && nam in d.entries
    ensures TodCount(opt) >= 2 ==> Visit(d, nam, opt) == Err(KeyError(nam))
    ensures TodCount(opt) < 2 ==> Visit(d, nam, opt) == Ok(if Dropped(opt) then d.Remove(nam) else d)
  {
    if |opt| > 0 {
      InnerSpec(d, nam, opt, |opt|);
      assert opt[..|opt|] == opt;
    }
  }

  /** Some key among the first `i` has two or more options containing "Tod". */
  predicate DoubleTodBefore(sel: Picks, i: nat)
    requires sel.Valid() && i <= |sel.keys|
  {
    exists t :: 0 <= t < i && TodCount(sel.entries[sel.keys[t]]) >= 2
  }

  lemma {:induction false} DoubleTodStep(sel: Picks, i: nat)
    requires sel.Valid() && 0 < i <= |sel.keys|
    ensures DoubleTodBefore(sel, i) <==>
      DoubleTodBefore(sel, i - 1) || TodCount(sel.entries[sel.keys[i - 1]]) >= 2
  {
    if DoubleTodBefore(sel, i) {
      var t :| 0 <= t < i && TodCount(sel.entries[sel.keys[t]]) >= 2;
      if t < i - 1 {
        assert DoubleTodBefore(sel, i - 1);
      }
    }
  }

  /**
   * As written, the loop agrees with the intended pruning until it meets a key
   * with two options containing "Tod"; there the second `pop` raises KeyError.
   */
  lemma {:induction false} AsWrittenSpec(sel: Picks, i: nat)
    requires sel.Valid() && i <= |sel.keys|
    ensures !DoubleTodBefore(sel, i) ==> PruneAsWrittenUpTo(sel, i) == Ok(PruneUpTo(sel, i))
    ensures DoubleTodBefore(sel, i) ==> PruneAsWrittenUpTo(sel, i).Err?
  {
    if i > 0 {
      AsWrittenSpec(sel, i - 1);
      DoubleTodStep(sel, i);
      if !DoubleTodBefore(sel, i - 1) {
        var nam := sel.keys[i - 1];
        var prev := PruneUpTo(sel, i - 1);
        PruneUpToSpec(sel, i - 1, nam);
        assert nam !in sel.keys[..i - 1];
        VisitSpec(prev, nam, sel.entries[nam]);
      }
    }
  }

  /** The two prunings agree exactly when no column has two picks containing "Tod". */
  lemma {:induction false} AsWrittenAgrees(sel: Picks)
    requires sel.Valid()
    ensures PruneAsWritten(sel).Ok? <==> !DoubleTodBefore(sel, |sel.keys|)
    ensures PruneAsWritten(sel).Ok? ==> PruneAsWritten(sel).value == Prune(sel)
  {
    AsWrittenSpec(sel, |sel.keys|);
  }

  /** Picking both "Todos" and "Todas" for one column makes the script fail, where the intended pruning just drops the column. */
  lemma {:induction false} DoubleTodFails()
    ensures var sel := Dict(["Curso"], map["Curso" := ["Todos", "Todas"]]);
      sel.Valid() && PruneAsWritten(sel) == Err(KeyError("Curso")) && Prune(sel).entries == map[]
  {
    var sel := Dict(["Curso"], map["Curso" := ["Todos", "Todas"]]);
    var opt := ["Todos", "Todas"];
    assert HasTod("Todos") by { assert TodAt("Todos", 0); }
    assert HasTod("Todas") by { assert TodAt("Todas", 0); }
    assert opt[..1] == ["Todos"];
    assert TodCount(opt) == 2;
    VisitSpec(sel, "Curso", opt);
    assert sel.Remove("Curso").entries == map[];
  }

  // ---------------------------------------------------------------------------
  // The query string.
  // ---------------------------------------------------------------------------

  /** The parts separated by `sep`. */
  function JoinWith(sep: string, parts: seq<string>): string {
    if |parts| == 0 then ""
    else if |parts| == 1 then parts[0]
    else parts[0] + sep + JoinWith(sep, parts[1..])
  }

  /** Joining one more part puts a separator before it. */
  lemma {:induction false} JoinSnoc(sep: string, parts: seq<string>, p: string)
    requires |parts| > 0
    ensures JoinWith(sep, parts + [p]) == JoinWith(sep, parts) + sep + p
  {
    if |parts| > 1 {
      JoinSnoc(sep, parts[1..], p);
      assert (parts + [p])[1..] == parts[1..] + [p];
    } else {
      assert (parts + [p])[1..] == [p];
    }
  }

  /** `f'{nam}=="{k}"'`. */
  function Clause(nam: string, k: string): string {
    nam + "==\"" + k + "\""
  }

  function Clauses(nam: string, opt: seq<string>): (cs: seq<string>)
    ensures |cs| == |opt| && forall j :: 0 <= j < |opt| ==> cs[j] == Clause(nam, opt[j])
  {
    seq(|opt|, j requires 0 <= j < |opt| => Clause(nam, opt[j]))
  }

  /** One column's alternatives: `(nam=="a" | nam=="b")`. */
  function Group(nam: string, opt: seq<string>): string {
    "(" + JoinWith(" | ", Clauses(nam, opt)) + ")"
  }

  function Groups(sel: Picks): (gs: seq<string>)
    requires sel.Valid()
    ensures |gs| == |sel.keys| && forall i :: 0 <= i < |gs| ==> gs[i] == Group(sel.keys[i], sel.entries[sel.keys[i]])
  {
    seq(|sel.keys|, i requires 0 <= i < |sel.keys| && sel.Valid() => Group(sel.keys[i], sel.entries[sel.keys[i]]))
  }

  /** The query: the groups joined by `&`; no query at all when no column is filtered. */
  function QueryOf(sel: Picks): Option<string>
    requires sel.Valid()
  {
    if |sel.keys| > 0 then Some(JoinWith("&", Groups(sel))) else None
  }

  /** `s` after the inner loop has seen the first `j` options: each clause followed by ` | ` unless it is the last. */
  function PartialGroup(nam: string, opt: seq<string>, j: nat): string
    requires j <= |opt|
  {
    if j == 0 then "(" else "(" + JoinWith(" | ", Clauses(nam, opt)[..j]) + (if j < |opt| then " | " else "")
  }

  /** The groups of the first `i` columns, each followed by `&`. */
  function Terminated(gs: seq<string>): string {
    if gs == [] then "" else Terminated(gs[..|gs| - 1]) + gs[|gs| - 1] + "&"
  }

  lemma {:induction false} TerminatedStep(gs: seq<string>, i: nat)
    requires i < |gs|
    ensures Terminated(gs[..i + 1]) == Terminated(gs[..i]) + gs[i] + "&"
  {
    assert gs[..i + 1][..i] == gs[..i];
  }

  /** Ending every group with `&` is joining them with `&` and adding one `&` at the end. */
  lemma {:induction false} TerminatedIsJoin(gs: seq<string>)
    requires |gs| > 0
    ensures Terminated(gs) == JoinWith("&", gs) + "&"
  {
    var init := gs[..|gs| - 1];
    if |init| > 0 {
      TerminatedIsJoin(init);
      JoinSnoc("&", init, gs[|gs| - 1]);
      assert init + [gs[|gs| - 1]] == gs;
    } else {
      assert Terminated(init) == "";
    }
  }

  /** One turn of the inner loop appends a clause, and ` | ` unless the option is the last. */
  lemma {:induction false} PartialGroupStep(nam: string, opt: seq<string>, j: nat)
    requires j < |opt|
    ensures PartialGroup(nam, opt, j + 1) ==
      PartialGroup(nam, opt, j) + Clause(nam, opt[j]) + (if j < |opt| - 1 then " | " else "")
  {
    var cs := Clauses(nam, opt);
    assert cs[..j + 1] == cs[..j] + [cs[j]];
    if j > 0 {
      JoinSnoc(" | ", cs[..j], cs[j]);
    } else {
      assert cs[..1] == [cs[0]];
    }
  }

  /** Closing the bracket after the last option gives the group. */
  lemma {:induction false} PartialGroupDone(nam: string, opt: seq<string>)
    ensures PartialGroup(nam, opt, |opt|) + ")" == Group(nam, opt)
  {
    var cs := Clauses(nam, opt);
    assert cs[..|opt|] == cs;
    if |opt| == 0 {
      assert JoinWith(" | ", cs) == "";
    }
  }

  /** The clauses of one column, as the inner loop appends them. */
  method BuildGroup(nam: string, opt: seq<string>) returns (s: string)
    ensures s == Group(nam, opt)
  {
    s := "(";
    for j := 0 to |opt|
      invariant s == PartialGroup(nam, opt, j)
    {
      PartialGroupStep(nam, opt, j);
      s := s + Clause(nam, opt[j]);
      if j < |opt| - 1 {
        s := s + " | ";
      }
    }
    PartialGroupDone(nam, opt);
    s := s + ")";
  }

  /** The loop that builds `q` and the final `q[:-1]`; `None` when the script copies the frame unfiltered. */
  method BuildQuery(sel: Picks) returns (q: Option<string>)
    requires sel.Valid()
    ensures q == QueryOf(sel)
  {
    if |sel.keys| == 0 {
      return None;
    }
    var acc := "";
    ghost var gs := Groups(sel);
    for i := 0 to |sel.keys|
      invariant acc == Terminated(gs[..i])
    {
      var nam := sel.keys[i];
      var s := BuildGroup(nam, sel.entries[nam]);
      TerminatedStep(gs, i);
      acc := acc + s + "&";
    }
    assert gs[..|sel.keys|] == gs;
    TerminatedIsJoin(gs);
    q := Some(acc[..|acc| - 1]);
  }

  // ---------------------------------------------------------------------------
  // Reading the query back.
  // ---------------------------------------------------------------------------

  /** The pieces of `s` between occurrences of the character `c`. */
  function SplitOn(s: string, c: char): (parts: seq<string>)
    ensures |parts| > 0
    decreases |s|
  {
    if c !in s then [s]
    else
      var i := FirstIndex(s, c);
      [s[..i]] + SplitOn(s[i + 1..], c)
  }

  /** The position of the first `c` in `s`. */
  function FirstIndex(s: string, c: char): (i: nat)
    requires c in s
    ensures i < |s| && s[i] == c && c !in s[..i]
  {
    if s[0] == c then 0
    else
      var i := FirstIndex(s[1..], c);
      assert s[..i + 1] == [s[0]] + s[1..][..i];
      i + 1
  }

  /** Splitting the joined parts on the separator gives the parts back when no part contains it. */
  lemma {:induction false} SplitJoin(parts: seq<string>, c: char)
    requires |parts| > 0
    requires forall j :: 0 <= j < |parts| ==> c !in parts[j]
    ensures SplitOn(JoinWith([c], parts), c) == parts
  {
    var s := JoinWith([c], parts);
    if |parts| > 1 {
      var rest := JoinWith([c], parts[1..]);
      assert s == parts[0] + [c] + rest;
      assert s[|parts[0]|] == c;
      assert s[..|parts[0]|] == parts[0];
      var i := FirstIndex(s, c);
      assert i == |parts[0]|;
      assert s[i + 1..] == rest;
      SplitJoin(parts[1..], c);
      assert parts == [parts[0]] + parts[1..];
    }
  }

  /** With no `&` in any column name or option, the query splits back into one group per filtered column, in order. */
  lemma {:induction false} QueryGroups(sel: Picks)
    requires sel.Valid() && |sel.keys| > 0
    requires forall i :: 0 <= i < |sel.keys| ==> '&' !in Group(sel.keys[i], sel.entries[sel.keys[i]])
    ensures SplitOn(QueryOf(sel).value, '&') == Groups(sel)
  {
    assert "&" == ['&'];
    SplitJoin(Groups(sel), '&');
  }

  // ---------------------------------------------------------------------------
  // The filter as intended: prune, then build the query.
  // ---------------------------------------------------------------------------

  /**
   * `keys = keys_dict.copy()`, each dropped column popped once, then the query
   * over what is left; `None` when the frame is used unfiltered.
   */
  method FilterQuery(keysDict: Picks) returns (q: Option<string>)
    requires keysDict.Valid()
    ensures q == QueryOf(Prune(keysDict))
  {
    var keys := keysDict;
    for i := 0 to |keysDict.keys|
      invariant keys == PruneUpTo(keysDict, i)
    {
      var nam := keysDict.keys[i];
      if Dropped(keysDict.entries[nam]) {
        keys := keys.Remove(nam);
      }
    }
    q := BuildQuery(keys);
  }

  /** The frame is used unfiltered exactly when every column is dropped: nothing picked, or a "Tod" option picked. */
  lemma {:induction false} UnfilteredExactly(sel: Picks)
    requires sel.Valid()
    ensures QueryOf(Prune(sel)).None? <==> forall k :: k in sel.entries ==> Dropped(sel.entries[k])
  {
    var kept := Prune(sel);
    forall k | k in sel.entries
      ensures k in kept.entries <==> !Dropped(sel.entries[k])
    {
      PruneSpec(sel, k);
    }
    if |kept.keys| > 0 {
      PruneSpec(sel, kept.keys[0]);
    }
  }
}
