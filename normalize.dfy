/**
 * The column normaliser (`fun_exc_estudantes`, `fun_exc_servidores`). Raw
 * exports of different years name their columns differently; the normaliser
 * copies every column of A into a new frame B under its canonical name
 * (`dic_exc[c]`, or `c` itself when unmapped), then adds an all-missing column
 * for every canonical name still absent. Both functions run the same two loops
 * over different tables, so the algorithm is written once and the two tables
 * are constants.
 */
module Normalize {
  import opened Wrappers
  import opened OrderedDict
  import opened Frames

  /** The name under which column `c` of A is emitted. */
  function Target(dic: Dict<string>, c: string): string {
    if c in dic.entries then dic.entries[c] else c
  }

  /** B's columns after the first loop has copied the first `i` columns of A. */
  function RenameFirst<V>(a: Dict<V>, dic: Dict<string>, i: nat): (b: Dict<V>)
    requires i <= |a.keys| && forall j :: 0 <= j < |a.keys| ==> a.keys[j] in a.entries
    ensures b.Valid()
  {
    if i == 0 then Empty()
    else
      var c := a.keys[i - 1];
      RenameFirst(a, dic, i - 1).Put(Target(dic, c), a.entries[c])
  }

  /** Index of the last of A's first `i` columns emitted under `t`: the copy that wins. */
  function LastSourceOf(keys: seq<string>, dic: Dict<string>, i: nat, t: string): (r: Option<nat>)
    requires i <= |keys|
    ensures r.Some? ==> r.value < i && Target(dic, keys[r.value]) == t
    ensures r.Some? ==> forall s :: r.value < s < i ==> Target(dic, keys[s]) != t
    ensures r.None? ==> forall s :: 0 <= s < i ==> Target(dic, keys[s]) != t
  {
    if i == 0 then None
    else if Target(dic, keys[i - 1]) == t then Some(i - 1)
    else LastSourceOf(keys, dic, i - 1, t)
  }

  /** The column map of `RenameFirst(a, dic, i)`, leaving the key order aside. */
  function RenamedEntries<V>(a: Dict<V>, dic: Dict<string>, i: nat): map<string, V>
    requires i <= |a.keys| && forall j :: 0 <= j < |a.keys| ==> a.keys[j] in a.entries
  {
    if i == 0 then map[]
    else RenamedEntries(a, dic, i - 1)[Target(dic, a.keys[i - 1]) := a.entries[a.keys[i - 1]]]
  }

  lemma {:induction false} RenameFirstEntries<V>(a: Dict<V>, dic: Dict<string>, i: nat)
    requires i <= |a.keys| && forall j :: 0 <= j < |a.keys| ==> a.keys[j] in a.entries
    ensures RenameFirst(a, dic, i).entries == RenamedEntries(a, dic, i)
  {
    if i > 0 {
      RenameFirstEntries(a, dic, i - 1);
      var c := a.keys[i - 1];
      assert c in a.entries;
      assert RenameFirst(a, dic, i).entries == RenameFirst(a, dic, i - 1).entries[Target(dic, c) := a.entries[c]];
      assert RenamedEntries(a, dic, i) == RenamedEntries(a, dic, i - 1)[Target(dic, c) := a.entries[c]];
    }
  }

  /**
   * After the copy loop, B has a column `t` exactly when some column of A is
   * emitted under `t`, and it holds the values of the LAST such column: an
   * earlier column with the same target is overwritten.
   */
  lemma {:induction false} RenameFirstAt<V>(a: Dict<V>, dic: Dict<string>, i: nat, t: string)
    requires i <= |a.keys| && forall j :: 0 <= j < |a.keys| ==> a.keys[j] in a.entries
    ensures t in RenameFirst(a, dic, i).entries <==> LastSourceOf(a.keys, dic, i, t).Some?
    ensures LastSourceOf(a.keys, dic, i, t).Some? ==>
      RenameFirst(a, dic, i).entries[t] == a.entries[a.keys[LastSourceOf(a.keys, dic, i, t).value]]
  {
    RenameFirstEntries(a, dic, i);
    RenamedAt(a, dic, i, t);
  }

  /** `RenameFirstAt` on the column map alone. */
  lemma {:induction false} RenamedAt<V>(a: Dict<V>, dic: Dict<string>, i: nat, t: string)
    requires i <= |a.keys| && forall j :: 0 <= j < |a.keys| ==> a.keys[j] in a.entries
    ensures t in RenamedEntries(a, dic, i) <==> LastSourceOf(a.keys, dic, i, t).Some?
    ensures LastSourceOf(a.keys, dic, i, t).Some? ==>
      RenamedEntries(a, dic, i)[t] == a.entries[a.keys[LastSourceOf(a.keys, dic, i, t).value]]
  {
    if i > 0 {
      RenamedAt(a, dic, i - 1, t);
      if Target(dic, a.keys[i - 1]) == t {
        assert LastSourceOf(a.keys, dic, i, t) == Some(i - 1);
      } else {
        assert LastSourceOf(a.keys, dic, i, t) == LastSourceOf(a.keys, dic, i - 1, t);
      }
    }
  }

  /** Every column copied into B has A's number of rows. */
  lemma {:induction false} RenameFirstShape(a: Dict<Column>, rows: nat, dic: Dict<string>, i: nat)
    requires Rectangular(a, rows) && i <= |a.keys|
    ensures Rectangular(RenameFirst(a, dic, i), rows)
  {
    RenameFirstEntries(a, dic, i);
    RenamedShape(a, rows, dic, i);
  }

  /** `RenameFirstShape` on the column map alone. */
  lemma {:induction false} RenamedShape(a: Dict<Column>, rows: nat, dic: Dict<string>, i: nat)
    requires i <= |a.keys| && forall j :: 0 <= j < |a.keys| ==> a.keys[j] in a.entries
    requires forall k :: k in a.entries ==> |a.entries[k]| == rows
    ensures forall k :: k in RenamedEntries(a, dic, i) ==> |RenamedEntries(a, dic, i)[k]| == rows
  {
    if i > 0 {
      RenamedShape(a, rows, dic, i - 1);
    }
  }

  /** B's columns after the second loop has visited the first `i` canonical names. */
  function BackfillFirst(b: Dict<Column>, names: seq<string>, rows: nat, i: nat): (r: Dict<Column>)
    requires b.Valid() && i <= |names|
    ensures r.Valid()
  {
    if i == 0 then b
    else
      var prev := BackfillFirst(b, names, rows, i - 1);
      if names[i - 1] in prev.entries then prev else prev.Put(names[i - 1], Nulls(rows))
  }

  /** The column map of `BackfillFirst(b, names, rows, i)`, leaving the key order aside. */
  function BackfilledEntries(b: map<string, Column>, names: seq<string>, rows: nat, i: nat): map<string, Column>
    requires i <= |names|
  {
    if i == 0 then b
    else
      var prev := BackfilledEntries(b, names, rows, i - 1);
      if names[i - 1] in prev then prev else prev[names[i - 1] := Nulls(rows)]
  }

  lemma {:induction false} BackfillFirstEntries(b: Dict<Column>, names: seq<string>, rows: nat, i: nat)
    requires b.Valid() && i <= |names|
    ensures BackfillFirst(b, names, rows, i).entries == BackfilledEntries(b.entries, names, rows, i)
  {
    if i > 0 {
      BackfillFirstEntries(b, names, rows, i - 1);
      var prev := BackfillFirst(b, names, rows, i - 1);
      if names[i - 1] in prev.entries {
        assert BackfillFirst(b, names, rows, i) == prev;
      } else {
        assert BackfillFirst(b, names, rows, i).entries == prev.entries[names[i - 1] := Nulls(rows)];
      }
    }
  }

  /**
   * The second loop adds exactly the names not yet present, each as a column of
   * `rows` missing values, and leaves the columns already there as they were.
   */
  lemma {:induction false} BackfillFirstAt(b: Dict<Column>, names: seq<string>, rows: nat, i: nat, t: string)
    requires b.Valid() && i <= |names|
    ensures t in BackfillFirst(b, names, rows, i).entries <==>
      t in b.entries || exists s :: 0 <= s < i && names[s] == t
    ensures t in b.entries ==> BackfillFirst(b, names, rows, i).entries[t] == b.entries[t]
    ensures t !in b.entries && t in BackfillFirst(b, names, rows, i).entries ==>
      BackfillFirst(b, names, rows, i).entries[t] == Nulls(rows)
  {
    BackfillFirstEntries(b, names, rows, i);
    BackfilledAt(b.entries, names, rows, i, t);
  }

  /** `BackfillFirstAt` on the column map alone. */
  lemma {:induction false} BackfilledAt(b: map<string, Column>, names: seq<string>, rows: nat, i: nat, t: string)
    requires i <= |names|
    ensures t in BackfilledEntries(b, names, rows, i) <==> t in b || exists s :: 0 <= s < i && names[s] == t
    ensures t in b ==> BackfilledEntries(b, names, rows, i)[t] == b[t]
    ensures t !in b && t in BackfilledEntries(b, names, rows, i) ==> BackfilledEntries(b, names, rows, i)[t] == Nulls(rows)
  {
    if i > 0 {
      BackfilledAt(b, names, rows, i - 1, t);
      if names[i - 1] == t {
        assert exists s :: 0 <= s < i && names[s] == t;
      }
      if exists s :: 0 <= s < i && names[s] == t {
        var s :| 0 <= s < i && names[s] == t;
        if s < i - 1 {
          assert exists s' :: 0 <= s' < i - 1 && names[s'] == t;
        }
      }
    }
  }

  /** Backfilled columns are `rows` long like the others. */
  lemma {:induction false} BackfillFirstShape(b: Dict<Column>, names: seq<string>, rows: nat, i: nat)
    requires Rectangular(b, rows) && i <= |names|
    ensures Rectangular(BackfillFirst(b, names, rows, i), rows)
  {
    BackfillFirstEntries(b, names, rows, i);
    BackfilledShape(b.entries, names, rows, i);
  }

  /** `BackfillFirstShape` on the column map alone. */
  lemma {:induction false} BackfilledShape(b: map<string, Column>, names: seq<string>, rows: nat, i: nat)
    requires i <= |names| && forall k :: k in b ==> |b[k]| == rows
    ensures forall k :: k in BackfilledEntries(b, names, rows, i) ==> |BackfilledEntries(b, names, rows, i)[k]| == rows
  {
    if i > 0 {
      BackfilledShape(b, names, rows, i - 1);
    }
  }

  /** B's number of rows: A's, unless A has no columns (B then never received an index). */
  function NormalizedRows(a: Dict<Column>, rows: nat): nat {
    if a.keys == [] then 0 else rows
  }

  /** B as the normaliser returns it. */
  function Normalized(a: Dict<Column>, rows: nat, dic: Dict<string>): (b: Dict<Column>)
    requires a.Valid() && dic.Valid()
    ensures b.Valid()
  {
    BackfillFirst(RenameFirst(a, dic, |a.keys|), dic.Values(), NormalizedRows(a, rows), |dic.keys|)
  }

  /** `ks` followed by the first `i` of `names` that are not already listed, each once, in order of first appearance. */
  function AppendNew(ks: seq<string>, names: seq<string>, i: nat): seq<string>
    requires i <= |names|
  {
    if i == 0 then ks
    else
      var prev := AppendNew(ks, names, i - 1);
      if names[i - 1] in prev then prev else prev + [names[i - 1]]
  }

  /** The names A's columns are emitted under, in A's column order. */
  function Targets(keys: seq<string>, dic: Dict<string>): (ts: seq<string>)
    ensures |ts| == |keys| && forall j :: 0 <= j < |keys| ==> ts[j] == Target(dic, keys[j])
  {
    seq(|keys|, j requires 0 <= j < |keys| => Target(dic, keys[j]))
  }

  /** The copy loop lists B's columns in order of the first A column emitted under each. */
  lemma {:induction false} RenameFirstKeys<V>(a: Dict<V>, dic: Dict<string>, i: nat)
    requires i <= |a.keys| && forall j :: 0 <= j < |a.keys| ==> a.keys[j] in a.entries
    ensures RenameFirst(a, dic, i).keys == AppendNew([], Targets(a.keys, dic), i)
  {
    if i > 0 {
      RenameFirstKeys(a, dic, i - 1);
      var prev := RenameFirst(a, dic, i - 1);
      var t := Target(dic, a.keys[i - 1]);
      assert Targets(a.keys, dic)[i - 1] == t;
      assert t in prev.entries <==> t in prev.keys;
    }
  }

  /** The backfill loop appends the names not yet present, in the order given. */
  lemma {:induction false} BackfillFirstKeys(b: Dict<Column>, names: seq<string>, rows: nat, i: nat)
    requires b.Valid() && i <= |names|
    ensures BackfillFirst(b, names, rows, i).keys == AppendNew(b.keys, names, i)
  {
    if i > 0 {
      BackfillFirstKeys(b, names, rows, i - 1);
      var prev := BackfillFirst(b, names, rows, i - 1);
      assert names[i - 1] in prev.entries <==> names[i - 1] in prev.keys;
    }
  }

  /**
   * B's column order: the targets of A's columns in order of first appearance,
   * then the canonical names no A column was emitted under, in the table's order.
   */
  lemma {:induction false} NormalizeOrder(a: Dict<Column>, rows: nat, dic: Dict<string>)
    requires a.Valid() && dic.Valid()
    ensures Normalized(a, rows, dic).keys ==
      AppendNew(AppendNew([], Targets(a.keys, dic), |a.keys|), dic.Values(), |dic.keys|)
  {
    RenameFirstKeys(a, dic, |a.keys|);
    BackfillFirstKeys(RenameFirst(a, dic, |a.keys|), dic.Values(), NormalizedRows(a, rows), |dic.keys|);
  }

  /** `t` is one of the canonical names, a value of `dic_exc`. */
  ghost predicate IsCanonical(dic: Dict<string>, t: string) {
    exists k :: k in dic.entries && dic.entries[k] == t
  }

  /**
   * The normaliser's promise: B's columns are exactly the targets of A's
   * columns together with every canonical name; a target holds the last A
   * column emitted under it; a canonical name no A column was emitted under is
   * all missing; every column has B's number of rows.
   */
  lemma {:induction false} NormalizeSchema(a: Dict<Column>, rows: nat, dic: Dict<string>, t: string)
    requires Rectangular(a, rows) && dic.Valid()
    ensures Rectangular(Normalized(a, rows, dic), NormalizedRows(a, rows))
    ensures t in Normalized(a, rows, dic).entries <==>
      LastSourceOf(a.keys, dic, |a.keys|, t).Some? || IsCanonical(dic, t)
    ensures LastSourceOf(a.keys, dic, |a.keys|, t).Some? ==>
      Normalized(a, rows, dic).entries[t] == a.entries[a.keys[LastSourceOf(a.keys, dic, |a.keys|, t).value]]
    ensures LastSourceOf(a.keys, dic, |a.keys|, t).None? && IsCanonical(dic, t) ==>
      Normalized(a, rows, dic).entries[t] == Nulls(NormalizedRows(a, rows))
  {
    var b := RenameFirst(a, dic, |a.keys|);
    var names := dic.Values();
    var n := NormalizedRows(a, rows);
    RenameFirstAt(a, dic, |a.keys|, t);
    BackfillFirstAt(b, names, n, |names|, t);
    if a.keys == [] {
      assert Rectangular(b, n);
    } else {
      RenameFirstShape(a, rows, dic, |a.keys|);
    }
    BackfillFirstShape(b, names, n, |names|);
    if IsCanonical(dic, t) {
      var k :| k in dic.entries && dic.entries[k] == t;
      var s :| 0 <= s < |dic.keys| && dic.keys[s] == k;
      assert names[s] == t;
    }
    if exists s :: 0 <= s < |names| && names[s] == t {
      var s :| 0 <= s < |names| && names[s] == t;
      assert dic.keys[s] in dic.entries;
    }
  }

  /** The first loop: `B[dic_exc[c]] = A[c]` for a mapped column, `B[c] = A[c]` otherwise (both are `B[Target(dic, c)] = A[c]`). */
  method CopyRenamed(a: Dict<Column>, rows: nat, dic: Dict<string>, b: DataFrame)
    requires Rectangular(a, rows) && b.Valid()
    requires b.columns == Empty() && b.rows == 0
    modifies b
    ensures b.Valid()
    ensures b.columns == RenameFirst(a, dic, |a.keys|)
    ensures b.rows == NormalizedRows(a, rows)
  {
    for i := 0 to |a.keys|
      invariant b.Valid()
      invariant b.columns == RenameFirst(a, dic, i)
      invariant b.rows == if i == 0 then 0 else rows
    {
      var c := a.keys[i];
      if b.rows == 0 {
        ReindexedUnchanged(b.columns, |a.entries[c]|);
      }
      b.SetColumn(Target(dic, c), a.entries[c]);
    }
  }

  /** The second loop: `B[c] = None` for every value `c` of `dic_exc` not yet a column of B. */
  method Backfill(b: DataFrame, canonical: seq<string>)
    requires b.Valid()
    modifies b
    ensures b.Valid()
    ensures b.columns == BackfillFirst(old(b.columns), canonical, old(b.rows), |canonical|)
    ensures b.rows == old(b.rows)
  {
    for i := 0 to |canonical|
      invariant b.Valid() && b.rows == old(b.rows)
      invariant b.columns == BackfillFirst(old(b.columns), canonical, b.rows, i)
    {
      var c := canonical[i];
      if c !in b.columns.entries {
        b.SetMissing(c);
      }
    }
  }

  /** `fun_exc_estudantes(A)` / `fun_exc_servidores(A)` with the table as a parameter: B is a new frame. */
  method NormalizeColumns(a: DataFrame, dic: Dict<string>) returns (b: DataFrame)
    requires a.Valid() && dic.Valid()
    ensures fresh(b) && b.Valid()
    ensures b.columns == Normalized(a.columns, a.rows, dic)
    ensures b.rows == NormalizedRows(a.columns, a.rows)
  {
    b := new DataFrame.Empty();
    CopyRenamed(a.columns, a.rows, dic, b);
    Backfill(b, dic.Values());
  }

  // ---------------------------------------------------------------------------
  // The two tables.
  // ---------------------------------------------------------------------------

  /** The pairs of `dic_exc` in `fun_exc_estudantes`, in assignment order. */
  const EstudantesPairs: seq<(string, string)> := [
    ("Area", "Unidade"),
    ("Campus", "Campus"),
    ("Nivel", "Perfil"),
    ("Nivelcurso", "Perfil"),
    ("Avaliasetores[PROAE]", "AvaliaSetores[PROAE]"),
    ("Avaliasetores[PROCULT]", "AvaliaSetores[PRCUL]"),
    ("Avaliasetores[PROEX]", "AvaliaSetores[PROEX]"),
    ("Avaliasetores[PROGRAD]", "AvaliaSetores[PRGRA]"),
    ("Avaliasetores[PROPP]", "AvaliaSetores[PROPP]"),
    ("Avaliasetores[DIAAF]", "AvaliaSetores[DIAAF]"),
    ("Avaliasetores[DRI]", "AvaliaSetores[DRI]"),
    ("Avaliasetores[COORD]", "AvaliaSetores[COORD]"),
    ("Avaliasetores[OUVG]", "AvaliaSetores[OUVID]"),
    ("Avaliasetores[CAT]", "AvaliaSetores[CATEND]"),
    ("EstReg", "EstReg"),
    ("Regimento", "RAGRI"),
    ("OrgCol[DivDec]", "OrgCo[DivDec]"),
    ("OrgCol[ImplDec]", "OrgCo[ImplDec]"),
    ("OrgCol[RepDec]", "OrgCo[RepOrgCol]"),
    ("CPA", "CPA"),
    ("ApRecFin[DesAtEns]", "AplRF[DAtEn]"),
    ("ApRecFin[DesAtPesq]", "AplRF[DAtPe]"),
    ("ApRecFin[DesAtEx]", "AplRF[DAtEx]"),
    ("ApRecFin[DesAtInov]", "AplRF[DAtInov]"),
    ("ApRecFin[AqEqIns]", "AplRF[AqEqi]"),
    ("ApRecFin[ManAmpRef]", "AplRF[MAREF]"),
    ("ApRecFin[BProjPesqEx]", "AplRF[BProj]"),
    ("ApRecFin[BMonitTP]", "AplRF[BMoTP]"),
    ("ApRecFin[ConcAux]", "AplRF[CAVS]"),
    ("TranspInv", "TrInv"),
    ("AvaliaSetores[PROINOV]", "AvaliaSetores[PROINOV]"),
    ("Qaberta", "Qaberta")
  ]

  /** The pairs of `dic_exc` in `fun_exc_servidores`, in assignment order. */
  const ServidoresPairs: seq<(string, string)> := [
    ("Perfil", "Perfil"),
    ("Campus", "Campus"),
    ("Area", "LOTACAO"),
    ("Capacitacao", "CAP"),
    ("Qualificacao", "Proquali"),
    ("Acoesdesenv", "Acoesdesenv"),
    ("apoiofin", "Apoio"),
    ("DistCHDoc", "CHdocente"),
    ("DistCHTae", "CHTAE"),
    ("Qualivida", "Qualivida"),
    ("Saudeocupa", "Saudeocupacional"),
    ("Divulgacarr", "DivulCarreira"),
    ("ClimaOrg", "Ambiente"),
    ("Motivacao", "Motivacao"),
    ("OrgCol[DivDec]", "ORGCOL[DIVDEC]"),
    ("OrgCol[ImplDec]", "ORGCOL[IMPLDEC]"),
    ("OrgCol[RepOrgCol]", "ORGCOL[REPORGCOL]"),
    ("AvaliaSetores[REIT]", "AVALIASETORES[REIT]"),
    ("AvaliaSetores[PROAE]", "AVALIASETORES[PROAE]"),
    ("AvaliaSetores[PROPP]", "AVALIASETORES[PROPP]"),
    ("AvaliaSetores[PRGRA]", "AVALIASETORES[PRGRA]"),
    ("AvaliaSetores[PROEX]", "AVALIASETORES[PROEX]"),
    ("AvaliaSetores[PRCUL]", "AVALIASETORES[PRCUL]"),
    ("AvaliaSetores[PRINF]", "AVALIASETORES[PRINF]"),
    ("AvaliaSetores[PRGPE]", "AVALIASETORES[PRGPE]"),
    ("AvaliaSetores[DUX]", "AVALIASETORES[DUX]"),
    ("AVALIASETORES[PRGEF]", "AVALIASETORES[PRGEF]"),
    ("AvaliaSetores[PRPLA]", "AVALIASETORES[PROPLAN]"),
    ("AvaliaSetores[DI]", "AVALIASETORES[PRINOV]"),
    ("AVALIASETORES[PRODAV]", "AVALIASETORES[PRODAV]"),
    ("AvaliaSetores[DRI]", "AVALIASETORES[DRI]"),
    ("AvaliaSetores[DII]", "AVALIASETORES[DII]"),
    ("AvaliaSetores[CDX]", "AVALIASETORES[CDX]"),
    ("AvaliaSetores[DIRGGV]", "AVALIASETORES[DIRGGV]"),
    ("AvaliaSetores[DIAFF]", "AVALIASETORES[DIAAF]"),
    ("AVALIASETORES[DSP]", "AVALIASETORES[DSP]"),
    ("AVALIASETORES[DCI]", "AVALIASETORES[DCI]"),
    ("EstReg", "ESTREG"),
    ("RegUni", "REGUNI"),
    ("CPA", "CPA"),
    ("AplRF[DAtEn]", "APLRF[DAtEn]"),
    ("AplRF[DAtPe]", "APLRF[DAtPe]"),
    ("AplRF[DAtEx]", "APLRF[DAtEx]"),
    ("AplRF[DAtInov]", "APLRF[DAtInov]"),
    ("AplRF[AqEqi]", "APLRF[AqEqi]"),
    ("AplRF[MAREF]", "APLRF[MAREF]"),
    ("AplRF[InCapS]", "APLRF[InCapS]"),
    ("AplRF[BProj]", "APLRF[BProj]"),
    ("AplRF[BMoTP]", "APLRF[BMoTP]"),
    ("TrInv", "TrInv"),
    ("ABERTA", "ABERTA"),
    ("AtivAdm", "AtivAdm"),
    ("SitTrab", "SitTrab"),
    ("Qualicursos", "Qualicursos"),
    ("AvaliaSetores[DIAVI]", "AvaliaSetores[DIAVI]")
  ]

  /** Which respondent population is analysed (the radio button `perfil_selecionado`). */
  datatype Population = Estudantes | Servidores

  /** `fun_exc[perfil_selecionado]`: the table of the chosen population. */
  function ColumnMap(p: Population): (dic: Dict<string>)
    ensures dic.Valid()
  {
    match p
    case Estudantes => FromPairs(EstudantesPairs)
    case Servidores => FromPairs(ServidoresPairs)
  }

  /** The students' pairs assign "Nivel" once, to "Perfil". */
  lemma {:induction false} NivelPair(pairs: seq<(string, string)>)
    requires pairs == EstudantesPairs
    ensures "Nivel" in FromPairs(pairs).entries && FromPairs(pairs).entries["Nivel"] == "Perfil"
  {
    assert pairs[2] == ("Nivel", "Perfil");
    FromPairsAt(pairs, 2);
  }

  /** The students' pairs assign "Nivelcurso" once, to "Perfil". */
  lemma {:induction false} NivelcursoPair(pairs: seq<(string, string)>)
    requires pairs == EstudantesPairs
    ensures "Nivelcurso" in FromPairs(pairs).entries && FromPairs(pairs).entries["Nivelcurso"] == "Perfil"
  {
    assert pairs[3] == ("Nivelcurso", "Perfil");
    FromPairsAt(pairs, 3);
  }

  /** In the students' table both "Nivel" and "Nivelcurso" are emitted as "Perfil". */
  lemma {:induction false} EstudantesPerfil()
    ensures Target(ColumnMap(Estudantes), "Nivel") == "Perfil"
    ensures Target(ColumnMap(Estudantes), "Nivelcurso") == "Perfil"
  {
    NivelPair(EstudantesPairs);
    NivelcursoPair(EstudantesPairs);
  }

  /**
   * With a table that emits both "Nivel" and "Nivelcurso" as "Perfil" (the
   * students' table does), a raw export holding both gets in "Perfil" whichever
   * of them comes later in A (here "Nivelcurso"), provided no later column is
   * also emitted as "Perfil".
   */
  lemma {:induction false} NivelcursoOverwritesNivel(a: Dict<Column>, rows: nat, dic: Dict<string>, i: nat, j: nat)
    requires dic.Valid() && Target(dic, "Nivel") == "Perfil" && Target(dic, "Nivelcurso") == "Perfil"
    requires Rectangular(a, rows) && i < j < |a.keys|
    requires a.keys[i] == "Nivel" && a.keys[j] == "Nivelcurso"
    requires forall s :: j < s < |a.keys| ==> Target(dic, a.keys[s]) != "Perfil"
    ensures "Perfil" in Normalized(a, rows, dic).entries
    ensures Normalized(a, rows, dic).entries["Perfil"] == a.entries["Nivelcurso"]
  {
    assert Target(dic, a.keys[i]) == Target(dic, a.keys[j]) == "Perfil";
    assert LastSourceOf(a.keys, dic, |a.keys|, "Perfil") == Some(j);
    NormalizeSchema(a, rows, dic, "Perfil");
  }
}
