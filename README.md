# CPA survey pipeline — a Dafny model

This project models the data pipeline behind the Streamlit dashboard of the UFJF
institutional self-evaluation survey (CPA). The pipeline turns one year's raw
questionnaire export and a tab-separated codebook into satisfaction tables.
Three versions of the script are covered: `app.py` (current), `app_v0p2.py` and
`app_v0p1.py`. The model has these stages:

- **Codebook parser** (`Codebook`): the tab-separated loop of
  `extract_questions_and_subquestions`. It builds an insertion-ordered dict of
  questions, each with its sub-questions, and keeps the IndexError that a short
  row raises.
- **Flattener** (`Flattener`): `transform_questions_to_dataframe`. It produces
  one item per sub-question (coded `qid[sid]`), or one item for a question
  without sub-questions.
- **Rare-value suppressor** (`Frames`): `remove_single_occurrences`. A value
  seen at most `n` times in its column is replaced by a missing cell. This
  module also models `fillna('')`, `drop(columns, errors='ignore')` and the
  single-row drop. The response frame is the class `Frames.DataFrame`; its
  column map is rewritten in place.
- **Column normaliser** (`Normalize`): `fun_exc_estudantes` and
  `fun_exc_servidores`. Every raw column is copied under its canonical name,
  and an all-missing column is added for each canonical name still absent.
- **Joins** (`Join`):
  - the lenient `include_subquestion` of `app.py` drops items whose code is not
    a column;
  - the strict one of the older versions raises KeyError on the first missing
    code;
  - both read `Q['subquestions']` first. When the codebook has no question,
    Q is a frame without columns, so both raise KeyError('subquestions').
- **Indicators** (`Indicator`):
  - the `repl0` scoring;
  - the numeric-column filter (`select_dtypes(include=['number'])`);
  - the satisfaction index and the non-response rate;
  - the per-group and summary tables.
- **Comparison table** (`Compare`): `c[a] = aux[a]` for each year, one column
  per year. The row labels come from the first year whose table has rows. The
  years before it become all-NaN columns. Every other year is aligned by label.
- **Colour bands** (`Colour`): `color_coding_change_flag_2`.
- **Selection** (`Selection`): the pruning of the picked filter options, and
  the pandas query string built from them.
- **Pipeline** (`Pipeline`): the stages chained as the strict older version
  and the current version chain them. The current chain includes the drop of a
  lone respondent. A join that raises aborts the run (`JoinAborted`).

Two shared modules support the rest:

- `OrderedDict` models Python's insertion-ordered `dict`. Re-assigning a key
  keeps its place; a new key goes last.
- `Wrappers` holds `Option` and `Result`.

Integers are unbounded. The scores `1, 0.66, 0.33, 0` are held exactly as the
hundredths `100, 66, 33, 0`. Indexes and rates are `real`, so floating-point
rounding is not modelled.

Where the written description of the system and the code disagree, the model
follows the code:

- **Unknown answers.** The description says an answer missing from the scoring
  table is excluded from the index. In the code, one such answer leaves the
  column non-numeric, and `select_dtypes` then drops the whole item
  (`Indicator.TextIsDropped`).
- **Group tables.** The description pools all items of a question group into
  one sample. The code computes one index per item column and shows the items
  of a group side by side (`Indicator.GroupTable`).
- **Missing years.** The description says an item absent in some year has no
  cell for that year. The code leaves the cell as NaN, and drops rows that the
  first year with rows lacks (`Compare.AlignmentDropsAndBlanks`).

## Model

| member | source | states |
|---|---|---|
| OrderedDict.Dict.Put | app.py:32-35 | assignment keeps the map's other entries; an existing key keeps its position and a new key is appended; the dict stays well formed |
| OrderedDict.Dict.Remove | app.py:814 | `pop` removes exactly that key, and the other keys keep their relative order |
| OrderedDict.Dict.Items | app.py:66 | `items()` lists every key once in insertion order, each with its value |
| OrderedDict.MapAll | app.py:101-104 | rewriting each column by `f` keeps the key order and membership, and gives each key `f` of its old value |
| OrderedDict.MapFirstAt | app.py:101-104 | after rewriting the first `i` keys, those keys hold `f` of their old values and the rest are unchanged |
| OrderedDict.MapAllIsMapFirst | app.py:101-104 | rewriting every key one at a time gives `MapAll` |
| OrderedDict.RemoveAll | app.py:790 | dropping with `errors='ignore'` keeps exactly the keys not listed, with their values unchanged |
| OrderedDict.FromPairs | app.py:449-481 | a dict literal built by successive assignments has exactly the assigned keys |
| OrderedDict.FromPairsAt | app.py:449-481 | a key holds the value of its last assignment |
| Codebook.Step | app.py:28-44 | one row keeps the parser state consistent: the dict stays well formed and the current question, if any, is one of its keys |
| Codebook.ParseUpTo | app.py:27-44 | an error reported after `n` rows names one of those rows |
| Codebook.Parse | app.py:27-46 | a successful parse yields a well-formed ordered dict |
| Codebook.ExtractQuestions | app.py:21-46 | the in-place loop over the rows computes exactly the parse, error included |
| Codebook.ErrorPersists | app.py:27-44 | once a row raises, no later row changes the outcome |
| Codebook.LastQuestionRow | app.py:28-37 | finds the last "Q" row so far: no later row is a "Q" row, and None means no row was |
| Codebook.LastRowOf | app.py:28-37 | finds the last "Q" row with a given code: no later row opens that code again |
| Codebook.NextQuestionRow | app.py:28-44 | finds the first "Q" row of a range, where the "SQ" rows of the previous question stop being appended |
| Codebook.ParseErrors | app.py:28-40 | the parse fails iff some row raises: a blank row, a short "Q" row, or a short "SQ" row while a question is current; the error names the first such row and the field whose access failed |
| Codebook.CurrentIsLastQuestion | app.py:36-37 | `current_question` is the code of the last "Q" row so far (None before the first), and every "Q" row read so far had all five fields |
| Codebook.StepCurrent | app.py:28-37 | a "Q" row that does not raise has all five fields and makes its code current; any other row leaves `current_question` alone |
| Codebook.ParseKeys | app.py:32-36 | the dict's keys are the question codes in order of first appearance; a repeated code keeps its first place |
| Codebook.NoQuestionRowNoCodes | app.py:32-36 | no question code is seen iff no row is a "Q" row |
| Codebook.StepKeys | app.py:32-36 | only a "Q" row with a code not seen before adds a key, and it goes last |
| Codebook.StepOpens | app.py:32-36 | a "Q" row (re)opens its question with the row's text and no sub-questions, discarding earlier ones |
| Codebook.StepAppends | app.py:37-44 | an "SQ" row appends (id, text) to the current question's block |
| Codebook.StepLeaves | app.py:28-44 | a row that neither reopens question `q` nor extends its block leaves its entry as the reference description says |
| Codebook.StepKeeps | app.py:28-44 | any row other than a "Q" row for `q` keeps an existing entry for `q` matching the reference description |
| Codebook.StepAbsent | app.py:28-44 | a code with no entry still has none after a row that is not a "Q" row for it |
| Codebook.StepEntry | app.py:28-44 | every row, whatever its kind, keeps each entry matching the reference description |
| Codebook.ParseEntries | app.py:27-44 | every question's entry matches the reference description: the text of its last "Q" row, and the "SQ" rows that follow that row up to the next "Q" row, and none when the code is empty (a falsy current question) |
| Flattener.SubItems | app.py:75-82 | a question yields one item per sub-question |
| Flattener.ItemsOf | app.py:67-82 | a question yields max(1, number of sub-questions) items |
| Flattener.SubItemsAt | app.py:75-82 | the `s`th item of a question is coded `qid[sid]` of its `s`th sub-question and carries that sub-question's text |
| Flattener.ItemsOfAt | app.py:67-82 | every item of a question carries the question's text as `question_data`; it is the question itself when there are no sub-questions, otherwise `qid[sid]` with the sub-question's text |
| Flattener.FlattenStep | app.py:66-82 | each question appends its own items after those of the questions before it |
| Flattener.AppendSubItems | app.py:75-82 | the inner loop appends exactly the question's sub-question items, in order |
| Flattener.TransformQuestions | app.py:64-93 | the append loop produces exactly the flattened item list |
| Flattener.FlattenCount | app.py:66-82 | the table's length is the sum over the questions of max(1, number of sub-questions) |
| Flattener.ItemCountAtLeast | app.py:66-82 | every question yields at least one item |
| Flattener.FlattenEmpty | app.py:66-86 | the item table is empty iff the dict has no question |
| Flattener.FlattenPrefix | app.py:66-82 | the items of the earlier questions are a prefix of the table: later questions only append |
| Flattener.FlattenBlock | app.py:66-82 | the items of question `a` sit contiguously after those of the earlier questions: the question itself when it has no sub-questions, otherwise `qid[sid]` with the sub-question's text |
| Flattener.FlattenOwners | app.py:66-82 | every item names a question of the dict and carries that question's text as `question_data` |
| Flattener.CodesMayCollide | app.py:71-80 | two different questions can yield the same column code |
| Frames.Occurrences | app.py:102 | a value's count never exceeds the column length |
| Frames.OccurrencesPositive | app.py:102 | a value is counted iff it occurs in the column |
| Frames.RareValues | app.py:102-103 | `to_remove` holds exactly the values seen at least once and at most `n` times |
| Frames.Scrub | app.py:104 | the apply keeps the length and rewrites cell by cell |
| Frames.SuppressColumn | app.py:101-104 | same length; a cell becomes missing iff it was missing or its value occurs at most `n` times; every other cell is unchanged |
| Frames.OccurrencesScrub | app.py:104 | scrubbing removes every occurrence of a rare value and keeps every other count |
| Frames.SuppressCounts | app.py:101-104 | after suppression a value occurs 0 times if it occurred at most `n` times, otherwise as often as before |
| Frames.SuppressIdempotent | app.py:101-104 | suppressing twice equals suppressing once |
| Frames.FillColumn | app.py:789 | `fillna('')` leaves no missing cell and keeps every present cell |
| Frames.SuppressAll | app.py:101-104 | every column is suppressed on its own counts; keys and order are kept |
| Frames.FillAll | app.py:789 | every column is filled; keys and order are kept |
| Frames.RewriteKeepsShape | app.py:101-104 | a per-column rewrite keeps every column `rows` long |
| Frames.SuppressAllShape | app.py:101-104 | the suppressed frame is rectangular with the same row count, and suppressing it again changes nothing |
| Frames.SuppressionIsPerColumn | app.py:101-104 | the same value is kept in one column and removed in another, depending on each column's counts |
| Frames.DataFrame.Empty | app.py:485 | `pd.DataFrame()` has no columns and no rows |
| Frames.DataFrame.constructor | app.py:786 | a frame read from a file holds the given rectangular columns |
| Frames.DataFrame.SetColumn | app.py:488 | `B[name] = col` assigns the column in dict order; while the frame has no rows, the column gives it its rows and every earlier column becomes all missing |
| Frames.Reindexed | app.py:488 | reindexing a frame to `n` rows keeps its keys and makes every column `n` missing cells |
| Frames.ReindexedUnchanged | app.py:488 | reindexing changes nothing when the frame has no columns or the new length is 0 |
| Frames.DataFrame.SetMissing | app.py:494 | `B[c] = None` adds or overwrites a column of `rows` missing cells |
| Frames.DataFrame.RewriteColumns | app.py:101-104 | the loop over `df.columns` leaves the map `MapAll` of the old map, with the row count unchanged |
| Frames.DataFrame.RewriteColumn | app.py:104 | `df[column] = df[column].apply(...)` replaces the `i`th column where it stands and changes nothing else |
| Frames.DataFrame.RemoveSingleOccurrences | app.py:101-104 | the frame's columns become `SuppressAll` of the old columns, in place |
| Frames.DataFrame.FillNa | app.py:789 | the frame's columns become `FillAll` of the old columns, in place |
| Frames.DataFrame.DropColumns | app.py:790 | the frame's columns become `RemoveAll` of the old columns; the row count is unchanged |
| Frames.DataFrame.DropSingleRow | app.py:842-843 | the frame's columns become `SingleRowDropped` of the old ones: a one-row selection loses its row, leaving every column empty; any other selection is unchanged |
| Frames.SingleRowDropped | app.py:842-843 | the keys are kept; with one row every column becomes empty, otherwise nothing changes |
| Frames.Nulls | app.py:494 | a column of `n` missing cells |
| Normalize.RenameFirst | app.py:486-490 | after `i` columns B is a well-formed dict |
| Normalize.LastSourceOf | app.py:486-490 | finds the last raw column emitted under name `t`, the copy that wins |
| Normalize.RenameFirstAt | app.py:486-490 | `t` is a column of B iff some raw column is emitted under `t`, and B[t] is the last such column |
| Normalize.RenameFirstShape | app.py:486-490 | every copied column keeps A's row count |
| Normalize.RenameFirstEntries | app.py:486-490 | B's column map after `i` columns is the map built by assigning each column under its target in turn |
| Normalize.RenamedAt | app.py:486-490 | on that map, `t` is present iff some column is emitted under `t`, and holds the last such column |
| Normalize.RenamedShape | app.py:486-490 | on that map, every column has A's row count |
| Normalize.BackfillFirst | app.py:492-494 | the backfill keeps B well formed |
| Normalize.BackfillFirstAt | app.py:492-494 | a name is a column after the backfill iff it was before or is a visited canonical name; existing columns are untouched and new ones are all missing |
| Normalize.BackfillFirstShape | app.py:492-494 | backfilled columns have the frame's row count |
| Normalize.BackfillFirstEntries | app.py:492-494 | B's column map after the backfill is the map built by adding each absent name in turn |
| Normalize.BackfilledAt | app.py:492-494 | on that map, a name is present iff it was before or was visited; old columns are untouched and new ones are all missing |
| Normalize.BackfilledShape | app.py:492-494 | on that map, every column has the frame's row count |
| Normalize.Normalized | app.py:485-497 | the normaliser returns a well-formed column map |
| Normalize.NormalizeSchema | app.py:485-497 | B is rectangular; B has column `t` iff `t` is the target of some raw column or is canonical; a copied column is the last raw column renamed to `t`; an absent canonical name is all missing |
| Normalize.CopyRenamed | app.py:486-490 | the first loop, run on the new frame B, leaves exactly `RenameFirst` of A |
| Normalize.Backfill | app.py:492-494 | the second loop leaves exactly `BackfillFirst` of B, with the row count unchanged |
| Normalize.NormalizeColumns | app.py:485-497 | returns a fresh frame whose columns are `Normalized` of A's |
| Normalize.RenameFirstKeys | app.py:486-490 | B's column order after the first loop is the targets of A's columns in order of first emission |
| Normalize.BackfillFirstKeys | app.py:492-494 | the backfill appends each absent canonical name after the existing columns, in table order |
| Normalize.NormalizeOrder | app.py:485-497 | B's columns are the renamed columns in order of first emission, then the canonical names still absent, in table order |
| Normalize.ColumnMap | app.py:704-707 | the population's table is a well-formed dict |
| Normalize.NivelPair | app.py:452 | the students' table maps "Nivel" to "Perfil" |
| Normalize.NivelcursoPair | app.py:453 | the students' table maps "Nivelcurso" to "Perfil" |
| Normalize.EstudantesPerfil | app.py:452-453 | both "Nivel" and "Nivelcurso" are emitted as "Perfil" |
| Normalize.NivelcursoOverwritesNivel | app.py:486-490 | when "Nivelcurso" follows "Nivel" in the export, "Perfil" holds the "Nivelcurso" data |
| Join.IncludeSubquestionLenient | app.py:124-132 | the loop computes exactly the lenient join, KeyError('subquestions') included |
| Join.LenientJoinOutcome | app.py:124-132 | the lenient join raises KeyError('subquestions') iff there are no items; otherwise it keeps, in order, exactly the items whose code is a column |
| Join.KeptPositions | app.py:124-129 | the kept positions are increasing, and each one's code is a column |
| Join.LenientJoinSpec | app.py:124-132 | the joined rows are, in order, exactly the items whose code is a column, each with that column's values |
| Join.LenientMembership | app.py:126-129 | with an item present the join succeeds; an item whose code is a column appears with its column; an item whose code is not a column leaves no row with that code |
| Join.StrictErrorPersists | app_v0p1.py:110-111 | once `A[c]` has raised, the outcome no longer changes |
| Join.IncludeSubquestionStrict | app_v0p2.py:126-131 | the loop computes exactly the strict join, both KeyErrors included |
| Join.StrictJoinSpec | app_v0p2.py:126-131 | the loop over the first `k` items succeeds iff each of their codes is a column, and then pairs each item with its column in order, as the lenient loop does |
| Join.StrictJoinFirstMissing | app_v0p2.py:126-131 | a failing loop reports the first code, in item order, that is not a column |
| Join.StrictJoinOutcome | app_v0p2.py:126-131 | the strict join succeeds iff there are items and every code is a column, and then equals the lenient join; no items raise KeyError('subquestions'); otherwise it reports the first missing code |
| Indicator.Replace0 | app.py:653-661 | a score is at most 1 (100 hundredths); unchanged text is non-empty and is the input |
| Indicator.Encode | app.py:866 | the encoded score of any cell is at most 100 hundredths |
| Indicator.ScoreCount | app.py:867 | `B.count()` is at most the number of rows |
| Indicator.ScoreSum | app.py:867 | the sum is at most 100 per counted cell |
| Indicator.CountPositive | app.py:866 | the count is positive iff some cell is scored |
| Indicator.SatisfactionIndex | app.py:867 | the index lies in [0, 100] |
| Indicator.NonResponseRate | app.py:868 | the rate lies in [0, 100] |
| Indicator.SumAtTop | app.py:867 | the sum reaches 100 per count iff every scored answer is "Concordo totalmente" |
| Indicator.SumAtBottom | app.py:867 | the sum is 0 iff every scored answer is "Discordo totalmente" |
| Indicator.CountAll | app.py:868 | every row is counted iff every cell is scored |
| Indicator.IndexAtTop | app.py:867 | the index is 100 iff every scored answer is "Concordo totalmente" |
| Indicator.IndexAtBottom | app.py:867 | the index is 0 iff every scored answer is "Discordo totalmente" |
| Indicator.RateBounds | app.py:868 | the rate is 0 iff every row is scored, and below 100 for a kept column |
| Indicator.WorkedExample | app.py:866-868 | "Concordo totalmente", "Concordo", "", "Discordo totalmente" give index 166/3 and non-response 25 |
| Indicator.TextIsDropped | app.py:866 | a column with an answer outside `repl0` is not numeric, so it is dropped |
| Indicator.NumericPositions | app.py:866 | the kept positions are increasing and each one's column is numeric |
| Indicator.IndicatorsSpec | app.py:866-869 | the table has one row per numeric column, in column order, with its code, `dic_q` name, index and rate |
| Indicator.IndicatorRows | app.py:866-869 | row `j` of the table is built from the `j`th numeric column, with its code, name, index and rate |
| Indicator.NumericComplete | app.py:866 | every numeric column has its position listed |
| Indicator.FirstIndex | app.py:863 | the position of a value's first occurrence: it holds the value and no earlier position does |
| Indicator.Distinct | app.py:863 | `unique()` keeps each value once, loses none, adds none, and lists them in order of first appearance |
| Indicator.Codes | app.py:855 | the codes of Q in row order |
| Indicator.GroupPositions | app.py:862 | the boolean filter keeps exactly the rows of the group, in increasing row order |
| Indicator.GroupCover | app.py:862-863 | listing the code of each of the group's rows lists every code the group carries |
| Indicator.GroupCodes | app.py:862-863 | a group's codes are the codes of the group's rows, one per row, in row order; a code is listed iff some row of the group carries it |
| Indicator.LabelsUpTo | app.py:855 | after `k` rows, the keys are exactly the codes seen so far |
| Indicator.LabelsUpToLast | app.py:855 | a row whose code does not recur later gives that code its text |
| Indicator.LabelsLast | app.py:855 | each code is labelled with the text of the last row carrying it |
| Indicator.Labels | app.py:855 | `dic_q` has exactly the codes of Q as keys, and each code maps to the text of its last row |
| Indicator.TableRows | app.py:866-869 | a code has a row iff it is listed and its column is numeric; every row carries `labels[code]`, and the `SatisfactionIndex` and `NonResponseRate` of its column |
| Indicator.InCodeOrder | app.py:863-866 | the rows follow the order in which their codes first appear |
| Indicator.GroupTable | app.py:858-869 | a code has a row in a group's table iff it belongs to the group and its column is numeric; rows follow the codes' first appearance in the group; each row's name is `dic_q[code]` and its index is `SatisfactionIndex` of its column |
| Indicator.SummaryTable | app.py:884-891 | the summary has a row for a code iff it is a code of Q with a numeric column; rows follow the order of `dic_q`'s keys; each row's name is `dic_q[code]`, its index `SatisfactionIndex` and its non-response `NonResponseRate` of its column |
| Indicator.LenientCodesAreColumns | app.py:853-855 | every code surviving the lenient join is a column, so the tables never raise KeyError |
| Compare.Names | app.py:747 | the row labels are the items' names in order |
| Compare.Positional | app.py:759 | the first assignment takes each index as it stands |
| Compare.LookupMissing | app.py:759 | looking up a label gives NaN iff the year has no row with that label |
| Compare.LookupFirst | app.py:759 | a label the year has gives the index of its first row with that label |
| Compare.Aligned | app.py:759 | each cell of a later year's column is the lookup of that row's label |
| Compare.Blanks | app.py:758-759 | a column of `n` NaN cells |
| Compare.Reindex | app.py:758-759 | when `c` gets its rows, every column it already has becomes all NaN of the new length |
| Compare.CompareYears | app.py:755-759 | the loop `c[a] = aux[a]` computes exactly `CompareUpTo` over all years |
| Compare.FirstWithRows | app.py:755-759 | finds the first year whose table has rows: every year before it has none, and None means no year has rows |
| Compare.RowLabelsStep | app.py:755-759 | the labels are empty until a year with rows is assigned; that year's labels then stay |
| Compare.CompareNames | app.py:755-759 | the row labels are those of the first year with rows, or none |
| Compare.ShownIffSomeRows | app.py:762 | `len(c) > 0`, and the group's table is shown, iff some year's table has rows |
| Compare.CompareFrame | app.py:755-759 | the frame's columns form a well-formed ordered dict |
| Compare.YearsOfAt | app.py:755-759 | the `i`th listed year is the `i`th table's |
| Compare.CompareKeys | app.py:755-759 | with distinct years, the columns are the years in the order they are assigned |
| Compare.YearNotYet | app.py:755-759 | a year later in the list is not yet a column |
| Compare.CompareShape | app.py:753-759 | the rows are the first year with rows' items, with one column per year in year order |
| Compare.AlignedNoRows | app.py:759 | aligning a year without rows gives NaN throughout |
| Compare.AssignOwn | app.py:759 | `c[a] = aux[a]` stores the year's own column as it stands when it gives `c` its rows, and aligned otherwise |
| Compare.AssignOther | app.py:758-759 | `c[a] = aux[a]` blanks another column when it gives `c` its rows, and keeps it otherwise |
| Compare.NewColumn | app.py:755-759 | the year assigned last holds its own indexes if it is the first year with rows, and its aligned indexes otherwise |
| Compare.BlankedColumn | app.py:755-759 | an earlier year's column is all NaN once a later year gives `c` its rows |
| Compare.KeptColumn | app.py:755-759 | an earlier year's column is unchanged by an assignment that does not give `c` its rows |
| Compare.CompareColumn | app.py:755-759 | the first year with rows holds its own indexes; every other year is aligned to that year's labels |
| Compare.AlignmentDropsAndBlanks | app.py:755-759 | a cell of another year is NaN iff that year lacks the row's item, and always NaN before the first year with rows; items that year lacks get no row |
| Compare.FirstColumnIsAligned | app.py:757-759 | with distinct names the first column is what label alignment would give |
| Colour.Style | app.py:640 | every declaration starts with "background-color: " |
| Colour.ColourIsQuarter | app.py:626-638 | a non-negative number gets the band of its quarter (75 and above is green); None, '', NaN and negatives get no colour |
| Colour.ColourMonotone | app.py:629-636 | a larger non-negative number never gets a lower band |
| Colour.StyleDistinguishes | app.py:640 | two declarations are equal iff the two colours are |
| Colour.IndexIsColoured | app.py:875-876 | every satisfaction index is coloured, and 100 is green |
| Selection.TodCount | app.py:815-817 | at most one per option |
| Selection.Pop | app.py:814 | `pop` succeeds iff the key is present, and then removes exactly it |
| Selection.InnerUpTo | app.py:815-817 | a successful inner loop keeps the dict well formed |
| Selection.Visit | app.py:811-817 | a successful visit keeps the dict well formed |
| Selection.PruneAsWrittenUpTo | app.py:810-817 | a successful outer loop keeps the dict well formed |
| Selection.PruneUpTo | app.py:810-817 | the intended pruning keeps the dict well formed |
| Selection.PruneUpToSpec | app.py:810-817 | after `i` keys, a key is kept unless it is among them and dropped; kept keys keep their picks |
| Selection.PruneSpec | app.py:810-817 | a column is kept iff its pick is non-empty with no "Tod" option, and its pick is unchanged |
| Selection.InnerSpec | app.py:815-817 | on a present key, zero "Tod" options change nothing, one pops the key, and two raise KeyError |
| Selection.VisitSpec | app.py:811-817 | a visit pops a dropped key once, and raises on a second "Tod" option |
| Selection.AsWrittenSpec | app.py:810-817 | the loop as written equals the intended pruning until some key has two "Tod" options, and then fails |
| Selection.AsWrittenAgrees | app.py:810-817 | the script succeeds iff no column has two "Tod" options, and then agrees with the intended pruning |
| Selection.DoubleTodFails | app.py:815-817 | picking "Todos" and "Todas" for "Curso" raises KeyError("Curso"), while the intended pruning drops the column |
| Selection.Clauses | app.py:826-828 | one `nam=="k"` clause per option, in order |
| Selection.Groups | app.py:823-834 | one bracketed group per column, in key order |
| Selection.TerminatedIsJoin | app.py:834-837 | appending `&` after each group and cutting the last character joins the groups with `&` |
| Selection.PartialGroupStep | app.py:826-830 | each option appends its clause, followed by ` \| ` unless it is the last option |
| Selection.PartialGroupDone | app.py:832 | closing the bracket completes the group |
| Selection.BuildGroup | app.py:825-832 | the inner loop builds exactly `(c=="a" \| c=="b")` |
| Selection.BuildQuery | app.py:821-839 | the loop and `q[:-1]` give the groups joined by `&`, or no query when no column is filtered |
| Selection.QueryGroups | app.py:821-837 | with no `&` in names or options, the query splits back into the groups, one per filtered column in order |
| Selection.SplitJoin | app.py:834-837 | splitting a join on its separator, when no part contains the separator, gives the parts back |
| Selection.FilterQuery | app.py:810-839 | the query is built from the intended pruning of the picks |
| Selection.UnfilteredExactly | app.py:821-839 | the frame is used unfiltered iff every column has an empty pick or a "Tod" option |
| Pipeline.RunStrict | app_v0p2.py:468-472 | the older chain returns exactly `StrictRun`; the frame is suppressed in place when the codebook parses |
| Pipeline.StrictRunSpec | app_v0p2.py:468-472 | with a valid codebook the run succeeds iff it has items and every flattened code is a raw column, each then carrying its suppressed column; no items abort with KeyError('subquestions'); otherwise it names the first missing code |
| Pipeline.Prepared | app.py:787-790 | the prepared column map is well formed |
| Pipeline.Selected | app.py:787-843 | the selected column map is well formed |
| Pipeline.RunLenient | app.py:785-854 | the current chain returns exactly `LenientRun`; with a valid codebook its new frame holds the prepared columns after the single-row drop, and has no rows when it had one |
| Pipeline.PreparedColumns | app.py:787-790 | every canonical name except "Unidade" and "LOTACAO" is a column of the prepared frame, and no prepared cell is missing |
| Pipeline.CanonicalItemsSurvive | app.py:853-854 | an item coded by a canonical name survives the lenient join, whatever the raw column names, and carries only text |
| Pipeline.NoQuestionAborts | app.py:853-854 | a codebook with no "Q" row yields no items, and then both chains abort with KeyError('subquestions') |

## Left out

- The Streamlit user interface, the charts, the CSV downloads and the year-directory listing (`listar_anos`) are left out. Reading files is modelled as parameters: the codebook rows and the frame's columns. Writing `questions_and_subquestions_*.csv` is left out.
- `A.query(q)` is not evaluated. The model builds the query string only, because pandas' expression evaluator is not part of this model.
- Pipeline.RunLenient models the results tab with no filter picked, followed by the single-row drop. The filtered frame (`A.query(q)`) is covered separately by Selection.FilterQuery.
- Rounding to two decimals (`.round(2)`) and the display format `{:.1f}` are left out. Indexes and rates are exact reals.
- Indicator.IsNumeric models `select_dtypes(include=['number'])` as an explicit rule: every cell scores or is missing, and at least one cell scores. A column whose cells are all missing after `repl0` counts as non-numeric, as pandas leaves such an object column as object dtype. pandas' dtype inference itself is not modelled.
- Duplicate column labels in a frame and duplicate item names in a year's table are not modelled. Compare.Lookup takes the first matching row.
- `groupby('Item')` and `groupby('Ano')` are modelled as the group's year tables given in order. Compare models one question group per call.
- The concatenation of all years into `C`, and its `Ano` column, are left out. The comparison tab's Q and `dic_q` are the last year's, as in the script.
- The answer labels are spelled exactly as the script spells them, with the doubly encoded "Ã£". Encodings are not modelled.
- Codebook: the CSV reader's quoting rules are not modelled. A row is given already split on tabs.
- The per-item chart helpers (`create_*_plots`, `create_percentage_table`) and the open-question analysis script are presentation code and are left out.

## Findings

| source | as written | input that shows it | evidently intended | confidence | as-written member | corrected member |
|---|---|---|---|---|---|---|
| app.py:810-817 | the inner loop calls `keys.pop(nam)` for every picked option containing "Tod", so a second such option pops a key that is already gone and raises KeyError (the empty-pick pop followed by the loop cannot clash, since an empty pick has no options) | `keys_dict = {"Curso": ["Todos", "Todas"]}` (Selection.DoubleTodFails) | drop the column once when any picked option contains "Tod" | not executed | Selection.PruneAsWritten | Selection.Prune |
