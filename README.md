# GutCode data preparation, modelled in Dafny

GutCode prepares behavioural data (trial response times and gamble
responses) from a probiotic and brain-stimulation study for drift-diffusion
modelling. Under its dialogs and plots, four pieces of deterministic table
and text logic sit, and this project models them:

- **Cleaning** (`load_data.py`, module `Cleaning`). Picked files are mapped to
  dataset names through the inverted `data_files` dictionary and the
  file's basename. Then the dictionary of loaded tables is rewritten in
  place:
  - rows of dropouts and of six excluded participants are removed
    (`filter_data`);
  - unneeded columns are dropped (`remove_columns`);
  - incomplete rows are dropped (`dropna`);
  - column names are rewritten by three substring replacements.
- **Outliers and tallies** (`functions.py`, module `Outliers`).
  - `remove_z_outliers` cuts every table by |z| ≤ threshold and then by rt > 0.1.
  - `count_response_values` counts the responses 0, 0.25, 0.5, 0.75 and 1 in
    each table.
- **Splitting for export** (`datahandler_GSCsplit.py`, modules `Handler`,
  `Export`, `Grouping`).
  - The `DatasetHandler` object loads a table, projects it onto the wanted
    columns, and replaces spaces in CLUSTERS.
  - It then writes one tab-separated text file per group, session,
    condition and subject, at `base/<group>/session <s>/<condition>/pt_<id>.txt`.
  - The file system is a class with a set of directories and a map from
    path to text. Each nested `groupby` loop is a method.
  - Each of those methods is proved against a pure plan: the list of
    directory creations and file writes, plus the exception that ends the
    loops, if any. The partition, cover, path-scheme and row-count
    properties are proved about that plan.
- **Empirical/simulated compilation** (`empsim_compiler.py`, modules
  `EmpSim`, `Compiler`).
  - Empirical files get their columns renamed, their subject ids
    normalised (`lstrip('PT00')` then `zfill(2)`), their groups lowercased
    with `probiotics` mapped to `probiotic`, and the tag `E`.
  - Simulated files get subject, session and group parsed from the file
    name, and the tag `S`.
  - The folder loops keep only `.txt` or `_sim.dat` files and concatenate
    the results.
  - The simulated rows are downsampled with stride `n // m` and truncated
    to `m`.
  - `reorder_columns` projects onto the six output columns.

Shared modules:
- `Tables`: the table model.
  - A table is a list of column names plus positional rows.
  - `Cell` looks up the first column of a name, and gives `Null` for a
    missing column.
  - It also holds projection, column maps and `concat`.
- `Text`: Python's string methods used by the code, with their exact
  semantics.
  - `strip`/`lstrip` take a *set* of characters.
  - `zfill` keeps a leading sign in front.
  - `str.replace` is left-to-right and non-overlapping.
  - `lower` is ASCII.
- `Seqs`: filtering and counting.
- `Wrappers`: `Option` and `Result`.

Python exceptions are `Err` values, and loops stop where the code raises:
- `KeyError` is `MissingColumn`;
- the `.str` accessor's `AttributeError` is `NotText`;
- `re.search(...)` returning `None` is `NoMatch`;
- `pd.concat([])` is `NothingToConcatenate`;
- `// 0` is `ZeroDivision`;
- a zero slice step is `ZeroStep`.

Three behaviours of the code are stated outright by the model:
- With a zero standard deviation, `(rt - mean) / 0` at functions.py:52 is
  infinite or NaN, so every comparison at line 53 is false and every row
  is dropped (`ZeroStdDropsAll`).
- Mean and std are inputs of the cut, so idempotence is proved for fixed
  moments (`CutIdempotent`): cutting again with the same mean and std
  removes nothing more.
- `strip('PT')` at datahandler_GSCsplit.py:63 removes P and T characters
  from both ends, not the literal prefix "PT":
  - "PT0015T" gives `pt_0015.txt` (`StripTrailingExample`);
  - "PT15" and "15" give the same file, and the later group's file
    overwrites the earlier one (`SubjectCollision`).

## Model

| member | source | states |
|---|---|---|
| Outliers.CutKeeps | functions.py:52-56 | with an `rt` column holding no text, the two cuts succeed, keep the columns and keep exactly the rows that pass both the z test and the 0.1 floor, in order |
| Outliers.CutFails | functions.py:52-56 | a cut fails exactly when `rt` is missing (KeyError) or holds text (TypeError) |
| Outliers.CutSubsequence | functions.py:53-56 | the surviving rows are an order-preserving subsequence of the input rows, with unchanged cells, and never more of them |
| Outliers.CutSurvivors | functions.py:52-56 | every surviving row is an input row with rt > 0.1 and abs(rt - mean) / std <= threshold for the given mean and std; every input row that passes keeps all of its occurrences |
| Outliers.CutIdempotent | functions.py:52-56 | cutting the result again with the same mean, std and threshold changes nothing |
| Outliers.ZeroStdDropsAll | functions.py:52-53 | with std = 0, no row survives |
| Outliers.RemoveZOutliers | functions.py:46-62 | the result has the input's keys in the same order, and each table is the cut of the input table under that key's moments. It fails exactly when some cut fails, and then with the error of the first failing table in key order. The threshold defaults to 3. The input is a value and is left unchanged |
| Outliers.TallyKeys | functions.py:36-42 | each tally has exactly the keys "0", "0.25", "0.5", "0.75" and "1" |
| Outliers.TallyCounts | functions.py:35-41 | each entry is the number of rows whose response equals that value |
| Outliers.TallyAbsent | functions.py:37-41 | a value no row has is counted 0 |
| Outliers.TallyBounded | functions.py:35-41 | the five counts sum to at most the table's row count |
| Outliers.CountResponseValues | functions.py:31-44 | one tally per input key, in order. It fails with a KeyError exactly when some table lacks `response` |
| Cleaning.Reverse | load_data.py:44 | every file name of `data_files` is a key of the inverted map, and every key comes from some pair |
| Cleaning.ReverseInverts | load_data.py:44 | with distinct file names, `reverse_data_files[data_files[n]] == n` |
| Cleaning.Basename | load_data.py:60 | the basename is the suffix of the path after the last '/' or '\\' and holds no separator |
| Cleaning.Assign | load_data.py:65 | the table is stored under the name, every entry under another name is kept, no other key appears, and keys stay distinct; an existing key keeps its position and a new key goes last, so dict order is kept |
| Cleaning.Registry.LoadDatasets | load_data.py:58-67 | after the loading loop, the dictionary is the old one updated by each pick in turn |
| Cleaning.Registry.LoadPick | load_data.py:60-67 | when the basename is mapped, the picked table is afterwards stored under the mapped name; otherwise nothing changes |
| Cleaning.LoadOneStores | load_data.py:60-65 | a mapped pick leaves the entry (`reverse_data_files[basename]`, table) in the dictionary and keeps every entry under another name |
| Cleaning.LoadedNames | load_data.py:58-67 | the loaded dictionary has distinct keys, all of them dataset names of `data_files` |
| Cleaning.LoadOneNames | load_data.py:60-65 | one load step keeps the keys distinct and drawn from `data_files` |
| Cleaning.UnmappedAddsNothing | load_data.py:66-67 | a pick whose basename is unmapped leaves the dictionary unchanged |
| Cleaning.FilterTableSpec | load_data.py:72-73 | filtering keeps the columns and exactly the rows whose value is not excluded, in order. No kept row holds an excluded value |
| Cleaning.FirstLacking | load_data.py:71-72 | the first table, in key order, that lacks the column; every earlier table has it |
| Cleaning.FilteredPrefixSpec | load_data.py:71-73 | after a KeyError at table k, the tables before k are filtered and the rest are unchanged |
| Cleaning.Registry.FilterData | load_data.py:70-73 | the keys are unchanged. Without a KeyError, every table is filtered; with one, it is reported and only the tables before it are filtered |
| Cleaning.TwoExclusions | load_data.py:83-84 | the two passes keep exactly the rows with CONCLUDED not "DROPOUT" and PARTICIPANT outside the six excluded ids |
| Cleaning.DropColumnsSpec | load_data.py:77-80 | after removal, the columns are the old ones minus the listed names, in the old order, the row count is the same, and every row holds under each kept column the value it held before |
| Cleaning.DropAbsent | load_data.py:79 | a listed name that is not a column is skipped without error |
| Cleaning.DropStep | load_data.py:78-80 | dropping the names one at a time is dropping them all at once |
| Cleaning.DropEach | load_data.py:78-80 | the inner loop over the listed names gives the table without those columns |
| Cleaning.Registry.RemoveColumns | load_data.py:75-81 | every table, under the same key, loses the listed columns |
| Cleaning.DropNaSpec | load_data.py:101 | the kept rows are exactly the input rows without a null, in order |
| Cleaning.RenameSteps | load_data.py:102-103 | a name becomes `.replace('PARTICIPANT','subj_idx').replace('NetRT','rt').replace('HEVC','response')`, in that order |
| Cleaning.RenameParticipant | load_data.py:95 | "PARTICIPANT" becomes "subj_idx" |
| Cleaning.RenameNetRT | load_data.py:96 | "NetRT" becomes "rt" |
| Cleaning.RenameHEVC | load_data.py:97 | "HEVC" becomes "response" |
| Cleaning.RenameUntouched | load_data.py:102-103 | a name holding none of the three patterns is unchanged |
| Cleaning.RenameEach | load_data.py:102-103 | the rename loop gives, at every position, `.replace('PARTICIPANT','subj_idx').replace('NetRT','rt').replace('HEVC','response')` of the old column name |
| Cleaning.Tidy | load_data.py:100-104 | the rename keeps the number of columns and keeps the table well formed |
| Cleaning.Registry.DropNaAndRename | load_data.py:100-104 | every table, under the same key, has its incomplete rows dropped and its columns renamed |
| Cleaning.Registry.Clean | load_data.py:83-104 | the whole cleaning script runs without a KeyError exactly when every table has CONCLUDED and PARTICIPANT, and then leaves each table cleaned under its key. On a KeyError it returns that error and leaves the dictionary as the failing pass left it: the tables before the first one lacking the column filtered, the rest as they were |
| Cleaning.CleanedSpec | load_data.py:83-104 | a cleaned table has no null cell, no more rows than before, and one column per column that was not removed |
| Handler.FileSystem.MkDir | datahandler_GSCsplit.py:49 | `mkdir(exist_ok=True)` adds the directory and touches no file |
| Handler.FileSystem.Open | datahandler_GSCsplit.py:42 | opening for writing creates or empties the file |
| Handler.FileSystem.Append | datahandler_GSCsplit.py:43-44 | a write appends to the open file |
| Handler.DatasetHandler.constructor | datahandler_GSCsplit.py:10-13 | stores the path and the columns to keep; there is no dataset yet |
| Handler.DatasetHandler.LoadCsvDataset | datahandler_GSCsplit.py:15-26 | a parsed table replaces the dataset; on any of the four caught failures the dataset is kept |
| Handler.DatasetHandler.FilterColumns | datahandler_GSCsplit.py:28-34 | without a dataset nothing happens. With all columns present, the dataset becomes its projection onto `columns_to_keep`, in that order. A missing column leaves it unchanged |
| Handler.DatasetHandler.ReplaceSpacesInClusters | datahandler_GSCsplit.py:36-39 | without a dataset nothing happens. Otherwise the CLUSTERS rewrite replaces the dataset, or its uncaught error is returned with the dataset unchanged |
| Handler.UnderscoredCells | datahandler_GSCsplit.py:38 | a rewritten CLUSTERS value has the same length, '_' where the old text had ' ', and no space left. Every other column is unchanged |
| Handler.UnderscoredFails | datahandler_GSCsplit.py:38 | the rewrite fails with KeyError without the column, and with AttributeError when no value of a non-empty column is text |
| Handler.DatasetHandler.SaveAsTxt | datahandler_GSCsplit.py:41-44 | the file at the path becomes exactly the header line followed by the row lines; nothing else changes |
| Export.FileLines | datahandler_GSCsplit.py:41-44 | split at newlines, a saved file is `'#' + '\t'.join(columns)`, then one line per row in order, then nothing. There is no index column and no second header |
| Export.HeaderReadsBack | datahandler_GSCsplit.py:43 | the header starts with '#', ends with a newline, and splitting its middle at tabs gives back the columns |
| Export.LineReadsBack | datahandler_GSCsplit.py:44 | splitting a row line at tabs gives one field per cell, in order, and a text cell that needs no quoting reads back as itself |
| Export.BodyJoin | datahandler_GSCsplit.py:44 | the body is the row lines, each ended by a newline |
| Handler.DatasetHandler.SplitByGroupSessionConditionAndSave | datahandler_GSCsplit.py:46-68 | without a dataset nothing happens. Otherwise the file system becomes the plan's actions applied to the old one, and the error is the plan's |
| Handler.DatasetHandler.SplitLevel | datahandler_GSCsplit.py:50-65 | one `groupby` loop performs, key by key, the actions of its plan and stops at the first exception |
| Handler.DatasetHandler.SplitKey | datahandler_GSCsplit.py:51-65 | one loop body names the key's directory or file, then recurses into the key's rows or saves them |
| Export.SplitStart | datahandler_GSCsplit.py:48-50 | the base directory is created first; a missing group column then stops the split with a KeyError |
| Export.KeysPlanStops | datahandler_GSCsplit.py:50-65 | once a key raises, later keys add nothing |
| Export.SplitWrites | datahandler_GSCsplit.py:50-65 | every file written is at `base/lower(g)/session <s>/lower(c)/pt_<p.strip('PT')>.txt` and holds exactly the rows whose group, session, condition and subject are (g, s, c, p) |
| Export.LeafFour | datahandler_GSCsplit.py:51-64 | a leaf write's path is built from the four key values, and its rows are exactly the rows matching them |
| Export.PlanWrites | datahandler_GSCsplit.py:50-65 | every file write comes from one leaf key tuple, with the rows matching it |
| Export.SplitCount | datahandler_GSCsplit.py:50-65 | without an exception, the written row counts sum to the number of rows whose four keys are not null, and each such row lands in some written file |
| Export.PlanCount | datahandler_GSCsplit.py:50-65 | the rows written by a nested split are exactly as many as the rows with all keys present |
| Export.PlanCovers | datahandler_GSCsplit.py:50-65 | every row with all keys present is in some written file |
| Export.ComponentText | datahandler_GSCsplit.py:51-64 | a group or condition directory is the lowercased text; a subject file is `pt_` + the id stripped of P and T + `.txt` |
| Export.LeafPathFour | datahandler_GSCsplit.py:51-64 | a leaf path is the base followed by the four components |
| Export.ApplyNames | datahandler_GSCsplit.py:49-65 | after the actions, the directories are the old ones plus those created, and the files are the old ones plus those written |
| Export.ApplyLastWrite | datahandler_GSCsplit.py:65 | a file holds the text of the last write to its path |
| Export.ApplyUntouched | datahandler_GSCsplit.py:42-44 | a file no action writes keeps its text |
| Export.MkDirIdempotent | datahandler_GSCsplit.py:49 | creating a directory twice is creating it once |
| Export.StripLeadingExample | datahandler_GSCsplit.py:63 | "PT0015".strip('PT') is "0015" |
| Export.StripBothEndsExample | datahandler_GSCsplit.py:63 | "TP15PT".strip('PT') is "15" |
| Export.StripTrailingExample | datahandler_GSCsplit.py:63 | "PT0015T".strip('PT') is "0015" |
| Export.StripNothingExample | datahandler_GSCsplit.py:63 | an id with no P or T at either end is unchanged |
| Export.StripAllExample | datahandler_GSCsplit.py:63 | "PTPT".strip('PT') is empty |
| Export.SubjectCollision | datahandler_GSCsplit.py:63-64 | an id and the same id behind "PT" strip to the same text, so they share one file |
| Grouping.KeysSpec | datahandler_GSCsplit.py:50 | the `groupby` keys are sorted and contain no null. Each is some row's value, and every non-null value is a key |
| Grouping.KeysDistinct | datahandler_GSCsplit.py:50 | each key occurs once |
| Grouping.GroupSpec | datahandler_GSCsplit.py:50 | a key's group is exactly the rows holding that key, in order |
| Grouping.InsertSpec | datahandler_GSCsplit.py:50 | inserting a key keeps the keys sorted and adds just that key |
| Grouping.LessOrder | datahandler_GSCsplit.py:50 | the key order is irreflexive, transitive and total on non-null values |
| Grouping.SortedDistinct | datahandler_GSCsplit.py:50 | sorted keys are distinct |
| Grouping.LessStrTransitive | datahandler_GSCsplit.py:50 | the order on text is transitive |
| Grouping.LessStrTotal | datahandler_GSCsplit.py:50 | any two different texts are ordered |
| Grouping.LessStrIrreflexive | datahandler_GSCsplit.py:50 | no text is below itself |
| EmpSim.NormalizeSubjectShape | empsim_compiler.py:21 | the normalised id has length max(2, length after lstrip) and does not start with 'P' or 'T'. An unsigned rest is kept at its end |
| EmpSim.NormalizeAfterRun | empsim_compiler.py:21 | a leading run of 'P', 'T' and '0' is removed and the rest zero-padded to two characters |
| EmpSim.NormalizeSubject15 | empsim_compiler.py:21 | "PT0015" becomes "15" |
| EmpSim.NormalizeSubject05 | empsim_compiler.py:21 | "PT0005" becomes "05" |
| EmpSim.NormalizeSubject100 | empsim_compiler.py:21 | "PT0100" becomes "100" |
| EmpSim.NormalizeSubjectIdempotent | empsim_compiler.py:21 | normalising a normalised id changes nothing |
| EmpSim.NormalizeGroupSpec | empsim_compiler.py:22-23 | the group is lowercased; "probiotics" and "probiotic" become "probiotic", and nothing else changes beyond lowercasing. Applying it twice changes nothing |
| EmpSim.DigitRun | empsim_compiler.py:32 | the greedy `\d+`: the longest all-digit prefix |
| EmpSim.FirstAt | empsim_compiler.py:32-33 | `re.search` finds the first position that matches |
| EmpSim.SimSubjectFound | empsim_compiler.py:32 | the subject parses exactly when the name contains "pt_" followed by a digit |
| EmpSim.SimSubjectAt | empsim_compiler.py:32 | the subject is the last two characters of the digit run after the first such "pt_" |
| EmpSim.SimSessionFound | empsim_compiler.py:33 | the session parses exactly when the name contains an 's' followed by a digit |
| EmpSim.SimSessionAt | empsim_compiler.py:33 | the session is the digit after the first such 's' |
| EmpSim.SimGroupSpec | empsim_compiler.py:34 | the group is the lowercased text before the first '_', or the whole name without one |
| EmpSim.SimGroupOf | empsim_compiler.py:34 | a name `<group>_...` gives the lowercased group |
| EmpSim.ExampleSubject | empsim_compiler.py:32 | "probiotic_pt_0015_s1_sim.dat" gives subject "15" |
| EmpSim.ExampleSession | empsim_compiler.py:33 | "probiotic_pt_0015_s1_sim.dat" gives session "1" |
| EmpSim.ProcessEmpiricalFile | empsim_compiler.py:11-27 | the column-by-column updates compute the processed empirical file |
| EmpSim.KeptCells | empsim_compiler.py:13-14 | `usecols` keeps exactly the five wanted columns and their values |
| EmpSim.RenamedColumns | empsim_compiler.py:17-18 | after the rename, the five columns are named subject, session, group, response and RT, and there is no `type` yet |
| EmpSim.RenamedCell | empsim_compiler.py:17-18 | every renamed cell holds the original cell's value |
| EmpSim.SubjectAndGroupMoved | empsim_compiler.py:17-18 | the subject and group columns hold the old `#subj_idx` and GROUP values |
| EmpSim.TransformCell | empsim_compiler.py:21-25 | subject is normalised, group lowercased and mapped, `type` is 'E', and every other cell is unchanged |
| EmpSim.TransformColumns | empsim_compiler.py:25 | `type` is appended as the last column |
| EmpSim.TransformFails | empsim_compiler.py:21-22 | the transform fails exactly when some subject is not text, or when no group value of a non-empty table is text |
| EmpSim.EmpiricalSpec | empsim_compiler.py:11-27 | a processed file has one row per input row. Each row carries the normalised subject, the session, the mapped group, response, RT and 'E' |
| EmpSim.EmpiricalFails | empsim_compiler.py:13-22 | processing fails exactly when a wanted column is missing, a subject is not text, or no group is text |
| EmpSim.ProcessSimulatedFile | empsim_compiler.py:29-45 | the column-by-column updates compute the processed simulated file |
| EmpSim.SimulatedFails | empsim_compiler.py:32-33 | a simulated file fails exactly when its subject or session does not parse |
| EmpSim.SimulatedRows | empsim_compiler.py:37-43 | each line of a simulated file becomes response, RT, the parsed subject, session and group, and 'S' |
| EmpSim.TaggedRows | empsim_compiler.py:40-43 | the four constant columns are appended to every row |
| EmpSim.Appended | empsim_compiler.py:40-43 | assigning a constant to a new column appends it to every row |
| Compiler.CollectSpec | empsim_compiler.py:49-54 | only files with the suffix are processed. The loop succeeds exactly when every one of them does, and then returns one table per such file, in listing order |
| Compiler.CollectStep | empsim_compiler.py:50-54 | one more listed file is skipped, processed and appended, or stops the loop with its error |
| Compiler.CollectErr | empsim_compiler.py:53 | after an exception, later files change nothing |
| Compiler.EmpiricalFolder | empsim_compiler.py:50-54 | the inner loop over one folder's listing continues the collection |
| Compiler.ProcessEmpiricalData | empsim_compiler.py:47-55 | the nested loops compute the concatenation of the processed `.txt` files of all folders, in order |
| Compiler.StrideIndex | empsim_compiler.py:68 | `xs[::step]` has an element j exactly when j·step is an index, and that element is xs[j·step] |
| Compiler.Head | empsim_compiler.py:69 | `xs[:m]` is the prefix of length min(m, len) |
| Compiler.DownsampleFails | empsim_compiler.py:67-68 | downsampling fails with ZeroDivision when m = 0, and with a zero step when there are fewer rows than m. It succeeds exactly when 1 <= m <= n |
| Compiler.DownsampleSpec | empsim_compiler.py:67-69 | the result keeps the columns and has exactly m rows, row j being input row j·(n // m) |
| Compiler.DownsampleShape | empsim_compiler.py:67-69 | the result keeps the columns and has exactly m rows |
| Compiler.DownsampleRow | empsim_compiler.py:67-69 | row j of the result is input row j·(n // m) |
| Compiler.ProcessSimulatedData | empsim_compiler.py:57-71 | the loop, concatenation and downsampling compute the simulated data |
| Compiler.SimulatedTables | empsim_compiler.py:59-63 | each collected simulated table comes from a listed `_sim.dat` file and has the simulated columns |
| Compiler.ReorderSpec | empsim_compiler.py:73-75 | reordering succeeds exactly when the six columns are present. It then has exactly subject, session, group, type, response and RT, in that order, and the same rows; otherwise it is a KeyError on a missing one |
| Compiler.EmpiricalOutput | empsim_compiler.py:73-75 | whenever the empirical data compiles, reordering it succeeds with the six columns in order |
| Compiler.EmpiricalOutputRows | empsim_compiler.py:47-55 | the reordered empirical output has exactly as many rows as the selected `.txt` files have lines |
| Compiler.EmpiricalOutputLine | empsim_compiler.py:47-55 | the output row after the lines of the first k selected files, plus i, is line i of file k: its normalised subject, session, mapped group, 'E', response and RT, in the output order |
| Compiler.SimulatedOutput | empsim_compiler.py:57-71 | the reordered simulated data has the six columns in order and exactly m rows. Each row is one line of one `_sim.dat` file with that file's parsed subject, session, group and 'S' |
| Tables.Select | datahandler_GSCsplit.py:31 | `df[names]` succeeds exactly when every name is a column, and gives those columns in that order with as many rows. Otherwise it is a KeyError on a missing name |
| Tables.SelectRow | datahandler_GSCsplit.py:31 | each selected row is the projection of the input row |
| Tables.StrMap | datahandler_GSCsplit.py:38 | a `.str` rewrite fails with KeyError without the column, and with AttributeError when no value of a non-empty column is text. It keeps the shape |
| Tables.Concat | empsim_compiler.py:55 | `pd.concat` of no table fails; otherwise every column of every table is a column of the result |
| Tables.ConcatSpec | empsim_compiler.py:55 | the columns are the union of the tables' columns in order of first appearance, with no name twice; there is one row per input row; row i of table k comes after all rows of the earlier tables and holds that row's value under each of its columns and null under the others |
| Tables.ConcatUniform | empsim_compiler.py:64 | concatenating tables with the same columns stacks their rows |
| Tables.SetConstantCells | empsim_compiler.py:25 | assigning a constant sets that column in every row and leaves the rest |
| Text.LowerIdempotent | empsim_compiler.py:22 | lowercasing leaves no upper-case letter, and doing it twice changes nothing |
| Text.LStrip | empsim_compiler.py:21 | `lstrip(chars)` removes the longest leading run of characters from the set |
| Text.StripAround | datahandler_GSCsplit.py:63 | `strip(chars)` removes any runs of characters from the set at both ends, and nothing inside |
| Text.StripEnds | datahandler_GSCsplit.py:63 | a stripped text is empty or has neither end in the set |
| Text.StripUnchanged | datahandler_GSCsplit.py:63 | a text with neither end in the set is unchanged |
| Text.StripIdempotent | datahandler_GSCsplit.py:63 | stripping twice is stripping once |
| Text.ZFillShape | empsim_compiler.py:21 | `zfill(w)` pads to length max(w, len) with zeros in front of an unsigned text and keeps longer text as it is |
| Text.ReplaceChar | datahandler_GSCsplit.py:38 | replacing one character by another keeps the length and changes exactly its occurrences |
| Text.ReplaceCharRemoves | datahandler_GSCsplit.py:38 | after the replacement the character no longer occurs |
| Text.ReplaceAbsent | load_data.py:103 | replacing a pattern that does not occur changes nothing |
| Text.SplitJoin | datahandler_GSCsplit.py:43 | splitting a tab-joined line at tabs gives back the fields when none holds a tab |
| Seqs.FilterIsSubsequence | load_data.py:73 | a filter keeps an order-preserving subsequence |
| Seqs.FilterMembers | load_data.py:73 | a filter keeps exactly the elements that pass, with their multiplicities |

## Left out

- Tkinter dialogs, `hddm.load_csv`, `pd.read_csv` and `to_csv`. The model
  starts from the parsed tables:
  - a dialog pick is a (path, table) pair;
  - `load_csv_dataset` takes the parse result, success or one of the four
    caught failures;
  - an empirical file is its parsed frame;
  - a simulated file is its name and its value pairs.
- The messages printed by every method and the data-inspection helpers.
- Computing mean and standard deviation needs square roots and floating
  point. Each table's mean and std are parameters of `RemoveZOutliers`.
- Floating-point arithmetic: values are exact reals. How `to_csv` writes a
  float is a parameter (`FloatText`), and no floating-point rounding is
  modelled.
- `str.lower` covers ASCII only. Non-ASCII case mapping is not modelled.
- EmpSim.DigitRun: Python's `\d` also matches non-ASCII decimal digits;
  `Text.IsDigit`, and with it `DigitRun`, `PtAt` and `SessionAt`, accept
  only '0' to '9'.
- Cleaning.Basename: `os.path.basename` on Windows also drops a drive
  prefix ("C:Raw.csv" gives "Raw.csv"); the model splits only at '/' and
  '\\' and keeps it.
- Outliers.CountResponseValues: when `response` holds text, pandas may
  answer `counts.get(0, 0)` and `counts.get(1, 0)` by position in the
  counts instead of by label. The model always looks values up by label,
  so such text responses count 0 under every key.
- The directory listing order is OS-dependent. Each listing is a given
  sequence.
- `process_simulated_data` reads the global `empirical_data`. Its row
  count is an explicit parameter.
- Path joining and normalisation are out of scope. A path is a sequence of
  components, and the folder path is not part of a simulated file's name.
- `Path.mkdir` failing because a parent is missing, or because a file has
  that name, is not modelled. Creating a directory always succeeds.
- A `groupby` over keys mixing numbers and text raises TypeError in
  pandas. The model orders numbers before text instead.
- Grouping.Less: an integer and a float of equal value (1 and 1.0) are
  two keys here, where pandas' `groupby` puts them in one group because
  they compare and hash equal. `read_csv` never mixes the two in one
  column, so only the model's wider value type reaches this case.
- Tables with duplicate column names are not modelled: `Cell` reads the
  first column of a name.
- `to_csv` quoting is modelled only for fields holding the separator, a
  quote or a newline. The special quoting of a single empty field and
  platform line endings are not modelled.
- Plotting, `main.py`, `combinesimulateddata.py` and
  `convertsimulationfiletype.py` are interactive or raw file I/O and are
  not part of this model.
