/** load_data.py: mapping picked files to dataset names, and the cleaning
    steps that rewrite the dictionary of loaded tables in place: row
    exclusion (`filter_data`), column removal (`remove_columns`), and the
    `dropna` plus column-rename loop. */
module Cleaning {
  import opened Wrappers
  import opened Seqs
  import opened Tables
  import Text

  /** Participants dropped for an incomplete protocol or recording problems. */
  const ExcludedParticipants: seq<string> := ["PT0015", "PT0034", "PT0053", "PT0057", "PT0060", "PT0062"]

  /** Columns not needed for the analysis. */
  const ColumnsToRemove: seq<string> :=
    ["REP", "SESSIONCOMPLETE", "NrOfPink", "TokenLoc", "BettingValuePink",
     "BettingValueBlue", "TRIALCODE", "TrialOnset", "ResponseTime",
     "ValidTrial", "ProbPink", "ProbBlue", "TRIAL HANDLE", "EVPINK",
     "EVBLUE", "EVDIFF", "EV.PICKED", "VARPINK", "VARBLUE", "VARDIFF",
     "VARPICKED"]

  /** The renames, applied in this order as substring replacements. */
  const ColumnReplacements: seq<(string, string)> :=
    [("PARTICIPANT", "subj_idx"), ("NetRT", "rt"), ("HEVC", "response")]

  /** `data_files`: dataset name to expected file name, in insertion order. */
  const DataFiles: seq<(string, string)> := [("Raw Data Set", "Raw.csv")]

  // ---------------------------------------------------------------------
  // Mapping file names to dataset names

  /** `{filename: name for name, filename in data_files.items()}`: a later
      pair with the same file name overrides an earlier one. */
  function Reverse(dataFiles: seq<(string, string)>): (r: map<string, string>)
    ensures forall i :: 0 <= i < |dataFiles| ==> dataFiles[i].1 in r
    ensures forall f :: f in r ==> exists i :: 0 <= i < |dataFiles| && dataFiles[i] == (r[f], f)
  {
    if dataFiles == [] then map[]
    else
      var n := |dataFiles| - 1;
      var prev := Reverse(dataFiles[..n]);
      var r := prev[dataFiles[n].1 := dataFiles[n].0];
      assert forall i :: 0 <= i < |dataFiles| ==> dataFiles[i].1 in r by {
        forall i | 0 <= i < n
          ensures dataFiles[i].1 in r
        {
          assert dataFiles[..n][i] == dataFiles[i];
        }
      }
      assert forall f :: f in r ==> exists i :: 0 <= i < |dataFiles| && dataFiles[i] == (r[f], f) by {
        forall f | f in r
          ensures exists i :: 0 <= i < |dataFiles| && dataFiles[i] == (r[f], f)
        {
          if f == dataFiles[n].1 {
            assert dataFiles[n] == (r[f], f);
          } else {
            var i :| 0 <= i < n && dataFiles[..n][i] == (prev[f], f);
            assert dataFiles[i] == (r[f], f);
          }
        }
      }
      r
  }

  predicate DistinctFiles(dataFiles: seq<(string, string)>)
  {
    forall i, j :: 0 <= i < j < |dataFiles| ==> dataFiles[i].1 != dataFiles[j].1
  }

  /** With distinct file names the inversion is exact:
      `reverse_data_files[data_files[n]] == n`. */
  lemma {:induction false} ReverseInverts(dataFiles: seq<(string, string)>, i: nat)
    requires DistinctFiles(dataFiles) && i < |dataFiles|
    ensures Reverse(dataFiles)[dataFiles[i].1] == dataFiles[i].0
  {
    var n := |dataFiles| - 1;
    if i < n {
      var prefix := dataFiles[..n];
      assert DistinctFiles(prefix);
      assert prefix[i] == dataFiles[i];
      ReverseInverts(prefix, i);
      assert dataFiles[n].1 != dataFiles[i].1;
    }
  }

  predicate IsSeparator(c: char) { c == '/' || c == '\\' }

  /** `os.path.basename`: what follows the last path separator (Windows
      accepts both '/' and '\'). */
  function Basename(path: string): (b: string)
    ensures |b| <= |path| && b == path[|path| - |b|..]
    ensures forall i :: 0 <= i < |b| ==> !IsSeparator(b[i])
    ensures |b| < |path| ==> IsSeparator(path[|path| - |b| - 1])
  {
    if path == [] then []
    else if IsSeparator(path[|path| - 1]) then []
    else Basename(path[..|path| - 1]) + [path[|path| - 1]]
  }

  /** `d[name] = t`: replaces the value of an existing key in place, or adds
      the key at the end. */
  function Assign(d: Dict, name: string, t: Table): (r: Dict)
    ensures name in Names(r)
    ensures forall n :: n in Names(r) <==> n in Names(d) || n == name
    ensures DistinctNames(d) ==> DistinctNames(r)
    ensures forall e :: e in r ==> e in d || e == Entry(name, t)
    ensures Entry(name, t) in r
    ensures forall e :: e in d && e.name != name ==> e in r
    ensures name in Names(d) ==> r == d[IndexOf(Names(d), name) := Entry(name, t)]
    ensures name !in Names(d) ==> r == d + [Entry(name, t)]
  {
    if name in Names(d) then
      var i := IndexOf(Names(d), name);
      var r := d[i := Entry(name, t)];
      assert r[i] == Entry(name, t);
      forall e | e in d && e.name != name
        ensures e in r
      {
        var j :| 0 <= j < |d| && d[j] == e;
        assert Names(d)[j] == e.name;
        assert r[j] == e;
      }
      assert forall n :: n in Names(r) ==> n in Names(d) by {
        forall n | n in Names(r) ensures n in Names(d) {
          var j :| 0 <= j < |r| && Names(r)[j] == n;
          assert Names(d)[j] == n;
        }
      }
      assert forall n :: n in Names(d) ==> n in Names(r) by {
        forall n | n in Names(d) ensures n in Names(r) {
          var j :| 0 <= j < |d| && Names(d)[j] == n;
          assert Names(r)[j] == n;
        }
      }
      r
    else
      var r := d + [Entry(name, t)];
      assert Names(r) == Names(d) + [name];
      r
  }

  /** One pass of the loading loop: a picked file whose base name is a known
      file name is stored under its dataset name; any other file adds nothing. */
  function LoadOne(d: Dict, reverse: map<string, string>, pick: (string, Table)): Dict
  {
    var base := Basename(pick.0);
    if base in reverse then Assign(d, reverse[base], pick.1) else d
  }

  /** The whole loading loop, one pick per entry of `data_files`: the path the
      dialog returned and the table the CSV loader produced for it. */
  function Loaded(d: Dict, reverse: map<string, string>, picks: seq<(string, Table)>): Dict
  {
    if picks == [] then d
    else LoadOne(Loaded(d, reverse, picks[..|picks| - 1]), reverse, picks[|picks| - 1])
  }

  /** Only dataset names from `data_files` ever become keys, and keys stay unique. */
  lemma {:induction false} LoadedNames(dataFiles: seq<(string, string)>, picks: seq<(string, Table)>)
    ensures DistinctNames(Loaded([], Reverse(dataFiles), picks))
    ensures NamesFrom(Loaded([], Reverse(dataFiles), picks), dataFiles)
  {
    if picks != [] {
      var n := |picks| - 1;
      var reverse := Reverse(dataFiles);
      LoadedNames(dataFiles, picks[..n]);
      LoadOneNames(Loaded([], reverse, picks[..n]), dataFiles, picks[n]);
    }
  }

  /** Every key of `d` is a dataset name listed in `dataFiles`. */
  predicate NamesFrom(d: Dict, dataFiles: seq<(string, string)>)
  {
    forall n :: n in Names(d) ==> exists i :: 0 <= i < |dataFiles| && dataFiles[i].0 == n
  }

  /** One pass of the loop keeps the keys unique and drawn from `data_files`. */
  lemma LoadOneNames(d: Dict, dataFiles: seq<(string, string)>, pick: (string, Table))
    requires DistinctNames(d) && NamesFrom(d, dataFiles)
    ensures DistinctNames(LoadOne(d, Reverse(dataFiles), pick))
    ensures NamesFrom(LoadOne(d, Reverse(dataFiles), pick), dataFiles)
  {
    var reverse := Reverse(dataFiles);
    var base := Basename(pick.0);
    if base in reverse {
      var i :| 0 <= i < |dataFiles| && dataFiles[i] == (reverse[base], base);
      var r := Assign(d, reverse[base], pick.1);
      forall m | m in Names(r)
        ensures exists j :: 0 <= j < |dataFiles| && dataFiles[j].0 == m
      {
        if m == reverse[base] {
          assert dataFiles[i].0 == m;
        }
      }
    }
  }

  /** A pick whose base name is a known file name leaves its table stored
      under the dataset name, and keeps every entry under another name. */
  lemma LoadOneStores(d: Dict, reverse: map<string, string>, pick: (string, Table))
    requires Basename(pick.0) in reverse
    ensures Entry(reverse[Basename(pick.0)], pick.1) in LoadOne(d, reverse, pick)
    ensures forall e :: e in d && e.name != reverse[Basename(pick.0)] ==> e in LoadOne(d, reverse, pick)
  {
  }

  /** One pass of the loop keeps the keys unique and every table well formed. */
  lemma LoadOneKeeps(d: Dict, reverse: map<string, string>, pick: (string, Table))
    requires DistinctNames(d) && forall e :: e in d ==> WellFormed(e.table)
    requires WellFormed(pick.1)
    ensures DistinctNames(LoadOne(d, reverse, pick))
    ensures forall e :: e in LoadOne(d, reverse, pick) ==> WellFormed(e.table)
  {
  }

  /** The loop after `i + 1` picks is one more pass after `i` picks. */
  lemma LoadedStep(d: Dict, reverse: map<string, string>, picks: seq<(string, Table)>, i: nat)
    requires i < |picks|
    ensures Loaded(d, reverse, picks[..i + 1]) == LoadOne(Loaded(d, reverse, picks[..i]), reverse, picks[i])
  {
    assert picks[..i + 1][..i] == picks[..i];
  }

  /** A pick whose base name matches no file name leaves the dictionary as it was. */
  lemma UnmappedAddsNothing(d: Dict, reverse: map<string, string>, picks: seq<(string, Table)>, path: string, t: Table)
    requires Basename(path) !in reverse
    ensures Loaded(d, reverse, picks + [(path, t)]) == Loaded(d, reverse, picks)
  {
    assert (picks + [(path, t)])[..|picks|] == picks;
  }

  // ---------------------------------------------------------------------
  // Row exclusion

  /** `df[column].isin(values)` for one cell; a missing value matches nothing. */
  predicate IsExcluded(v: Value, values: seq<string>)
  {
    v.Str? && v.s in values
  }

  function ExclusionMask(cols: seq<string>, column: string, values: seq<string>): Row -> bool
  {
    r => !IsExcluded(Cell(cols, r, column), values)
  }

  /** `df.loc[~df[column].isin(values)]`, or KeyError without that column. */
  function FilterTable(t: Table, column: string, values: seq<string>): Result<Table, Error>
  {
    if column !in t.columns then Err(MissingColumn(column))
    else Ok(Table(t.columns, Filter(t.rows, ExclusionMask(t.columns, column, values))))
  }

  /** After the filter no row's value lies in `values`; every other row is
      kept, in order and as often as it occurs; the columns stay. */
  lemma FilterTableSpec(t: Table, column: string, values: seq<string>)
    requires column in t.columns
    ensures FilterTable(t, column, values).Ok?
    ensures FilterTable(t, column, values).value.columns == t.columns
    ensures IsSubsequence(FilterTable(t, column, values).value.rows, t.rows)
    ensures forall r :: r in FilterTable(t, column, values).value.rows ==>
      r in t.rows && !IsExcluded(Cell(t.columns, r, column), values)
    ensures forall r :: r in t.rows && !IsExcluded(Cell(t.columns, r, column), values) ==>
      multiset(FilterTable(t, column, values).value.rows)[r] == multiset(t.rows)[r]
  {
    FilterMembers(t.rows, ExclusionMask(t.columns, column, values));
    FilterIsSubsequence(t.rows, ExclusionMask(t.columns, column, values));
  }

  function CleanMask(cols: seq<string>): Row -> bool
  {
    r => !IsExcluded(Cell(cols, r, "CONCLUDED"), ["DROPOUT"]) &&
         !IsExcluded(Cell(cols, r, "PARTICIPANT"), ExcludedParticipants)
  }

  /** The two exclusion passes in sequence keep exactly the rows whose
      CONCLUDED is not "DROPOUT" and whose PARTICIPANT is not blacklisted. */
  lemma TwoExclusions(t: Table)
    requires "CONCLUDED" in t.columns && "PARTICIPANT" in t.columns
    ensures FilterTable(t, "CONCLUDED", ["DROPOUT"]).Ok?
    ensures FilterTable(FilterTable(t, "CONCLUDED", ["DROPOUT"]).value, "PARTICIPANT", ExcludedParticipants)
      == Ok(Table(t.columns, Filter(t.rows, CleanMask(t.columns))))
  {
    FilterFilter(t.rows, ExclusionMask(t.columns, "CONCLUDED", ["DROPOUT"]),
      ExclusionMask(t.columns, "PARTICIPANT", ExcludedParticipants), CleanMask(t.columns));
  }

  /** Index of the first table lacking `column` (where `filter_data` raises), or the size. */
  function FirstLacking(d: Dict, column: string): (k: nat)
    ensures k <= |d|
    ensures forall i :: 0 <= i < k ==> column in d[i].table.columns
    ensures k < |d| ==> column !in d[k].table.columns
  {
    if d == [] then 0
    else if column !in d[0].table.columns then 0
    else 1 + FirstLacking(d[1..], column)
  }

  /** Where `filter_data` raises depends only on the tables' columns. */
  lemma FirstLackingSameColumns(d: Dict, e: Dict, column: string)
    requires |d| == |e| && forall j :: 0 <= j < |d| ==> d[j].table.columns == e[j].table.columns
    ensures FirstLacking(d, column) == FirstLacking(e, column)
  {
  }

  /** One entry after `filter_data`: same key, same columns, fewer rows. */
  function Excluding(e: Entry, column: string, values: seq<string>): (r: Entry)
    ensures r.name == e.name && r.table.columns == e.table.columns
    ensures WellFormed(e.table) ==> WellFormed(r.table)
  {
    FilterWellFormed(e.table, ExclusionMask(e.table.columns, column, values));
    Entry(e.name, Table(e.table.columns, Filter(e.table.rows, ExclusionMask(e.table.columns, column, values))))
  }

  /** The dictionary after `filter_data` has filtered its first `k` tables. */
  function FilteredPrefix(d: Dict, column: string, values: seq<string>, k: nat): (r: Dict)
    requires k <= |d|
    ensures |r| == |d| && forall j :: 0 <= j < |d| ==> r[j].name == d[j].name
    ensures forall j :: 0 <= j < |d| ==> r[j].table.columns == d[j].table.columns
    ensures (forall e :: e in d ==> WellFormed(e.table)) ==> forall e :: e in r ==> WellFormed(e.table)
  {
    seq(|d|, j requires 0 <= j < |d| => if j < k then Excluding(d[j], column, values) else d[j])
  }

  /** One more pass of the loop filters one more table. */
  lemma FilteredStep(d: Dict, column: string, values: seq<string>, i: nat)
    requires i < |d|
    ensures FilteredPrefix(d, column, values, i)[i] == d[i]
    ensures FilteredPrefix(d, column, values, i)[i := Excluding(d[i], column, values)] ==
      FilteredPrefix(d, column, values, i + 1)
  {
  }

  /** The state `filter_data` leaves: up to the first table without the
      column every table is filtered as `FilterTable` says, and from there
      on every table is untouched. */
  lemma FilteredPrefixSpec(d: Dict, column: string, values: seq<string>)
    ensures var k := FirstLacking(d, column);
      var r := FilteredPrefix(d, column, values, k);
      (forall j :: 0 <= j < k ==> FilterTable(d[j].table, column, values) == Ok(r[j].table)) &&
      (forall j :: k <= j < |d| ==> r[j] == d[j])
  {
  }

  // ---------------------------------------------------------------------
  // Column removal

  /** The elements of `xs` standing at the positions whose column is not in `names`. */
  function KeepPositions<T>(cols: seq<string>, xs: seq<T>, names: seq<string>): (r: seq<T>)
    requires |xs| == |cols|
  {
    if cols == [] then []
    else (if cols[0] in names then [] else [xs[0]]) + KeepPositions(cols[1..], xs[1..], names)
  }

  /** Dropping every column named in `names` (absent names are skipped). */
  function DropColumns(t: Table, names: seq<string>): (r: Table)
    requires WellFormed(t)
    ensures WellFormed(r)
  {
    var r := Table(KeepPositions(t.columns, t.columns, names),
      seq(|t.rows|, i requires 0 <= i < |t.rows| => KeepPositions(t.columns, t.rows[i], names)));
    forall i | 0 <= i < |t.rows| ensures |r.rows[i]| == |r.columns| {
      KeepLength(t.columns, t.rows[i], t.columns, names);
    }
    r
  }

  lemma {:induction false} KeepLength<T, U>(cols: seq<string>, xs: seq<T>, ys: seq<U>, names: seq<string>)
    requires |xs| == |cols| && |ys| == |cols|
    ensures |KeepPositions(cols, xs, names)| == |KeepPositions(cols, ys, names)|
  {
    if cols != [] {
      KeepLength(cols[1..], xs[1..], ys[1..], names);
    }
  }

  /** Kept column names are the names not listed, in their original order. */
  lemma {:induction false} KeepColumns(cols: seq<string>, names: seq<string>)
    ensures KeepPositions(cols, cols, names) == Filter(cols, c => c !in names)
  {
    if cols != [] {
      KeepColumns(cols[1..], names);
    }
  }

  /** Dropping `names` and then `more` is dropping both at once. */
  lemma {:induction false} KeepTwice<T>(cols: seq<string>, xs: seq<T>, names: seq<string>, more: seq<string>)
    requires |xs| == |cols|
    ensures |KeepPositions(cols, cols, names)| == |KeepPositions(cols, xs, names)|
    ensures KeepPositions(KeepPositions(cols, cols, names), KeepPositions(cols, xs, names), more)
      == KeepPositions(cols, xs, names + more)
  {
    KeepLength(cols, cols, xs, names);
    if cols != [] {
      var tailCols := KeepPositions(cols[1..], cols[1..], names);
      var tailXs := KeepPositions(cols[1..], xs[1..], names);
      KeepTwice(cols[1..], xs[1..], names, more);
      if cols[0] in names {
        assert KeepPositions(cols, cols, names) == tailCols;
        assert KeepPositions(cols, xs, names) == tailXs;
      } else {
        var c := [cols[0]] + tailCols;
        var x := [xs[0]] + tailXs;
        assert KeepPositions(cols, cols, names) == c;
        assert KeepPositions(cols, xs, names) == x;
        assert c[0] == cols[0] && c[1..] == tailCols;
        assert x[0] == xs[0] && x[1..] == tailXs;
      }
    }
  }

  /** `if col in df.columns: df.drop(col, axis=1, inplace=True)` for one name. */
  function DropColumn(t: Table, name: string): (r: Table)
    requires WellFormed(t)
    ensures WellFormed(r)
  {
    if name in t.columns then DropColumns(t, [name]) else t
  }

  /** A name that is not a column is skipped without error. */
  lemma DropAbsent(t: Table, name: string)
    requires WellFormed(t) && name !in t.columns
    ensures DropColumns(t, [name]) == t
  {
    assert forall i :: 0 <= i < |t.rows| ==> KeepPositions(t.columns, t.rows[i], [name]) == t.rows[i] by {
      forall i | 0 <= i < |t.rows| ensures KeepPositions(t.columns, t.rows[i], [name]) == t.rows[i] {
        KeepNone(t.columns, t.rows[i], [name]);
      }
    }
    KeepNone(t.columns, t.columns, [name]);
  }

  lemma {:induction false} KeepNone<T>(cols: seq<string>, xs: seq<T>, names: seq<string>)
    requires |xs| == |cols| && forall n :: n in names ==> n !in cols
    ensures KeepPositions(cols, xs, names) == xs
  {
    if cols != [] {
      KeepNone(cols[1..], xs[1..], names);
    }
  }

  /** Dropping one more name after `names` is dropping `names + [name]`. */
  lemma DropStep(t: Table, names: seq<string>, name: string)
    requires WellFormed(t)
    ensures DropColumn(DropColumns(t, names), name) == DropColumns(t, names + [name])
  {
    var d := DropColumns(t, names);
    KeepTwice(t.columns, t.columns, names, [name]);
    forall i | 0 <= i < |t.rows|
      ensures KeepPositions(d.columns, d.rows[i], [name]) == KeepPositions(t.columns, t.rows[i], names + [name])
    {
      KeepTwice(t.columns, t.rows[i], names, [name]);
    }
    if name !in d.columns {
      DropAbsent(d, name);
    }
  }

  /** Reading a kept column from the kept positions of a row gives the
      value the row held under it. */
  lemma {:induction false} KeepCell(cols: seq<string>, row: Row, names: seq<string>, c: string)
    requires |row| == |cols| && c !in names
    ensures Cell(KeepPositions(cols, cols, names), KeepPositions(cols, row, names), c) == Cell(cols, row, c)
    decreases |cols|
  {
    if cols != [] {
      var keptCols := KeepPositions(cols[1..], cols[1..], names);
      var keptRow := KeepPositions(cols[1..], row[1..], names);
      KeepCell(cols[1..], row[1..], names, c);
      assert cols == [cols[0]] + cols[1..] && row == [row[0]] + row[1..];
      CellCons(cols[0], cols[1..], row[0], row[1..], c);
      if cols[0] in names {
        assert KeepPositions(cols, cols, names) == keptCols;
        assert KeepPositions(cols, row, names) == keptRow;
      } else {
        assert KeepPositions(cols, cols, names) == [cols[0]] + keptCols;
        assert KeepPositions(cols, row, names) == [row[0]] + keptRow;
        KeepLength(cols[1..], row[1..], cols[1..], names);
        CellCons(cols[0], keptCols, row[0], keptRow, c);
      }
    }
  }

  /** After `remove_columns` none of the listed names is a column, every
      other column stays in its original order, and each row keeps exactly
      the values of the kept columns. */
  lemma DropColumnsSpec(t: Table, names: seq<string>)
    requires WellFormed(t)
    ensures DropColumns(t, names).columns == Filter(t.columns, c => c !in names)
    ensures forall c :: c in DropColumns(t, names).columns <==> c in t.columns && c !in names
    ensures |DropColumns(t, names).rows| == |t.rows|
    ensures forall i, c :: 0 <= i < |t.rows| && c !in names ==>
      Cell(DropColumns(t, names).columns, DropColumns(t, names).rows[i], c) == Cell(t.columns, t.rows[i], c)
  {
    KeepColumns(t.columns, names);
    FilterMembers(t.columns, c => c !in names);
    forall i, c | 0 <= i < |t.rows| && c !in names
      ensures Cell(DropColumns(t, names).columns, DropColumns(t, names).rows[i], c) == Cell(t.columns, t.rows[i], c)
    {
      KeepCell(t.columns, t.rows[i], names, c);
    }
  }

  // ---------------------------------------------------------------------
  // dropna and the rename loop

  predicate HasNoNull(r: Row) { Null !in r }

  /** `df.dropna()`: the rows that hold no missing value. */
  function DropNa(t: Table): Table
  {
    Table(t.columns, Filter(t.rows, HasNoNull))
  }

  /** After `dropna` no row holds a missing value, and every complete row is kept. */
  lemma DropNaSpec(t: Table)
    ensures forall r :: r in DropNa(t).rows ==> r in t.rows && Null !in r
    ensures forall r :: r in t.rows && Null !in r ==> r in DropNa(t).rows
    ensures IsSubsequence(DropNa(t).rows, t.rows)
  {
    FilterMembers(t.rows, HasNoNull);
    FilterIsSubsequence(t.rows, HasNoNull);
  }

  /** A column name after the first `k` renames. */
  function RenameWith(c: string, reps: seq<(string, string)>): string
  {
    if reps == [] then c
    else Text.Replace(RenameWith(c, reps[..|reps| - 1]), reps[|reps| - 1].0, reps[|reps| - 1].1)
  }

  function Rename(c: string): string
  {
    RenameWith(c, ColumnReplacements)
  }

  /** The rename loop is the three replacements, in order. */
  lemma RenameSteps(c: string)
    ensures Rename(c) == Text.Replace(Text.Replace(Text.Replace(c, "PARTICIPANT", "subj_idx"), "NetRT", "rt"), "HEVC", "response")
  {
    assert ColumnReplacements[..0] == [];
    assert ColumnReplacements[..1] == [("PARTICIPANT", "subj_idx")];
    assert ColumnReplacements[..2] == [("PARTICIPANT", "subj_idx"), ("NetRT", "rt")];
    assert RenameWith(c, ColumnReplacements[..1]) == Text.Replace(c, "PARTICIPANT", "subj_idx");
    assert RenameWith(c, ColumnReplacements[..2]) ==
      Text.Replace(Text.Replace(c, "PARTICIPANT", "subj_idx"), "NetRT", "rt");
  }

  /** The renames hit their own names exactly. */
  lemma RenameParticipant()
    ensures Rename("PARTICIPANT") == "subj_idx"
  {
    RenameSteps("PARTICIPANT");
    Text.ReplaceWhole("PARTICIPANT", "subj_idx");
    NoOccurrence("subj_idx", "NetRT");
    NoOccurrence("subj_idx", "HEVC");
    Text.ReplaceAbsent("subj_idx", "NetRT", "rt");
    Text.ReplaceAbsent("subj_idx", "HEVC", "response");
  }

  lemma RenameNetRT()
    ensures Rename("NetRT") == "rt"
  {
    RenameSteps("NetRT");
    NoOccurrence("NetRT", "PARTICIPANT");
    Text.ReplaceAbsent("NetRT", "PARTICIPANT", "subj_idx");
    Text.ReplaceWhole("NetRT", "rt");
    NoOccurrence("rt", "HEVC");
    Text.ReplaceAbsent("rt", "HEVC", "response");
  }

  lemma RenameHEVC()
    ensures Rename("HEVC") == "response"
  {
    RenameSteps("HEVC");
    NoOccurrence("HEVC", "PARTICIPANT");
    NoOccurrence("HEVC", "NetRT");
    Text.ReplaceAbsent("HEVC", "PARTICIPANT", "subj_idx");
    Text.ReplaceAbsent("HEVC", "NetRT", "rt");
    Text.ReplaceWhole("HEVC", "response");
  }

  lemma NoOccurrence(s: string, pat: string)
    requires |pat| > 0 && forall i :: 0 <= i < |s| ==> s[i] != pat[0]
    ensures !Text.Occurs(s, pat)
  {
    forall i: nat | i <= |s| ensures !Text.OccursAt(s, pat, i) {
      if i + |pat| <= |s| {
        assert s[i..i + |pat|][0] == s[i];
      }
    }
  }

  /** A name that contains none of the three patterns is left unchanged. */
  lemma RenameUntouched(c: string)
    requires !Text.Occurs(c, "PARTICIPANT") && !Text.Occurs(c, "NetRT") && !Text.Occurs(c, "HEVC")
    ensures Rename(c) == c
  {
    RenameSteps(c);
    Text.ReplaceAbsent(c, "PARTICIPANT", "subj_idx");
    Text.ReplaceAbsent(c, "NetRT", "rt");
    Text.ReplaceAbsent(c, "HEVC", "response");
  }

  /** The columns of a table after the rename loop. */
  function RenamedColumns(cols: seq<string>, reps: seq<(string, string)>): (r: seq<string>)
    ensures |r| == |cols| && forall i :: 0 <= i < |cols| ==> r[i] == RenameWith(cols[i], reps)
  {
    seq(|cols|, i requires 0 <= i < |cols| => RenameWith(cols[i], reps))
  }

  /** `[col.replace(pattern, replacement) for col in cols]` */
  function ReplaceInAll(cols: seq<string>, pattern: string, replacement: string): (r: seq<string>)
    ensures |r| == |cols| && forall i :: 0 <= i < |cols| ==> r[i] == Text.Replace(cols[i], pattern, replacement)
  {
    seq(|cols|, i requires 0 <= i < |cols| => Text.Replace(cols[i], pattern, replacement))
  }

  /** What the cleaning loop leaves under one key: complete rows only, and
      every column name renamed. */
  function Tidy(t: Table): (r: Table)
    ensures |r.columns| == |t.columns|
    ensures WellFormed(t) ==> WellFormed(r)
  {
    var d := DropNa(t);
    FilterWellFormed(t, HasNoNull);
    Table(RenamedColumns(t.columns, ColumnReplacements), d.rows)
  }

  // ---------------------------------------------------------------------
  // The dictionary of loaded tables, changed in place

  class Registry {
    /** `datasets`: dataset name to table, in insertion order. */
    var datasets: Dict

    ghost predicate Valid()
      reads this
    {
      DistinctNames(datasets) && forall e :: e in datasets ==> WellFormed(e.table)
    }

    constructor ()
      ensures Valid() && datasets == []
    {
      datasets := [];
    }

    /** The loading loop of the script: one dialog pick per entry of
        `data_files`; `tables[i]` is what the CSV loader returns for the
        i-th picked path. */
    method LoadDatasets(dataFiles: seq<(string, string)>, picks: seq<(string, Table)>)
      requires Valid() && |picks| == |dataFiles|
      requires forall p :: p in picks ==> WellFormed(p.1)
      modifies this
      ensures Valid()
      ensures datasets == Loaded(old(datasets), Reverse(dataFiles), picks)
    {
      var reverse := Reverse(dataFiles);
      for i := 0 to |picks|
        invariant Valid()
        invariant datasets == Loaded(old(datasets), reverse, picks[..i])
      {
        assert picks[i] in picks;
        LoadPick(reverse, picks[i]);
        LoadedStep(old(datasets), reverse, picks, i);
      }
      assert picks[..|picks|] == picks;
    }

    /** The body of the loading loop for one picked path and its table. */
    method LoadPick(reverse: map<string, string>, pick: (string, Table))
      requires Valid() && WellFormed(pick.1)
      modifies this
      ensures Valid()
      ensures datasets == LoadOne(old(datasets), reverse, pick)
      ensures Basename(pick.0) in reverse ==> Entry(reverse[Basename(pick.0)], pick.1) in datasets
    {
      LoadOneKeeps(datasets, reverse, pick);
      var base := Basename(pick.0);
      if base in reverse {
        datasets := Assign(datasets, reverse[base], pick.1);
      }
    }

    /** `filter_data(column, values, datasets)`: every table, in key order,
        loses the rows whose `column` value is in `values`. A table without
        the column raises KeyError; the tables before it stay filtered and
        the rest stay as they were. */
    method FilterData(column: string, values: seq<string>) returns (err: Option<Error>)
      requires Valid()
      modifies this
      ensures Valid()
      ensures err.None? <==> FirstLacking(old(datasets), column) == |old(datasets)|
      ensures err.Some? ==> err.value == MissingColumn(column)
      ensures datasets == FilteredPrefix(old(datasets), column, values, FirstLacking(old(datasets), column))
    {
      var stop := FirstLacking(datasets, column);
      ghost var before := datasets;
      for i := 0 to |datasets|
        invariant |datasets| == |before| && i <= stop
        invariant datasets == FilteredPrefix(before, column, values, i)
      {
        if column !in datasets[i].table.columns {
          return Some(MissingColumn(column));
        }
        FilteredStep(before, column, values, i);
        datasets := datasets[i := Excluding(datasets[i], column, values)];
      }
      return None;
    }

    /** The cleaning part of the script: the two exclusion passes, the
        column removal and the dropna/rename loop. It stops at the first
        KeyError, which happens exactly when some table lacks CONCLUDED or
        PARTICIPANT, and leaves the dictionary as that pass left it: the
        tables before the failing one filtered, the rest as they were. */
    method Clean() returns (err: Option<Error>)
      requires Valid()
      modifies this
      ensures Valid()
      ensures err.None? <==> forall e :: e in old(datasets) ==>
        "CONCLUDED" in e.table.columns && "PARTICIPANT" in e.table.columns
      ensures err.None? ==> |datasets| == |old(datasets)| && forall i :: 0 <= i < |datasets| ==>
        datasets[i].name == old(datasets)[i].name && datasets[i].table == Cleaned(old(datasets)[i].table)
      ensures FirstLacking(old(datasets), "CONCLUDED") < |old(datasets)| ==>
        err == Some(MissingColumn("CONCLUDED")) &&
        datasets == FilteredPrefix(old(datasets), "CONCLUDED", ["DROPOUT"], FirstLacking(old(datasets), "CONCLUDED"))
      ensures FirstLacking(old(datasets), "CONCLUDED") == |old(datasets)| && FirstLacking(old(datasets), "PARTICIPANT") < |old(datasets)| ==>
        var d1 := FilteredPrefix(old(datasets), "CONCLUDED", ["DROPOUT"], |old(datasets)|);
        err == Some(MissingColumn("PARTICIPANT")) &&
        datasets == FilteredPrefix(d1, "PARTICIPANT", ExcludedParticipants, FirstLacking(old(datasets), "PARTICIPANT"))
    {
      ghost var d0 := datasets;
      err := FilterData("CONCLUDED", ["DROPOUT"]);
      if err.Some? {
        var k := FirstLacking(d0, "CONCLUDED");
        assert d0[k] in d0;
        return;
      }
      ghost var d1 := datasets;
      FilteredPrefixSpec(d0, "CONCLUDED", ["DROPOUT"]);
      err := FilterData("PARTICIPANT", ExcludedParticipants);
      FirstLackingSameColumns(d0, d1, "PARTICIPANT");
      if err.Some? {
        var k := FirstLacking(d1, "PARTICIPANT");
        assert d0[k] in d0;
        return;
      }
      ghost var d2 := datasets;
      FilteredPrefixSpec(d1, "PARTICIPANT", ExcludedParticipants);
      forall i | 0 <= i < |d0|
        ensures d2[i].table == Table(d0[i].table.columns, Filter(d0[i].table.rows, CleanMask(d0[i].table.columns)))
      {
        TwoExclusions(d0[i].table);
      }
      RemoveColumns(ColumnsToRemove);
      DropNaAndRename();
    }

    /** `remove_columns(columns_to_remove, datasets)`: each table loses the
        listed columns that it has, one name at a time. */
    method RemoveColumns(names: seq<string>)
      requires Valid()
      modifies this
      ensures Valid()
      ensures |datasets| == |old(datasets)|
      ensures forall i :: 0 <= i < |datasets| ==>
        datasets[i].name == old(datasets)[i].name &&
        datasets[i].table == DropColumns(old(datasets)[i].table, names)
    {
      ghost var before := datasets;
      for i := 0 to |datasets|
        invariant |datasets| == |before|
        invariant forall j :: 0 <= j < |datasets| ==> datasets[j].name == before[j].name
        invariant forall j :: 0 <= j < i ==> datasets[j].table == DropColumns(before[j].table, names)
        invariant forall j :: i <= j < |datasets| ==> datasets[j] == before[j]
        invariant forall e :: e in datasets ==> WellFormed(e.table)
      {
        var t := DropEach(datasets[i].table, names);
        datasets := datasets[i := Entry(datasets[i].name, t)];
      }
    }

    /** The loop over `datasets` that drops incomplete rows and renames the
        columns by the three substring replacements, in order. */
    method DropNaAndRename()
      requires Valid()
      modifies this
      ensures Valid()
      ensures |datasets| == |old(datasets)|
      ensures forall i :: 0 <= i < |datasets| ==>
        datasets[i].name == old(datasets)[i].name && datasets[i].table == Tidy(old(datasets)[i].table)
    {
      ghost var before := datasets;
      for i := 0 to |datasets|
        invariant |datasets| == |before|
        invariant forall j :: 0 <= j < |datasets| ==> datasets[j].name == before[j].name
        invariant forall j :: 0 <= j < i ==> datasets[j].table == Tidy(before[j].table)
        invariant forall j :: i <= j < |datasets| ==> datasets[j] == before[j]
        invariant forall e :: e in datasets ==> WellFormed(e.table)
      {
        var t := DropNa(datasets[i].table);
        var cols := RenameEach(t.columns);
        datasets := datasets[i := Entry(datasets[i].name, Table(cols, t.rows))];
      }
    }
  }

  /** What the whole cleaning script leaves under one key. */
  function Cleaned(t: Table): (r: Table)
    requires WellFormed(t)
    ensures WellFormed(r)
  {
    FilterWellFormed(t, CleanMask(t.columns));
    Tidy(DropColumns(Table(t.columns, Filter(t.rows, CleanMask(t.columns))), ColumnsToRemove))
  }

  /** A cleaned table has no null cell, no more rows than before, and as
      many columns as the original has outside the removal list (the rename
      maps them one to one). */
  lemma CleanedSpec(t: Table)
    requires WellFormed(t)
    ensures forall r :: r in Cleaned(t).rows ==> Null !in r
    ensures |Cleaned(t).rows| <= |t.rows|
    ensures |Cleaned(t).columns| == |Filter(t.columns, c => c !in ColumnsToRemove)|
  {
    var kept := Table(t.columns, Filter(t.rows, CleanMask(t.columns)));
    FilterWellFormed(t, CleanMask(t.columns));
    var dropped := DropColumns(kept, ColumnsToRemove);
    DropColumnsSpec(kept, ColumnsToRemove);
    DropNaSpec(dropped);
  }

  /** The inner rename loop: each replacement in turn, over every column name. */
  method RenameEach(columns: seq<string>) returns (cols: seq<string>)
    ensures cols == RenamedColumns(columns, ColumnReplacements)
    ensures |cols| == |columns| && forall i :: 0 <= i < |columns| ==>
      cols[i] == Text.Replace(Text.Replace(Text.Replace(columns[i], "PARTICIPANT", "subj_idx"), "NetRT", "rt"), "HEVC", "response")
  {
    cols := columns;
    for k := 0 to |ColumnReplacements|
      invariant cols == RenamedColumns(columns, ColumnReplacements[..k])
    {
      var (pattern, replacement) := ColumnReplacements[k];
      assert ColumnReplacements[..k + 1][..k] == ColumnReplacements[..k];
      cols := ReplaceInAll(cols, pattern, replacement);
    }
    assert ColumnReplacements[..|ColumnReplacements|] == ColumnReplacements;
    forall i | 0 <= i < |columns|
      ensures cols[i] == Text.Replace(Text.Replace(Text.Replace(columns[i], "PARTICIPANT", "subj_idx"), "NetRT", "rt"), "HEVC", "response")
    {
      RenameSteps(columns[i]);
    }
  }

  /** The inner loop of `remove_columns` over one table: each listed name
      that is a column is dropped, each other name is skipped. */
  method DropEach(table: Table, names: seq<string>) returns (t: Table)
    requires WellFormed(table)
    ensures WellFormed(t) && t == DropColumns(table, names)
  {
    t := table;
    DropAbsentAll(table);
    for k := 0 to |names|
      invariant WellFormed(t)
      invariant t == DropColumns(table, names[..k])
    {
      DropStep(table, names[..k], names[k]);
      assert names[..k + 1] == names[..k] + [names[k]];
      if names[k] in t.columns {
        t := DropColumns(t, [names[k]]);
      }
    }
    assert names[..|names|] == names;
  }

  lemma DropAbsentAll(t: Table)
    requires WellFormed(t)
    ensures DropColumns(t, []) == t
  {
    KeepNone(t.columns, t.columns, []);
    forall i | 0 <= i < |t.rows| ensures KeepPositions(t.columns, t.rows[i], []) == t.rows[i] {
      KeepNone(t.columns, t.rows[i], []);
    }
  }
}
