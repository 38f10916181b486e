/** datahandler_GSCsplit.py, the stateful half: the file system the script
    writes to, and the `DatasetHandler` object whose `dataset` field its
    methods load, project and rewrite, and which it splits into one text
    file per group, session, condition and subject. */
module Handler {
  import opened Wrappers
  import opened Tables
  import opened Grouping
  import opened Export
  import Text

  /** The directories and files the script sees. */
  class FileSystem {
    var dirs: set<Path>
    var files: map<Path, string>

    function State(): Disk
      reads this
    {
      Disk(dirs, files)
    }

    constructor(d: Disk)
      ensures State() == d
    {
      dirs := d.dirs;
      files := d.files;
    }

    /** `path.mkdir(exist_ok=True)` */
    method MkDir(path: Path)
      modifies this
      ensures dirs == old(dirs) + {path} && files == old(files)
    {
      dirs := dirs + {path};
    }

    /** `open(path, 'w')`: creates the file or empties it. */
    method Open(path: Path)
      modifies this
      ensures dirs == old(dirs) && files == old(files)[path := ""]
    {
      files := files[path := ""];
    }

    /** `f.write(text)` on a file opened for writing. */
    method Append(path: Path, text: string)
      requires path in files
      modifies this
      ensures dirs == old(dirs) && files == old(files)[path := old(files)[path] + text]
    {
      files := files[path := files[path] + text];
    }
  }

  /** What `pd.read_csv` can fail with; the script prints a message for each. */
  datatype LoadFailure = FileNotFound | EmptyData | ParserError | Unexpected

  class DatasetHandler {
    const filePath: string
    const columnsToKeep: seq<string>
    /** `None` until a file has been loaded. */
    var dataset: Option<Table>

    predicate Valid()
      reads this
    {
      dataset.Some? ==> WellFormed(dataset.value)
    }

    constructor(filePath: string, columnsToKeep: seq<string>)
      ensures this.filePath == filePath && this.columnsToKeep == columnsToKeep
      ensures dataset == None && Valid()
    {
      this.filePath := filePath;
      this.columnsToKeep := columnsToKeep;
      dataset := None;
    }

    /** `load_csv_dataset`, given what reading `filePath` produced: the
        parsed table replaces the dataset; on any failure the dataset is
        kept as it was. */
    method LoadCsvDataset(parsed: Result<Table, LoadFailure>)
      requires Valid() && (parsed.Ok? ==> WellFormed(parsed.value))
      modifies this
      ensures Valid()
      ensures dataset == if parsed.Ok? then Some(parsed.value) else old(dataset)
    {
      if parsed.Ok? {
        dataset := Some(parsed.value);
      }
    }

    /** `filter_columns`: `dataset[columns_to_keep]`; a missing column is a
        KeyError, caught, and the dataset kept; nothing without a dataset. */
    method FilterColumns()
      requires Valid()
      modifies this
      ensures Valid()
      ensures old(dataset).None? ==> dataset == old(dataset)
      ensures old(dataset).Some? ==>
        dataset == match Select(old(dataset).value, columnsToKeep)
                   case Ok(t) => Some(t)
                   case Err(_) => old(dataset)
    {
      if dataset.Some? {
        var r := Select(dataset.value, columnsToKeep);
        if r.Ok? {
          dataset := Some(r.value);
        }
      }
    }

    /** `replace_spaces_in_clusters`: `dataset['CLUSTERS'].str.replace(' ',
        '_')`. A missing column (KeyError) or one without text
        (AttributeError) is not caught: the error is returned and the
        dataset kept. */
    method ReplaceSpacesInClusters() returns (err: Option<Error>)
      requires Valid()
      modifies this
      ensures Valid()
      ensures old(dataset).None? ==> dataset == old(dataset) && err.None?
      ensures old(dataset).Some? ==>
        match Underscored(old(dataset).value)
        case Ok(t) => dataset == Some(t) && err.None?
        case Err(e) => dataset == old(dataset) && err == Some(e)
    {
      err := None;
      if dataset.Some? {
        var r := Underscored(dataset.value);
        if r.Err? {
          return Some(r.error);
        }
        dataset := Some(r.value);
      }
    }

    /** `save_as_txt(frame, path)`: the header line, then the rows. */
    method SaveAsTxt(fs: FileSystem, frame: Table, path: Path, ft: FloatText)
      modifies fs
      ensures fs.dirs == old(fs.dirs) && fs.files == old(fs.files)[path := FileText(frame, ft)]
    {
      fs.Open(path);
      fs.Append(path, Header(frame.columns));
      fs.Append(path, Body(frame.rows, ft));
      assert "" + Header(frame.columns) + Body(frame.rows, ft) == FileText(frame, ft);
    }

    /** `split_by_group_session_condition_and_save`: without a dataset
        nothing happens; otherwise `base` is created and the four nested
        loops run, ending at the first exception. */
    method SplitByGroupSessionConditionAndSave(fs: FileSystem, subjColumn: string, groupColumn: string,
                                               sessionColumn: string, conditionColumn: string, base: Path, ft: FloatText)
      returns (err: Option<Error>)
      modifies fs
      ensures dataset.None? ==> fs.State() == old(fs.State()) && err.None?
      ensures dataset.Some? ==>
        var plan := SplitPlan(dataset.value, subjColumn, groupColumn, sessionColumn, conditionColumn, base, ft);
        fs.State() == Apply(old(fs.State()), plan.actions, ft) && err == plan.error
    {
      if dataset.None? {
        return None;
      }
      var t := dataset.value;
      ghost var d0 := fs.State();
      fs.MkDir(base);
      assert fs.State() == Apply(d0, [MkDir(base)], ft) by {
        assert [MkDir(base)][..0] == [];
      }
      var levels := Levels(subjColumn, groupColumn, sessionColumn, conditionColumn);
      err := SplitLevel(fs, t.rows, t.columns, base, levels, ft);
      ApplyAppend(d0, [MkDir(base)], Plan(t.rows, t.columns, base, levels, ft).actions, ft);
    }

    /** One of the nested loops: for each key of `levels[0]` over the rows
        `xs`, in `groupby` order, the body `SplitKey` inside `dir`. */
    method SplitLevel(fs: FileSystem, xs: seq<Row>, cols: seq<string>, dir: Path, levels: seq<Level>, ft: FloatText)
      returns (err: Option<Error>)
      requires levels != []
      modifies fs
      ensures fs.State() == Apply(old(fs.State()), Plan(xs, cols, dir, levels, ft).actions, ft)
      ensures err == Plan(xs, cols, dir, levels, ft).error
      decreases |levels|, 1
    {
      var col := levels[0].column;
      if col !in cols {
        assert Plan(xs, cols, dir, levels, ft).actions == [];
        return Some(MissingColumn(col));
      }
      var ks := Keys(xs, cols, col);
      ghost var d0 := fs.State();
      for j := 0 to |ks|
        invariant KeysPlan(xs, cols, dir, levels, ks[..j], ft).error.None?
        invariant fs.State() == Apply(d0, KeysPlan(xs, cols, dir, levels, ks[..j], ft).actions, ft)
      {
        ghost var done := KeysPlan(xs, cols, dir, levels, ks[..j], ft);
        ghost var step := KeyPlan(xs, cols, dir, levels, ks[j], ft);
        assert ks[..j + 1][..j] == ks[..j];
        assert KeysPlan(xs, cols, dir, levels, ks[..j + 1], ft) == Outcome(done.actions + step.actions, step.error);
        var e := SplitKey(fs, xs, cols, dir, levels, ks[j], ft);
        ApplyAppend(d0, done.actions, step.actions, ft);
        if e.Some? {
          KeysPlanStops(xs, cols, dir, levels, ks, j + 1, ft);
          return e;
        }
      }
      assert ks[..|ks|] == ks;
      err := None;
    }

    /** The body of a loop for the key `k`: name its directory (or file)
        inside `dir`, then create the directory and run the next loop on
        the key's rows, or, at the last level, save the rows. */
    method SplitKey(fs: FileSystem, xs: seq<Row>, cols: seq<string>, dir: Path, levels: seq<Level>, k: Value, ft: FloatText)
      returns (err: Option<Error>)
      requires levels != []
      modifies fs
      ensures fs.State() == Apply(old(fs.State()), KeyPlan(xs, cols, dir, levels, k, ft).actions, ft)
      ensures err == KeyPlan(xs, cols, dir, levels, k, ft).error
      decreases |levels|, 0
    {
      ghost var d0 := fs.State();
      var name := Component(levels[0], k, ft);
      if name.Err? {
        return Some(name.error);
      }
      var path := dir + [name.value];
      var rows := Group(xs, cols, levels[0].column, k);
      ghost var inner := Plan(rows, cols, path, levels[1..], ft);
      if |levels| > 1 {
        fs.MkDir(path);
        assert fs.State() == Apply(d0, [MkDir(path)], ft) by {
          assert [MkDir(path)][..0] == [];
        }
        err := SplitLevel(fs, rows, cols, path, levels[1..], ft);
        ApplyAppend(d0, [MkDir(path)], inner.actions, ft);
      } else {
        SaveAsTxt(fs, Table(cols, rows), path, ft);
        assert inner.actions == [Write(path, Table(cols, rows))];
        assert inner.actions[..0] == [];
        err := None;
      }
    }
  }

  /** The CLUSTERS rewrite: every space in the text becomes an underscore. */
  function Underscored(t: Table): Result<Table, Error>
    requires WellFormed(t)
  {
    StrMap(t, "CLUSTERS", s => Text.Replace(s, " ", "_"))
  }

  /** After the rewrite, a CLUSTERS value is the old text with each space
      replaced by '_' (same length, no space left), or missing where the old
      value was not text; every other column is unchanged. */
  lemma UnderscoredCells(t: Table, i: nat, c: string)
    requires WellFormed(t) && Underscored(t).Ok? && i < |t.rows|
    ensures var old_ := Cell(t.columns, t.rows[i], "CLUSTERS");
      var new_ := Cell(t.columns, Underscored(t).value.rows[i], "CLUSTERS");
      if old_.Str? then
        new_.Str? && |new_.s| == |old_.s| && ' ' !in new_.s &&
        forall k :: 0 <= k < |old_.s| ==> new_.s[k] == if old_.s[k] == ' ' then '_' else old_.s[k]
      else new_ == Null
    ensures c != "CLUSTERS" ==>
      Cell(t.columns, Underscored(t).value.rows[i], c) == Cell(t.columns, t.rows[i], c)
  {
    var f := s => Text.Replace(s, " ", "_");
    StrMapCells(t, "CLUSTERS", f, i, "CLUSTERS");
    StrMapCells(t, "CLUSTERS", f, i, c);
    var v := Cell(t.columns, t.rows[i], "CLUSTERS");
    if v.Str? {
      Text.ReplaceChar(v.s, ' ', '_');
      Text.ReplaceCharRemoves(v.s, ' ', '_');
    }
  }

  /** The rewrite fails exactly as `.str` does: KeyError without the
      column, AttributeError when no value of a non-empty column is text. */
  lemma UnderscoredFails(t: Table)
    requires WellFormed(t)
    ensures "CLUSTERS" !in t.columns ==> Underscored(t) == Err(MissingColumn("CLUSTERS"))
    ensures "CLUSTERS" in t.columns ==> (Underscored(t).Ok? <==> t.rows == [] || HasText(t, "CLUSTERS"))
    ensures Underscored(t).Ok? ==> Underscored(t).value.columns == t.columns && |Underscored(t).value.rows| == |t.rows|
  {
  }
}
