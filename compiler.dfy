/** empsim_compiler.py, the driver half: the folder loops that select files
    by suffix, process them and concatenate the results, the stride
    downsampling of the simulated rows, and the final column reordering. */
module Compiler {
  import opened Wrappers
  import opened Seqs
  import opened Tables
  import Text
  import opened EmpSim

  /** The files of several folders, folder after folder. */
  function Flatten<F(!new)>(folders: seq<seq<(string, F)>>): seq<(string, F)>
  {
    if folders == [] then [] else Flatten(folders[..|folders| - 1]) + folders[|folders| - 1]
  }

  /** The selection-and-append loop: every listed file whose name ends with
      `suffix` is processed in order and its table appended; the first
      failure ends the loop. */
  function Collect<F(!new)>(files: seq<(string, F)>, suffix: string, process: (string, F) -> Result<Table, Error>): Result<seq<Table>, Error>
  {
    if files == [] then Ok([])
    else
      match Collect(files[..|files| - 1], suffix, process)
      case Err(e) => Err(e)
      case Ok(ts) =>
        var file := files[|files| - 1];
        if !Text.EndsWith(file.0, suffix) then Ok(ts)
        else
          match process(file.0, file.1)
          case Err(e) => Err(e)
          case Ok(t) => Ok(ts + [t])
  }

  function HasSuffix<F(!new)>(suffix: string): ((string, F)) -> bool
  {
    (file: (string, F)) => Text.EndsWith(file.0, suffix)
  }

  /** Only files with the suffix matter: the loop succeeds exactly when
      every selected file is processed without error, and it then returns
      one table per selected file, in listing order. */
  lemma {:induction false} CollectSpec<F(!new)>(files: seq<(string, F)>, suffix: string, process: (string, F) -> Result<Table, Error>)
    ensures var selected := Filter(files, HasSuffix(suffix));
      Collect(files, suffix, process).Ok? <==> forall k :: 0 <= k < |selected| ==> process(selected[k].0, selected[k].1).Ok?
    ensures var selected := Filter(files, HasSuffix(suffix));
      Collect(files, suffix, process).Ok? ==>
        |Collect(files, suffix, process).value| == |selected| &&
        forall k :: 0 <= k < |selected| ==> process(selected[k].0, selected[k].1) == Ok(Collect(files, suffix, process).value[k])
  {
    if files != [] {
      var n := |files| - 1;
      var prefix := files[..n];
      CollectSpec(prefix, suffix, process);
      assert files == prefix + [files[n]];
      FilterAppend(prefix, [files[n]], HasSuffix(suffix));
      var sel := Filter(prefix, HasSuffix(suffix));
      assert Filter([files[n]], HasSuffix(suffix)) == if HasSuffix(suffix)(files[n]) then [files[n]] else [];
      if HasSuffix(suffix)(files[n]) {
        assert Filter(files, HasSuffix(suffix)) == sel + [files[n]];
        assert (sel + [files[n]])[|sel|] == files[n];
        if Collect(prefix, suffix, process).Err? {
          var k :| 0 <= k < |sel| && process(sel[k].0, sel[k].1).Err?;
          assert (sel + [files[n]])[k] == sel[k];
        }
      } else {
        assert Filter(files, HasSuffix(suffix)) == sel;
      }
    }
  }

  /** One more file: skipped without the suffix, otherwise processed and
      appended unless something failed. */
  lemma CollectStep<F(!new)>(files: seq<(string, F)>, file: (string, F), suffix: string, process: (string, F) -> Result<Table, Error>)
    ensures Collect(files + [file], suffix, process) ==
      if Collect(files, suffix, process).Err? || !Text.EndsWith(file.0, suffix) then Collect(files, suffix, process)
      else if process(file.0, file.1).Err? then Err(process(file.0, file.1).error)
      else Ok(Collect(files, suffix, process).value + [process(file.0, file.1).value])
  {
    assert (files + [file])[..|files|] == files;
  }

  /** A failure is final: later files do not change the outcome. */
  lemma {:induction false} CollectErr<F(!new)>(files: seq<(string, F)>, more: seq<(string, F)>, suffix: string, process: (string, F) -> Result<Table, Error>)
    requires Collect(files, suffix, process).Err?
    ensures Collect(files + more, suffix, process) == Collect(files, suffix, process)
  {
    if more != [] {
      var n := |more| - 1;
      CollectErr(files, more[..n], suffix, process);
      assert (files + more)[..|files + more| - 1] == files + more[..n];
    } else {
      assert files + more == files;
    }
  }

  /** `pd.concat(data, ignore_index=True)` after the loop. */
  function Compiled(collected: Result<seq<Table>, Error>): Result<Table, Error>
  {
    match collected
    case Err(e) => Err(e)
    case Ok(ts) => Concat(ts)
  }

  function EmpiricalFile(name: string, parsed: Frame): Result<Table, Error>
  {
    Empirical(parsed)
  }

  /** `process_empirical_data`: the ".txt" files of every folder, in
      listing order, processed and concatenated. */
  method ProcessEmpiricalData(folders: seq<seq<(string, Frame)>>) returns (r: Result<Table, Error>)
    ensures r == Compiled(Collect(Flatten(folders), ".txt", EmpiricalFile))
  {
    var data: seq<Table> := [];
    for f := 0 to |folders|
      invariant Collect(Flatten(folders[..f]), ".txt", EmpiricalFile) == Ok(data)
    {
      assert folders[..f + 1][..f] == folders[..f];
      var step := EmpiricalFolder(Flatten(folders[..f]), folders[f], data);
      if step.Err? {
        FlattenMonotone(folders, f + 1);
        var all := Flatten(folders);
        var done := Flatten(folders[..f + 1]);
        assert all == done + all[|done|..];
        CollectErr(done, all[|done|..], ".txt", EmpiricalFile);
        return Err(step.error);
      }
      data := step.value;
    }
    assert folders[..|folders|] == folders;
    r := Concat(data);
  }

  /** The inner loop of `process_empirical_data` over one folder's listing,
      after the files `done` have given `data`. */
  method EmpiricalFolder(ghost done: seq<(string, Frame)>, listing: seq<(string, Frame)>, data: seq<Table>)
    returns (r: Result<seq<Table>, Error>)
    requires Collect(done, ".txt", EmpiricalFile) == Ok(data)
    ensures r == Collect(done + listing, ".txt", EmpiricalFile)
  {
    var acc := data;
    assert done + listing[..0] == done;
    for j := 0 to |listing|
      invariant Collect(done + listing[..j], ".txt", EmpiricalFile) == Ok(acc)
    {
      ghost var files := done + listing[..j + 1];
      ListingStep(done, listing, j);
      CollectStep(done + listing[..j], listing[j], ".txt", EmpiricalFile);
      var (file, parsed) := listing[j];
      if Text.EndsWith(file, ".txt") {
        var df := ProcessEmpiricalFile(parsed);
        if df.Err? {
          CollectErr(files, listing[j + 1..], ".txt", EmpiricalFile);
          return Err(df.error);
        }
        acc := acc + [df.value];
      }
    }
    assert listing[..|listing|] == listing;
    return Ok(acc);
  }

  /** One more file of the listing, and the files still to come. */
  lemma ListingStep<F>(done: seq<(string, F)>, listing: seq<(string, F)>, j: nat)
    requires j < |listing|
    ensures done + listing[..j + 1] == (done + listing[..j]) + [listing[j]]
    ensures done + listing == (done + listing[..j + 1]) + listing[j + 1..]
  {
    assert listing == listing[..j + 1] + listing[j + 1..];
  }

  /** The files of the first `f` folders and the first `j` files of folder
      `f` come first in the flattened listing. */
  lemma FlattenPrefix<F(!new)>(folders: seq<seq<(string, F)>>, f: nat, j: nat)
    requires f < |folders| && j <= |folders[f]|
    ensures Flatten(folders[..f]) + folders[f][..j] <= Flatten(folders)
  {
    assert folders[..f + 1][..f] == folders[..f];
    FlattenMonotone(folders, f + 1);
  }

  lemma {:induction false} FlattenMonotone<F(!new)>(folders: seq<seq<(string, F)>>, k: nat)
    requires k <= |folders|
    ensures Flatten(folders[..k]) <= Flatten(folders)
  {
    if k < |folders| {
      var n := |folders| - 1;
      assert folders[..n][..k] == folders[..k];
      FlattenMonotone(folders[..n], k);
    } else {
      assert folders[..k] == folders;
    }
  }
  // ---------------------------------------------------------------------
  // Downsampling

  /** `xs[::step]`: the elements at positions 0, step, 2*step, ... */
  function Stride<T>(xs: seq<T>, step: nat): seq<T>
    requires step >= 1
    decreases |xs|
  {
    if xs == [] then [] else [xs[0]] + Stride(if step <= |xs| then xs[step..] else [], step)
  }

  /** Position `j` of the strided sequence exists exactly when `j * step`
      is a position of `xs`, and holds that element. */
  lemma {:induction false} StrideIndex<T>(xs: seq<T>, step: nat, j: nat)
    requires step >= 1
    ensures j < |Stride(xs, step)| <==> j * step < |xs|
    ensures j < |Stride(xs, step)| ==> Stride(xs, step)[j] == xs[j * step]
    decreases |xs|
  {
    if xs != [] && j > 0 {
      var rest := if step <= |xs| then xs[step..] else [];
      StrideIndex(rest, step, j - 1);
      var k := (j - 1) * step;
      NextMultiple(j, step);
      if step <= |xs| && k < |rest| {
        assert rest[k] == xs[k + step];
      }
    }
  }

  lemma NextMultiple(j: nat, step: nat)
    requires j >= 1
    ensures j * step == (j - 1) * step + step && (j - 1) * step >= 0
  {
  }

  /** `xs[:m]` */
  function Head<T>(xs: seq<T>, m: nat): (r: seq<T>)
    ensures |r| == if |xs| <= m then |xs| else m
    ensures r <= xs
  {
    if |xs| <= m then xs else xs[..m]
  }

  /** The downsampling of `process_simulated_data`: every `n // m`-th row,
      then the first `m` rows, where `n` is the simulated and `m` the
      empirical row count. `//` by zero raises ZeroDivisionError and a zero
      step ValueError. */
  function Downsample(t: Table, m: nat): Result<Table, Error>
  {
    if m == 0 then Err(ZeroDivision)
    else
      var step := |t.rows| / m;
      if step == 0 then Err(ZeroStep)
      else Ok(Table(t.columns, Head(Stride(t.rows, step), m)))
  }

  /** With `n >= m >= 1` the step is at least 1 and the last wanted row,
      `(m - 1) * step`, is still inside the table. */
  lemma StepBound(n: nat, m: nat)
    requires 1 <= m <= n
    ensures n / m >= 1 && (m - 1) * (n / m) < n
  {
    var q := n / m;
    assert q * m + n % m == n;
    assert q * m <= n;
    assert (m - 1) * q == q * m - q;
  }

  lemma MulMonotone(a: nat, b: nat, c: nat)
    requires a <= b
    ensures a * c <= b * c
  {
  }

  /** The `j`-th strided element exists when a later `m - 1`-th one does. */
  lemma StrideBelow<T>(xs: seq<T>, step: nat, m: nat, j: nat)
    requires step >= 1 && j < m && (m - 1) * step < |xs|
    ensures j * step < |xs| && j < |Stride(xs, step)| && Stride(xs, step)[j] == xs[j * step]
  {
    MulMonotone(j, m - 1, step);
    StrideIndex(xs, step, j);
  }

  /** Downsampling succeeds exactly when there is at least one empirical
      row and no more empirical than simulated rows. */
  lemma DownsampleFails(t: Table, m: nat)
    ensures m == 0 ==> Downsample(t, m) == Err(ZeroDivision)
    ensures 1 <= m && |t.rows| < m ==> Downsample(t, m) == Err(ZeroStep)
    ensures Downsample(t, m).Ok? <==> 1 <= m <= |t.rows|
  {
    if 1 <= m <= |t.rows| {
      StepBound(|t.rows|, m);
    } else if 1 <= m {
      assert |t.rows| / m == 0;
    }
  }

  /** A successful downsampling keeps the columns and exactly `m` rows, row
      `j` being simulated row `j * (n // m)`. */
  lemma DownsampleSpec(t: Table, m: nat)
    requires Downsample(t, m).Ok?
    ensures var r := Downsample(t, m).value;
      r.columns == t.columns && |r.rows| == m &&
      forall j :: 0 <= j < m ==> j * (|t.rows| / m) < |t.rows| && r.rows[j] == t.rows[j * (|t.rows| / m)]
  {
    DownsampleShape(t, m);
    forall j | 0 <= j < m
      ensures j * (|t.rows| / m) < |t.rows| && Downsample(t, m).value.rows[j] == t.rows[j * (|t.rows| / m)]
    {
      DownsampleRow(t, m, j);
    }
  }

  lemma DownsampleShape(t: Table, m: nat)
    requires Downsample(t, m).Ok?
    ensures Downsample(t, m).value.columns == t.columns && |Downsample(t, m).value.rows| == m
  {
    DownsampleFails(t, m);
    var step := |t.rows| / m;
    StepBound(|t.rows|, m);
    StrideIndex(t.rows, step, m - 1);
  }

  /** Row `j` of a successful downsampling is row `j * (n // m)` of the input. */
  lemma DownsampleRow(t: Table, m: nat, j: nat)
    requires Downsample(t, m).Ok? && j < m
    ensures j < |Downsample(t, m).value.rows| && j * (|t.rows| / m) < |t.rows|
    ensures Downsample(t, m).value.rows[j] == t.rows[j * (|t.rows| / m)]
  {
    DownsampleShape(t, m);
    var step := |t.rows| / m;
    StepBound(|t.rows|, m);
    StrideBelow(t.rows, step, m, j);
  }

  /** Downsampling keeps a well-formed table well-formed. */
  lemma DownsampleWellFormed(t: Table, m: nat)
    requires WellFormed(t) && Downsample(t, m).Ok?
    ensures WellFormed(Downsample(t, m).value)
  {
    DownsampleSpec(t, m);
    var r := Downsample(t, m).value;
    forall j | 0 <= j < |r.rows|
      ensures |r.rows[j]| == |r.columns|
    {
      var k := j * (|t.rows| / m);
      assert r.rows[j] == t.rows[k];
    }
  }

  // ---------------------------------------------------------------------
  // The simulated folder

  /** `process_simulated_data`: the "_sim.dat" files of the folder, in
      listing order, processed, concatenated and downsampled to
      `empiricalCount` rows (the row count of the compiled empirical data). */
  function SimulatedData(listing: seq<(string, seq<(Value, Value)>)>, empiricalCount: nat): Result<Table, Error>
  {
    match Compiled(Collect(listing, "_sim.dat", Simulated))
    case Err(e) => Err(e)
    case Ok(t) => Downsample(t, empiricalCount)
  }

  method ProcessSimulatedData(listing: seq<(string, seq<(Value, Value)>)>, empiricalCount: nat) returns (r: Result<Table, Error>)
    ensures r == SimulatedData(listing, empiricalCount)
  {
    var data: seq<Table> := [];
    for j := 0 to |listing|
      invariant Collect(listing[..j], "_sim.dat", Simulated) == Ok(data)
    {
      assert listing[..j + 1] == listing[..j] + [listing[j]];
      CollectStep(listing[..j], listing[j], "_sim.dat", Simulated);
      var (file, pairs) := listing[j];
      if Text.EndsWith(file, "_sim.dat") {
        var df := ProcessSimulatedFile(file, pairs);
        if df.Err? {
          assert listing == listing[..j + 1] + listing[j + 1..];
          CollectErr(listing[..j + 1], listing[j + 1..], "_sim.dat", Simulated);
          return Err(df.error);
        }
        data := data + [df.value];
      }
    }
    assert listing[..|listing|] == listing;
    var simulated := Concat(data);
    if simulated.Err? {
      return Err(simulated.error);
    }
    r := Downsample(simulated.value, empiricalCount);
  }

  // ---------------------------------------------------------------------
  // Column order

  /** `reorder_columns`: `df[desired_order]`. */
  function ReorderColumns(t: Table): Result<Table, Error>
  {
    Select(t, DesiredOrder)
  }

  /** The reordered table has exactly the six wanted columns, in order, and
      the same rows; a table lacking one of them is a KeyError. */
  lemma ReorderSpec(t: Table)
    ensures ReorderColumns(t).Ok? <==> forall c :: c in DesiredOrder ==> c in t.columns
    ensures ReorderColumns(t).Ok? ==>
      ReorderColumns(t).value.columns == DesiredOrder && |ReorderColumns(t).value.rows| == |t.rows|
    ensures ReorderColumns(t).Err? ==> exists c :: c in DesiredOrder && ReorderColumns(t).error == MissingColumn(c)
  {
  }

  /** Whenever the empirical files compile, the reordering cannot fail:
      every processed file carries the six wanted columns, and the
      concatenation keeps every column of every table. */
  lemma EmpiricalOutput(folders: seq<seq<(string, Frame)>>)
    requires Compiled(Collect(Flatten(folders), ".txt", EmpiricalFile)).Ok?
    ensures var out := ReorderColumns(Compiled(Collect(Flatten(folders), ".txt", EmpiricalFile)).value);
      out.Ok? && out.value.columns == DesiredOrder
  {
    var files := Flatten(folders);
    CollectSpec(files, ".txt", EmpiricalFile);
    var ts := Collect(files, ".txt", EmpiricalFile).value;
    var selected := Filter(files, HasSuffix(".txt"));
    var all := Concat(ts).value;
    assert |selected| > 0;
    assert EmpiricalFile(selected[0].0, selected[0].1) == Ok(ts[0]);
    EmpiricalColumns(selected[0].1);
    assert ts[0] in ts;
    forall c | c in DesiredOrder
      ensures c in all.columns
    {
      assert c in ts[0].columns;
    }
    ReorderSpec(all);
  }

  /** The parsed lines of several files together. */
  function FrameRows(files: seq<(string, Frame)>): nat
  {
    if files == [] then 0 else |files[0].1.rows| + FrameRows(files[1..])
  }

  /** `row` is the output line made of `line`, a line of the empirical
      file `parsed`: the normalised subject, the session, the group, the tag
      'E', the response and the reaction time, in the output column order. */
  predicate EmpiricalLine(parsed: Frame, line: Row, row: Row)
  {
    var subject := Cell(parsed.columns, line, "#subj_idx");
    subject.Str? &&
    row == [Str(NormalizeSubject(subject.s)), Cell(parsed.columns, line, "SESSION"),
      GroupOf(Cell(parsed.columns, line, "GROUP")), Str("E"),
      Cell(parsed.columns, line, "RESPONSE"), Cell(parsed.columns, line, "TIME")]
  }

  /** The compiled empirical output, reordered, has one line per line of
      the selected ".txt" files. */
  lemma EmpiricalOutputRows(folders: seq<seq<(string, Frame)>>)
    requires Compiled(Collect(Flatten(folders), ".txt", EmpiricalFile)).Ok?
    ensures var out := ReorderColumns(Compiled(Collect(Flatten(folders), ".txt", EmpiricalFile)).value);
      out.Ok? && |out.value.rows| == FrameRows(Filter(Flatten(folders), HasSuffix(".txt")))
  {
    var files := Flatten(folders);
    var ts := EmpiricalTables(files);
    assert Compiled(Collect(files, ".txt", EmpiricalFile)) == Concat(ts);
    OutputCount(ts, Filter(files, HasSuffix(".txt")));
  }

  /** The files' lines appear in the output file after file, in listing
      order: the output line after those of the first `k` selected files,
      plus `i`, is made of line `i` of the `k`th selected file. */
  lemma EmpiricalOutputLine(folders: seq<seq<(string, Frame)>>, k: nat, i: nat)
    requires Compiled(Collect(Flatten(folders), ".txt", EmpiricalFile)).Ok?
    requires k < |Filter(Flatten(folders), HasSuffix(".txt"))|
    requires i < |Filter(Flatten(folders), HasSuffix(".txt"))[k].1.rows|
    ensures var selected := Filter(Flatten(folders), HasSuffix(".txt"));
      var out := ReorderColumns(Compiled(Collect(Flatten(folders), ".txt", EmpiricalFile)).value);
      out.Ok? && FrameRows(selected[..k]) + i < |out.value.rows| &&
      EmpiricalLine(selected[k].1, selected[k].1.rows[i], out.value.rows[FrameRows(selected[..k]) + i])
  {
    var files := Flatten(folders);
    var selected := Filter(files, HasSuffix(".txt"));
    var ts := Collect(files, ".txt", EmpiricalFile).value;
    assert |ts| == |selected| && Empirical(selected[k].1) == Ok(ts[k]) &&
      forall j :: 0 <= j < |ts| ==> |ts[j].rows| == |selected[j].1.rows|
    by {
      var ts' := EmpiricalTables(files);
    }
    OutputLine(ts, selected, k, i);
  }

  /** The reordered concatenation has as many rows as the files have lines. */
  lemma OutputCount(ts: seq<Table>, selected: seq<(string, Frame)>)
    requires ts != [] && |ts| == |selected|
    requires forall k :: 0 <= k < |ts| ==> Empirical(selected[k].1) == Ok(ts[k]) && |ts[k].rows| == |selected[k].1.rows|
    ensures ReorderColumns(Concat(ts).value).Ok?
    ensures |ReorderColumns(Concat(ts).value).value.rows| == FrameRows(selected)
  {
    FrameRowsAgree(ts, selected);
    ReorderedCount(ts, selected[0].1);
  }

  /** Line `i` of the `k`th selected file, in the reordered output. */
  lemma OutputLine(ts: seq<Table>, selected: seq<(string, Frame)>, k: nat, i: nat)
    requires |ts| == |selected| && k < |selected| && i < |selected[k].1.rows|
    requires forall j :: 0 <= j < |ts| ==> |ts[j].rows| == |selected[j].1.rows|
    requires Empirical(selected[k].1) == Ok(ts[k])
    ensures ReorderColumns(Concat(ts).value).Ok?
    ensures FrameRows(selected[..k]) + i < |ReorderColumns(Concat(ts).value).value.rows|
    ensures EmpiricalLine(selected[k].1, selected[k].1.rows[i], ReorderColumns(Concat(ts).value).value.rows[FrameRows(selected[..k]) + i])
  {
    FrameRowsPrefix(ts, selected, k);
    ReorderedLine(ts, selected[k].1, k, i);
  }

  /** The tables the empirical loop collects: one per selected file, each
      that file processed, with as many rows as it has lines. */
  lemma EmpiricalTables(files: seq<(string, Frame)>) returns (ts: seq<Table>)
    requires Collect(files, ".txt", EmpiricalFile).Ok?
    ensures Collect(files, ".txt", EmpiricalFile) == Ok(ts)
    ensures |ts| == |Filter(files, HasSuffix(".txt"))|
    ensures forall k :: 0 <= k < |ts| ==>
      Empirical(Filter(files, HasSuffix(".txt"))[k].1) == Ok(ts[k]) && |ts[k].rows| == |Filter(files, HasSuffix(".txt"))[k].1.rows|
  {
    CollectSpec(files, ".txt", EmpiricalFile);
    ts := Collect(files, ".txt", EmpiricalFile).value;
    var selected := Filter(files, HasSuffix(".txt"));
    forall k | 0 <= k < |ts|
      ensures |ts[k].rows| == |selected[k].1.rows|
    {
      EmpiricalColumns(selected[k].1);
    }
  }

  /** The first `k` tables hold as many rows as the first `k` files. */
  lemma FrameRowsPrefix(ts: seq<Table>, files: seq<(string, Frame)>, k: nat)
    requires |ts| == |files| && k <= |ts|
    requires forall j :: 0 <= j < |ts| ==> |ts[j].rows| == |files[j].1.rows|
    ensures RowCount(ts[..k]) == FrameRows(files[..k])
  {
    FrameRowsAgree(ts[..k], files[..k]);
  }

  /** Tables with as many rows as the files they came from hold as many
      rows together. */
  lemma {:induction false} FrameRowsAgree(ts: seq<Table>, files: seq<(string, Frame)>)
    requires |ts| == |files| && forall k :: 0 <= k < |ts| ==> |ts[k].rows| == |files[k].1.rows|
    ensures RowCount(ts) == FrameRows(files)
  {
    if ts != [] {
      FrameRowsAgree(ts[1..], files[1..]);
    }
  }

  /** Reordering the concatenation of empirical tables keeps every row. */
  lemma ReorderedCount(ts: seq<Table>, parsed: Frame)
    requires ts != [] && Empirical(parsed) == Ok(ts[0])
    ensures ReorderColumns(Concat(ts).value).Ok?
    ensures |ReorderColumns(Concat(ts).value).value.rows| == RowCount(ts)
  {
    var all := Concat(ts).value;
    EmpiricalColumns(parsed);
    assert ts[0] in ts;
    AllRowsCount(ts, UnionColumns([], ts));
    ReorderSpec(all);
  }

  /** Line `i` of the `k`th collected empirical table, once concatenated
      and reordered, is the output line made of line `i` of its file. */
  lemma ReorderedLine(ts: seq<Table>, parsed: Frame, k: nat, i: nat)
    requires k < |ts| && Empirical(parsed) == Ok(ts[k]) && i < |parsed.rows|
    ensures ReorderColumns(Concat(ts).value).Ok?
    ensures RowCount(ts[..k]) + i < |ReorderColumns(Concat(ts).value).value.rows|
    ensures EmpiricalLine(parsed, parsed.rows[i], ReorderColumns(Concat(ts).value).value.rows[RowCount(ts[..k]) + i])
  {
    EmpiricalProject(parsed, ts[k], i);
    assert forall c :: c in DesiredOrder ==> c in ts[k].columns by {
      EmpiricalColumns(parsed);
    }
    ReorderedAt(ts, k, i);
  }

  /** Row `i` of table `k`, after concatenation and reordering, holds that
      row's six wanted cells. */
  lemma ReorderedAt(ts: seq<Table>, k: nat, i: nat)
    requires k < |ts| && i < |ts[k].rows|
    requires forall c :: c in DesiredOrder ==> c in ts[k].columns
    ensures ReorderColumns(Concat(ts).value).Ok?
    ensures RowCount(ts[..k]) + i < |ReorderColumns(Concat(ts).value).value.rows|
    ensures ReorderColumns(Concat(ts).value).value.rows[RowCount(ts[..k]) + i] == Project(ts[k].columns, ts[k].rows[i], DesiredOrder)
  {
    ConcatAt(ts, k, i);
    ConcatKeeps(ts, k, DesiredOrder);
    ReorderRow(Concat(ts).value, RowCount(ts[..k]) + i, ts[k].columns, ts[k].rows[i]);
  }

  /** Reordering a concatenation picks the six wanted cells out of each
      realigned row. */
  lemma ReorderRow(all: Table, x: nat, from: seq<string>, row: Row)
    requires Distinct(all.columns) && (forall c :: c in DesiredOrder ==> c in all.columns)
    requires x < |all.rows| && all.rows[x] == Project(from, row, all.columns)
    ensures ReorderColumns(all).Ok? && x < |ReorderColumns(all).value.rows|
    ensures ReorderColumns(all).value.rows[x] == Project(from, row, DesiredOrder)
  {
    ReorderSpec(all);
    SelectRow(all, DesiredOrder, x);
    forall j | 0 <= j < |DesiredOrder|
      ensures Cell(all.columns, all.rows[x], DesiredOrder[j]) == Cell(from, row, DesiredOrder[j])
    {
      CellProject(from, row, all.columns, DesiredOrder[j]);
    }
  }

  /** A processed empirical line, read in the output column order. */
  lemma EmpiricalProject(parsed: Frame, t: Table, i: nat)
    requires Empirical(parsed) == Ok(t) && i < |parsed.rows|
    ensures i < |t.rows|
    ensures EmpiricalLine(parsed, parsed.rows[i], Project(t.columns, t.rows[i], DesiredOrder))
  {
    EmpiricalRow(parsed, i);
    LineOfCells(parsed, parsed.rows[i], t.columns, t.rows[i]);
  }

  /** A row whose six wanted cells are those the transforms make of `line`
      reads, in the output order, as the output line of `line`. */
  lemma LineOfCells(parsed: Frame, line: Row, cols: seq<string>, row: Row)
    requires Cell(parsed.columns, line, "#subj_idx").Str?
    requires Cell(cols, row, "subject") == Str(NormalizeSubject(Cell(parsed.columns, line, "#subj_idx").s))
    requires Cell(cols, row, "session") == Cell(parsed.columns, line, "SESSION")
    requires Cell(cols, row, "group") == GroupOf(Cell(parsed.columns, line, "GROUP"))
    requires Cell(cols, row, "type") == Str("E")
    requires Cell(cols, row, "response") == Cell(parsed.columns, line, "RESPONSE")
    requires Cell(cols, row, "RT") == Cell(parsed.columns, line, "TIME")
    ensures EmpiricalLine(parsed, line, Project(cols, row, DesiredOrder))
  {
    ProjectDesired(cols, row);
  }

  /** The six wanted cells of a row, in the output order. */
  lemma ProjectDesired(cols: seq<string>, row: Row)
    ensures Project(cols, row, DesiredOrder) ==
      [Cell(cols, row, "subject"), Cell(cols, row, "session"), Cell(cols, row, "group"),
       Cell(cols, row, "type"), Cell(cols, row, "response"), Cell(cols, row, "RT")]
  {
  }

  // ---------------------------------------------------------------------
  // What the simulated output holds

  /** `row` is, in the output column order, a value pair of some processed
      simulated file together with the subject, session and group parsed
      from that file's name and the tag 'S'. */
  ghost predicate FromSimulatedFile(listing: seq<(string, seq<(Value, Value)>)>, row: Row)
  {
    exists f, i :: f in listing && Text.EndsWith(f.0, "_sim.dat") && 0 <= i < |f.1| &&
      SimSubject(f.0).Ok? && SimSession(f.0).Ok? &&
      row == [Str(SimSubject(f.0).value), Str(SimSession(f.0).value), Str(SimGroup(f.0)), Str("S"), f.1[i].0, f.1[i].1]
  }

  /** The simulated output, reordered, has the six columns in the wanted
      order, exactly `empiricalCount` rows, and each row comes from one line
      of one selected simulated file. */
  lemma SimulatedOutput(listing: seq<(string, seq<(Value, Value)>)>, empiricalCount: nat)
    requires SimulatedData(listing, empiricalCount).Ok?
    ensures var out := ReorderColumns(SimulatedData(listing, empiricalCount).value);
      out.Ok? && out.value.columns == DesiredOrder && |out.value.rows| == empiricalCount &&
      forall j :: 0 <= j < empiricalCount ==> FromSimulatedFile(listing, out.value.rows[j])
  {
    var ts := SimulatedConcat(listing, empiricalCount);
    var all := Table(SimulatedColumns, Rows(ts));
    DownsampleShape(all, empiricalCount);
    ReorderSpec(Downsample(all, empiricalCount).value);
    forall j | 0 <= j < empiricalCount
      ensures FromSimulatedFile(listing, ReorderColumns(SimulatedData(listing, empiricalCount).value).value.rows[j])
    {
      SimulatedOutputRow(listing, empiricalCount, j);
    }
  }

  /** The collected simulated tables, whose rows, concatenated under the
      simulated columns, are what gets downsampled. */
  lemma SimulatedConcat(listing: seq<(string, seq<(Value, Value)>)>, m: nat) returns (ts: seq<Table>)
    requires SimulatedData(listing, m).Ok?
    ensures Collect(listing, "_sim.dat", Simulated) == Ok(ts)
    ensures SimulatedData(listing, m) == Downsample(Table(SimulatedColumns, Rows(ts)), m)
  {
    ts := Collect(listing, "_sim.dat", Simulated).value;
    SimulatedTables(listing, ts);
    SimulatedColumnsDistinct();
    ConcatUniform(ts, SimulatedColumns);
  }

  /** Row `j` of the reordered simulated output comes from a selected file. */
  lemma SimulatedOutputRow(listing: seq<(string, seq<(Value, Value)>)>, m: nat, j: nat)
    requires SimulatedData(listing, m).Ok? && j < m
    ensures ReorderColumns(SimulatedData(listing, m).value).Ok?
    ensures j < |ReorderColumns(SimulatedData(listing, m).value).value.rows|
    ensures FromSimulatedFile(listing, ReorderColumns(SimulatedData(listing, m).value).value.rows[j])
  {
    var ts := SimulatedConcat(listing, m);
    var all := Table(SimulatedColumns, Rows(ts));
    var t := Downsample(all, m).value;
    DownsampleShape(all, m);
    ReorderSpec(t);
    var x := DownsampledAt(all, m, j);
    OutputRow(listing, ts, t, j, x);
  }

  /** Row `j` of a downsampling, as a position of the input. */
  lemma DownsampledAt(t: Table, m: nat, j: nat) returns (x: nat)
    requires Downsample(t, m).Ok? && j < m
    ensures j < |Downsample(t, m).value.rows| && x < |t.rows|
    ensures Downsample(t, m).value.rows[j] == t.rows[x]
  {
    DownsampleRow(t, m, j);
    x := j * (|t.rows| / m);
  }

  lemma OutputRow(listing: seq<(string, seq<(Value, Value)>)>, ts: seq<Table>, t: Table, j: nat, x: nat)
    requires Collect(listing, "_sim.dat", Simulated) == Ok(ts)
    requires t.columns == SimulatedColumns && j < |t.rows| && x < |Rows(ts)| && t.rows[j] == Rows(ts)[x]
    requires Select(t, DesiredOrder).Ok?
    ensures FromSimulatedFile(listing, Select(t, DesiredOrder).value.rows[j])
  {
    SelectRow(t, DesiredOrder, j);
    RowFromFile(listing, ts, x);
  }

  /** A concatenated simulated row, put in the output order, comes from one
      line of one selected file. */
  lemma RowFromFile(listing: seq<(string, seq<(Value, Value)>)>, ts: seq<Table>, x: nat)
    requires Collect(listing, "_sim.dat", Simulated) == Ok(ts)
    requires x < |Rows(ts)|
    ensures FromSimulatedFile(listing, Project(SimulatedColumns, Rows(ts)[x], DesiredOrder))
  {
    SimulatedTables(listing, ts);
    RowsOf(ts, x);
    var k, i :| 0 <= k < |ts| && 0 <= i < |ts[k].rows| && Rows(ts)[x] == ts[k].rows[i];
    var f :| f in listing && Text.EndsWith(f.0, "_sim.dat") && Simulated(f.0, f.1) == Ok(ts[k]);
    SimulatedFails(f.0, f.1);
    SimulatedRows(f.0, f.1);
    SimulatedProject(Rows(ts)[x]);
  }

  /** Every table the simulated loop collects is a processed selected file. */
  lemma SimulatedTables(listing: seq<(string, seq<(Value, Value)>)>, ts: seq<Table>)
    requires Collect(listing, "_sim.dat", Simulated) == Ok(ts)
    ensures forall k :: 0 <= k < |ts| ==> exists f :: f in listing && Text.EndsWith(f.0, "_sim.dat") && Simulated(f.0, f.1) == Ok(ts[k])
    ensures forall t :: t in ts ==> t.columns == SimulatedColumns && WellFormed(t)
  {
    CollectSpec(listing, "_sim.dat", Simulated);
    var selected := Filter(listing, HasSuffix("_sim.dat"));
    FilterMembers(listing, HasSuffix("_sim.dat"));
    forall k | 0 <= k < |ts|
      ensures exists f :: f in listing && Text.EndsWith(f.0, "_sim.dat") && Simulated(f.0, f.1) == Ok(ts[k])
      ensures ts[k].columns == SimulatedColumns && WellFormed(ts[k])
    {
      var f := selected[k];
      assert f in selected;
      SimulatedRows(f.0, f.1);
    }
  }

  lemma SimulatedColumnsDistinct()
    ensures Distinct(SimulatedColumns)
  {
  }

  /** Where the six simulated columns land in the output order. */
  lemma SimulatedProject(row: Row)
    requires |row| == 6
    ensures Project(SimulatedColumns, row, DesiredOrder) == [row[2], row[3], row[4], row[5], row[0], row[1]]
  {
  }

  /** Each position of the concatenated rows is a row of one of the tables. */
  lemma {:induction false} RowsOf(ts: seq<Table>, x: nat)
    requires x < |Rows(ts)|
    ensures exists k, i :: 0 <= k < |ts| && 0 <= i < |ts[k].rows| && Rows(ts)[x] == ts[k].rows[i]
  {
    if x < |ts[0].rows| {
      assert Rows(ts)[x] == ts[0].rows[x];
    } else {
      RowsOf(ts[1..], x - |ts[0].rows|);
      var k, i :| 0 <= k < |ts[1..]| && 0 <= i < |ts[1..][k].rows| && Rows(ts[1..])[x - |ts[0].rows|] == ts[1..][k].rows[i];
      assert Rows(ts)[x] == ts[k + 1].rows[i];
    }
  }
}
