/** datahandler_GSCsplit.py, the pure half: the text `save_as_txt` writes,
    the directory and file names of the four-level split, and the sequence
    of directory creations and file writes the nested loops perform, as a
    plan applied to a file system state. */
module Export {
  import opened Wrappers
  import opened Seqs
  import opened Tables
  import opened Grouping
  import Text

  // ---------------------------------------------------------------------
  // The text of one file

  /** How a float is printed (Python's `repr`); left as a parameter. */
  type FloatText = real -> string

  /** `str(v)` for a key value, as an f-string prints it. */
  function Show(v: Value, ft: FloatText): string
  {
    match v
    case Str(s) => s
    case Int(i) => Text.IntToString(i)
    case Real(r) => ft(r)
    case Null => "nan"
  }

  predicate NeedsQuotes(s: string)
  {
    '\t' in s || '"' in s || '\n' in s || '\r' in s
  }

  /** One field as the csv writer prints it with the tab delimiter and
      minimal quoting: text holding the delimiter, a quote or a line break
      is quoted, its quotes doubled. */
  function Field(v: Value, ft: FloatText): string
  {
    match v
    case Str(s) => if NeedsQuotes(s) then "\"" + Text.Replace(s, "\"", "\"\"") + "\"" else s
    case Int(i) => Text.IntToString(i)
    case Real(r) => ft(r)
    case Null => ""
  }

  function Fields(row: Row, ft: FloatText): (r: seq<string>)
    ensures |r| == |row| && forall j :: 0 <= j < |row| ==> r[j] == Field(row[j], ft)
  {
    seq(|row|, j requires 0 <= j < |row| => Field(row[j], ft))
  }

  /** One data line, without its terminator. */
  function Line(row: Row, ft: FloatText): string
  {
    Text.Join(Fields(row, ft), "\t")
  }

  /** `'#' + '\t'.join(columns) + '\n'` */
  function Header(cols: seq<string>): string
  {
    "#" + Text.Join(cols, "\t") + "\n"
  }

  /** `to_csv(f, sep='\t', index=False, header=False)`: each row on its own
      line, every line terminated. */
  function Body(rows: seq<Row>, ft: FloatText): string
  {
    if rows == [] then "" else Line(rows[0], ft) + "\n" + Body(rows[1..], ft)
  }

  /** What `save_as_txt` leaves in the file. */
  function FileText(t: Table, ft: FloatText): string
  {
    Header(t.columns) + Body(t.rows, ft)
  }

  function Lines(rows: seq<Row>, ft: FloatText): (ls: seq<string>)
    ensures |ls| == |rows| && forall i :: 0 <= i < |rows| ==> ls[i] == Line(rows[i], ft)
  {
    seq(|rows|, i requires 0 <= i < |rows| => Line(rows[i], ft))
  }

  /** Lines each followed by '\n' are those lines joined by '\n' with an
      empty last line. */
  lemma {:induction false} BodyJoin(rows: seq<Row>, ft: FloatText)
    ensures Body(rows, ft) == Text.Join(Lines(rows, ft) + [""], "\n")
  {
    if rows != [] {
      BodyJoin(rows[1..], ft);
      var ls := Lines(rows, ft);
      assert Lines(rows[1..], ft) == ls[1..];
      assert (ls + [""])[1..] == ls[1..] + [""];
    }
  }

  /** A file read back line by line: the header line (with the column
      names), then one line per row in order, then nothing but the final
      terminator; provided no name or printed field holds a line break. */
  lemma FileLines(t: Table, ft: FloatText)
    requires forall c :: c in t.columns ==> '\n' !in c
    requires forall i, j :: 0 <= i < |t.rows| && 0 <= j < |t.rows[i]| ==> '\n' !in Field(t.rows[i][j], ft)
    ensures Text.Split(FileText(t, ft), '\n') == ["#" + Text.Join(t.columns, "\t")] + Lines(t.rows, ft) + [""]
  {
    var head := "#" + Text.Join(t.columns, "\t");
    var ls := [head] + Lines(t.rows, ft) + [""];
    BodyJoin(t.rows, ft);
    assert ls[1..] == Lines(t.rows, ft) + [""];
    assert FileText(t, ft) == Text.Join(ls, "\n");
    JoinFree(t.columns, "\t", '\n');
    forall x | x in ls
      ensures '\n' !in x
    {
      if x != head && x != "" {
        var i :| 0 <= i < |t.rows| && Lines(t.rows, ft)[i] == x;
        JoinFree(Fields(t.rows[i], ft), "\t", '\n');
      }
    }
    Text.SplitJoin(ls, '\n');
  }

  /** The header line splits on tabs back into the column names, when no
      name holds a tab or a line break. */
  lemma HeaderReadsBack(cols: seq<string>)
    requires |cols| >= 1 && forall c :: c in cols ==> '\t' !in c
    ensures Header(cols)[0] == '#' && Header(cols)[|Header(cols)| - 1] == '\n'
    ensures Text.Split(Header(cols)[1..|Header(cols)| - 1], '\t') == cols
  {
    var h := Header(cols);
    assert h[1..|h| - 1] == Text.Join(cols, "\t");
    Text.SplitJoin(cols, '\t');
  }

  /** A data line splits on tabs back into one field per cell, in order,
      when no printed field holds a tab; a text cell that needs no quoting
      reads back as itself. */
  lemma LineReadsBack(row: Row, ft: FloatText)
    requires |row| >= 1 && forall j :: 0 <= j < |row| ==> '\t' !in Field(row[j], ft)
    ensures |Text.Split(Line(row, ft), '\t')| == |row|
    ensures forall j :: 0 <= j < |row| ==> Text.Split(Line(row, ft), '\t')[j] == Field(row[j], ft)
    ensures forall j :: 0 <= j < |row| && row[j].Str? && !NeedsQuotes(row[j].s) ==>
      Text.Split(Line(row, ft), '\t')[j] == row[j].s
  {
    var fs := Fields(row, ft);
    forall x | x in fs
      ensures '\t' !in x
    {
      var j :| 0 <= j < |fs| && fs[j] == x;
    }
    Text.SplitJoin(fs, '\t');
  }

  /** A character in none of the parts nor in the separator is not in the join. */
  lemma {:induction false} JoinFree(xs: seq<string>, sep: string, c: char)
    requires c !in sep && forall x :: x in xs ==> c !in x
    ensures c !in Text.Join(xs, sep)
  {
    if |xs| > 1 {
      assert forall x :: x in xs[1..] ==> x in xs;
      JoinFree(xs[1..], sep, c);
      assert xs[0] in xs;
    }
  }

  // ---------------------------------------------------------------------
  // The file system and what the split does to it

  type Path = seq<string>

  /** Directories and file contents. */
  datatype Disk = Disk(dirs: set<Path>, files: map<Path, string>)

  /** `path.mkdir(exist_ok=True)`, or `save_as_txt(frame, path)`. */
  datatype Action = MkDir(path: Path) | Write(path: Path, frame: Table)

  /** The effect of one action. */
  function Do(d: Disk, a: Action, ft: FloatText): Disk
  {
    match a
    case MkDir(p) => Disk(d.dirs + {p}, d.files)
    case Write(p, t) => Disk(d.dirs, d.files[p := FileText(t, ft)])
  }

  function Apply(d: Disk, acts: seq<Action>, ft: FloatText): Disk
  {
    if acts == [] then d else Do(Apply(d, acts[..|acts| - 1], ft), acts[|acts| - 1], ft)
  }

  lemma {:induction false} ApplyAppend(d: Disk, a: seq<Action>, b: seq<Action>, ft: FloatText)
    ensures Apply(d, a + b, ft) == Apply(Apply(d, a, ft), b, ft)
  {
    if b == [] {
      assert a + b == a;
    } else {
      var n := |b| - 1;
      ApplyAppend(d, a, b[..n], ft);
      assert (a + b)[..|a + b| - 1] == a + b[..n];
    }
  }

  /** Creating a directory that exists changes nothing (`exist_ok=True`). */
  lemma MkDirIdempotent(d: Disk, p: Path, ft: FloatText)
    ensures Apply(d, [MkDir(p), MkDir(p)], ft) == Apply(d, [MkDir(p)], ft)
  {
    assert [MkDir(p), MkDir(p)][..1] == [MkDir(p)];
    assert [MkDir(p)][..0] == [];
  }

  /** The directories afterwards are those before and those created; the
      files afterwards are those before and those written. */
  lemma {:induction false} ApplyNames(d: Disk, acts: seq<Action>, ft: FloatText)
    ensures forall p :: p in Apply(d, acts, ft).dirs <==> p in d.dirs || MkDir(p) in acts
    ensures forall p :: p in Apply(d, acts, ft).files <==> p in d.files || exists i :: 0 <= i < |acts| && acts[i].Write? && acts[i].path == p
  {
    if acts != [] {
      var n := |acts| - 1;
      ApplyNames(d, acts[..n], ft);
      assert acts == acts[..n] + [acts[n]];
      forall p | p in Apply(d, acts, ft).files
        ensures p in d.files || exists i :: 0 <= i < |acts| && acts[i].Write? && acts[i].path == p
      {
        if p !in Apply(d, acts[..n], ft).files {
          assert acts[n].Write? && acts[n].path == p;
        } else if p !in d.files {
          var i :| 0 <= i < n && acts[..n][i].Write? && acts[..n][i].path == p;
          assert acts[i] == acts[..n][i];
        }
      }
      forall p | p in d.files || exists i :: 0 <= i < |acts| && acts[i].Write? && acts[i].path == p
        ensures p in Apply(d, acts, ft).files
      {
        if p !in d.files {
          var i :| 0 <= i < |acts| && acts[i].Write? && acts[i].path == p;
          if i < n {
            assert acts[..n][i] == acts[i];
          }
        }
      }
    }
  }

  /** A file holds the text of the last write to its path: later writes to
      the same path overwrite earlier ones. */
  lemma {:induction false} ApplyLastWrite(d: Disk, acts: seq<Action>, i: nat, ft: FloatText)
    requires i < |acts| && acts[i].Write?
    requires forall j :: i < j < |acts| ==> !(acts[j].Write? && acts[j].path == acts[i].path)
    ensures acts[i].path in Apply(d, acts, ft).files
    ensures Apply(d, acts, ft).files[acts[i].path] == FileText(acts[i].frame, ft)
  {
    var n := |acts| - 1;
    if i < n {
      assert forall j :: i < j < n ==> acts[..n][j] == acts[j];
      ApplyLastWrite(d, acts[..n], i, ft);
    }
  }

  /** A file no action writes keeps its contents. */
  lemma {:induction false} ApplyUntouched(d: Disk, acts: seq<Action>, p: Path, ft: FloatText)
    requires p in d.files
    requires forall j :: 0 <= j < |acts| ==> !(acts[j].Write? && acts[j].path == p)
    ensures p in Apply(d, acts, ft).files && Apply(d, acts, ft).files[p] == d.files[p]
  {
    if acts != [] {
      var n := |acts| - 1;
      assert forall j :: 0 <= j < n ==> acts[..n][j] == acts[j];
      ApplyUntouched(d, acts[..n], p, ft);
    }
  }

  // ---------------------------------------------------------------------
  // The nested split

  /** What a level of the split makes of its key. */
  datatype Kind = GroupDir | SessionDir | ConditionDir | SubjectFile

  datatype Level = Level(column: string, kind: Kind)

  /** The name a key gets at a level: `group_name.lower()`,
      `f'session {session_name}'`, `condition_name.lower()`, or
      `f'pt_{subj_name.strip("PT")}.txt'`. Lowering or stripping a key that
      is not text raises AttributeError. */
  function Component(l: Level, v: Value, ft: FloatText): Result<string, Error>
  {
    match l.kind
    case SessionDir => Ok("session " + Show(v, ft))
    case SubjectFile =>
      if v.Str? then Ok("pt_" + Text.Strip(v.s, {'P', 'T'}) + ".txt") else Err(NotText(l.column))
    case _ => if v.Str? then Ok(Text.Lower(v.s)) else Err(NotText(l.column))
  }

  /** The four levels of `split_by_group_session_condition_and_save`. */
  function Levels(subjColumn: string, groupColumn: string, sessionColumn: string, conditionColumn: string): seq<Level>
  {
    [Level(groupColumn, GroupDir), Level(sessionColumn, SessionDir), Level(conditionColumn, ConditionDir), Level(subjColumn, SubjectFile)]
  }

  /** The actions performed, in order, and the exception that ended the
      run, if any. */
  datatype Outcome = Outcome(actions: seq<Action>, error: Option<Error>)

  /** `a`, then `b` unless `a` raised. */
  function Then(a: Outcome, b: Outcome): Outcome
  {
    if a.error.Some? then a else Outcome(a.actions + b.actions, b.error)
  }

  /** The loops from level `levels[0]` down, over the rows `xs`, inside the
      directory `dir`; below the last level, the rows are written to `dir`. */
  function Plan(xs: seq<Row>, cols: seq<string>, dir: Path, levels: seq<Level>, ft: FloatText): Outcome
    decreases |levels|, 1, 0
  {
    if levels == [] then Outcome([Write(dir, Table(cols, xs))], None)
    else if levels[0].column !in cols then Outcome([], Some(MissingColumn(levels[0].column)))
    else KeysPlan(xs, cols, dir, levels, Keys(xs, cols, levels[0].column), ft)
  }

  /** The loop over the keys `ks` of one level. */
  function KeysPlan(xs: seq<Row>, cols: seq<string>, dir: Path, levels: seq<Level>, ks: seq<Value>, ft: FloatText): Outcome
    requires levels != []
    decreases |levels|, 0, |ks|
  {
    if ks == [] then Outcome([], None)
    else Then(KeysPlan(xs, cols, dir, levels, ks[..|ks| - 1], ft), KeyPlan(xs, cols, dir, levels, ks[|ks| - 1], ft))
  }

  /** One iteration: name the key's directory or file, create the
      directory and descend, or write the group's rows at the last level. */
  function KeyPlan(xs: seq<Row>, cols: seq<string>, dir: Path, levels: seq<Level>, k: Value, ft: FloatText): Outcome
    requires levels != []
    decreases |levels|, 0, 0
  {
    match Component(levels[0], k, ft)
    case Err(e) => Outcome([], Some(e))
    case Ok(name) =>
      var inner := Plan(Group(xs, cols, levels[0].column, k), cols, dir + [name], levels[1..], ft);
      if |levels| > 1 then Outcome([MkDir(dir + [name])] + inner.actions, inner.error) else inner
  }

  /** The whole split of a loaded table under `base`: create `base`, then
      the four nested loops. */
  function SplitPlan(t: Table, subjColumn: string, groupColumn: string, sessionColumn: string, conditionColumn: string, base: Path, ft: FloatText): Outcome
  {
    var inner := Plan(t.rows, t.columns, base, Levels(subjColumn, groupColumn, sessionColumn, conditionColumn), ft);
    Outcome([MkDir(base)] + inner.actions, inner.error)
  }

  /** Once an iteration has raised, the loop's outcome is fixed. */
  lemma {:induction false} KeysPlanStops(xs: seq<Row>, cols: seq<string>, dir: Path, levels: seq<Level>, ks: seq<Value>, n: nat, ft: FloatText)
    requires levels != [] && n <= |ks|
    requires KeysPlan(xs, cols, dir, levels, ks[..n], ft).error.Some?
    ensures KeysPlan(xs, cols, dir, levels, ks, ft) == KeysPlan(xs, cols, dir, levels, ks[..n], ft)
  {
    if n < |ks| {
      var m := |ks| - 1;
      assert ks[..m][..n] == ks[..n];
      KeysPlanStops(xs, cols, dir, levels, ks[..m], n, ft);
      var prev := KeysPlan(xs, cols, dir, levels, ks[..m], ft);
      assert prev.error.Some?;
      assert KeysPlan(xs, cols, dir, levels, ks, ft) == Then(prev, KeyPlan(xs, cols, dir, levels, ks[m], ft));
    } else {
      assert ks[..n] == ks;
    }
  }

  // ---------------------------------------------------------------------
  // What the split writes

  /** A row's keys at `levels` are `vs`. */
  predicate MatchesAll(cols: seq<string>, x: Row, levels: seq<Level>, vs: seq<Value>)
    requires |vs| == |levels|
  {
    levels == [] || (Cell(cols, x, levels[0].column) == vs[0] && MatchesAll(cols, x, levels[1..], vs[1..]))
  }

  function MatchAll(cols: seq<string>, levels: seq<Level>, vs: seq<Value>): Row -> bool
    requires |vs| == |levels|
  {
    (x: Row) => MatchesAll(cols, x, levels, vs)
  }

  /** A row's key at every level is present. */
  predicate KeysPresent(cols: seq<string>, x: Row, levels: seq<Level>)
  {
    levels == [] || (Cell(cols, x, levels[0].column) != Null && KeysPresent(cols, x, levels[1..]))
  }

  function AllPresent(cols: seq<string>, levels: seq<Level>): Row -> bool
  {
    (x: Row) => KeysPresent(cols, x, levels)
  }

  /** The path reached from `dir` by naming the keys `vs` level by level. */
  function LeafPath(dir: Path, levels: seq<Level>, vs: seq<Value>, ft: FloatText): Result<Path, Error>
    requires |vs| == |levels|
    decreases |levels|
  {
    if levels == [] then Ok(dir)
    else
      match Component(levels[0], vs[0], ft)
      case Err(e) => Err(e)
      case Ok(name) => LeafPath(dir + [name], levels[1..], vs[1..], ft)
  }

  /** `a` writes, at the path named by the non-missing keys `vs`, exactly
      the rows of `xs` with those keys, in their original order. */
  ghost predicate IsLeaf(xs: seq<Row>, cols: seq<string>, dir: Path, levels: seq<Level>, ft: FloatText, vs: seq<Value>, a: Action)
  {
    |vs| == |levels| && Null !in vs && a.Write? &&
    LeafPath(dir, levels, vs, ft) == Ok(a.path) &&
    a.frame == Table(cols, Filter(xs, MatchAll(cols, levels, vs)))
  }

  /** Every file the split writes is a leaf: its path is named by its keys
      and it holds exactly the rows with those keys. */
  lemma {:induction false} PlanWrites(xs: seq<Row>, cols: seq<string>, dir: Path, levels: seq<Level>, ft: FloatText, a: Action)
    requires a in Plan(xs, cols, dir, levels, ft).actions && a.Write?
    ensures exists vs :: IsLeaf(xs, cols, dir, levels, ft, vs, a)
    decreases |levels|, 1, 0
  {
    if levels == [] {
      assert Filter(xs, MatchAll(cols, levels, [])) == xs by {
        FilterAll(xs, MatchAll(cols, levels, []));
      }
      assert IsLeaf(xs, cols, dir, levels, ft, [], a);
    } else {
      KeysSpec(xs, cols, levels[0].column);
      KeysPlanWrites(xs, cols, dir, levels, Keys(xs, cols, levels[0].column), ft, a);
    }
  }

  lemma {:induction false} KeysPlanWrites(xs: seq<Row>, cols: seq<string>, dir: Path, levels: seq<Level>, ks: seq<Value>, ft: FloatText, a: Action)
    requires levels != [] && Null !in ks
    requires a in KeysPlan(xs, cols, dir, levels, ks, ft).actions && a.Write?
    ensures exists vs :: IsLeaf(xs, cols, dir, levels, ft, vs, a)
    decreases |levels|, 0, |ks|
  {
    var n := |ks| - 1;
    var before := KeysPlan(xs, cols, dir, levels, ks[..n], ft);
    if a in before.actions {
      assert forall k :: k in ks[..n] ==> k in ks;
      KeysPlanWrites(xs, cols, dir, levels, ks[..n], ft, a);
    } else {
      assert ks[n] in ks;
      KeyPlanWrites(xs, cols, dir, levels, ks[n], ft, a);
    }
  }

  lemma {:induction false} KeyPlanWrites(xs: seq<Row>, cols: seq<string>, dir: Path, levels: seq<Level>, k: Value, ft: FloatText, a: Action)
    requires levels != [] && k != Null
    requires a in KeyPlan(xs, cols, dir, levels, k, ft).actions && a.Write?
    ensures exists vs :: IsLeaf(xs, cols, dir, levels, ft, vs, a)
    decreases |levels|, 0, 0
  {
    var name := Component(levels[0], k, ft).value;
    var col := levels[0].column;
    var sub := Group(xs, cols, col, k);
    var inner := Plan(sub, cols, dir + [name], levels[1..], ft);
    assert a in inner.actions;
    PlanWrites(sub, cols, dir + [name], levels[1..], ft, a);
    var ws :| IsLeaf(sub, cols, dir + [name], levels[1..], ft, ws, a);
    var vs := [k] + ws;
    assert vs[1..] == ws;
    FilterFilter(xs, Match(cols, col, k), MatchAll(cols, levels[1..], ws), MatchAll(cols, levels, vs));
    assert IsLeaf(xs, cols, dir, levels, ft, vs, a);
  }

  /** Total number of rows written. */
  function WrittenRows(acts: seq<Action>): nat
  {
    if acts == [] then 0
    else WrittenRows(acts[..|acts| - 1]) + (if acts[|acts| - 1].Write? then |acts[|acts| - 1].frame.rows| else 0)
  }

  lemma {:induction false} WrittenRowsAppend(a: seq<Action>, b: seq<Action>)
    ensures WrittenRows(a + b) == WrittenRows(a) + WrittenRows(b)
  {
    if b != [] {
      var n := |b| - 1;
      WrittenRowsAppend(a, b[..n]);
      assert (a + b)[..|a + b| - 1] == a + b[..n];
    } else {
      assert a + b == a;
    }
  }

  /** A row whose key at the first level is one of `ks` and whose keys
      below are all present. */
  function InKeys(cols: seq<string>, levels: seq<Level>, ks: seq<Value>): Row -> bool
    requires levels != []
  {
    (x: Row) => Cell(cols, x, levels[0].column) in ks && KeysPresent(cols, x, levels[1..])
  }

  /** A split that raises nothing writes every row whose keys are all
      present exactly once in total: the row counts of the files add up to
      the number of such rows. */
  lemma {:induction false} PlanCount(xs: seq<Row>, cols: seq<string>, dir: Path, levels: seq<Level>, ft: FloatText)
    requires Plan(xs, cols, dir, levels, ft).error.None?
    ensures WrittenRows(Plan(xs, cols, dir, levels, ft).actions) == |Filter(xs, AllPresent(cols, levels))|
    decreases |levels|, 1, 0
  {
    if levels == [] {
      FilterAll(xs, AllPresent(cols, levels));
      assert [Write(dir, Table(cols, xs))][..0] == [];
    } else {
      var col := levels[0].column;
      var ks := Keys(xs, cols, col);
      KeysDistinct(xs, cols, col);
      KeysSpec(xs, cols, col);
      KeysPlanCount(xs, cols, dir, levels, ks, ft);
      FilterCongruent(xs, InKeys(cols, levels, ks), AllPresent(cols, levels));
    }
  }

  lemma {:induction false} KeysPlanCount(xs: seq<Row>, cols: seq<string>, dir: Path, levels: seq<Level>, ks: seq<Value>, ft: FloatText)
    requires levels != [] && Distinct(ks)
    requires KeysPlan(xs, cols, dir, levels, ks, ft).error.None?
    ensures WrittenRows(KeysPlan(xs, cols, dir, levels, ks, ft).actions) == |Filter(xs, InKeys(cols, levels, ks))|
    decreases |levels|, 0, |ks|
  {
    if ks == [] {
      FilterNone(xs, InKeys(cols, levels, ks));
    } else {
      var n := |ks| - 1;
      var init := ks[..n];
      assert Distinct(init);
      assert ks[n] !in init;
      var before := KeysPlan(xs, cols, dir, levels, init, ft);
      var step := KeyPlan(xs, cols, dir, levels, ks[n], ft);
      KeysPlanCount(xs, cols, dir, levels, init, ft);
      KeyPlanCount(xs, cols, dir, levels, ks[n], ft);
      WrittenRowsAppend(before.actions, step.actions);
      assert ks == init + [ks[n]];
      FilterSplitCount(xs, InKeys(cols, levels, ks), InKeys(cols, levels, init), InKeys(cols, levels, [ks[n]]));
    }
  }

  lemma KeyPlanCount(xs: seq<Row>, cols: seq<string>, dir: Path, levels: seq<Level>, k: Value, ft: FloatText)
    requires levels != []
    requires KeyPlan(xs, cols, dir, levels, k, ft).error.None?
    ensures WrittenRows(KeyPlan(xs, cols, dir, levels, k, ft).actions) == |Filter(xs, InKeys(cols, levels, [k]))|
    decreases |levels|, 0, 0
  {
    var col := levels[0].column;
    var name := Component(levels[0], k, ft).value;
    var inner := Plan(Group(xs, cols, col, k), cols, dir + [name], levels[1..], ft);
    PlanCount(Group(xs, cols, col, k), cols, dir + [name], levels[1..], ft);
    WrittenRowsAppend([MkDir(dir + [name])], inner.actions);
    assert [MkDir(dir + [name])][..0] == [];
    FilterFilter(xs, Match(cols, col, k), AllPresent(cols, levels[1..]), InKeys(cols, levels, [k]));
  }

  /** A split that raises nothing writes every row whose keys are all
      present into some file. */
  lemma {:induction false} PlanCovers(xs: seq<Row>, cols: seq<string>, dir: Path, levels: seq<Level>, ft: FloatText, x: Row)
    requires Plan(xs, cols, dir, levels, ft).error.None?
    requires x in xs && KeysPresent(cols, x, levels)
    ensures exists a :: a in Plan(xs, cols, dir, levels, ft).actions && a.Write? && x in a.frame.rows
    decreases |levels|, 1, 0
  {
    if levels == [] {
      assert Write(dir, Table(cols, xs)) in Plan(xs, cols, dir, levels, ft).actions;
    } else {
      var col := levels[0].column;
      KeysSpec(xs, cols, col);
      KeysPlanCovers(xs, cols, dir, levels, Keys(xs, cols, col), ft, x);
    }
  }

  lemma {:induction false} KeysPlanCovers(xs: seq<Row>, cols: seq<string>, dir: Path, levels: seq<Level>, ks: seq<Value>, ft: FloatText, x: Row)
    requires levels != []
    requires KeysPlan(xs, cols, dir, levels, ks, ft).error.None?
    requires x in xs && Cell(cols, x, levels[0].column) in ks && KeysPresent(cols, x, levels[1..])
    ensures exists a :: a in KeysPlan(xs, cols, dir, levels, ks, ft).actions && a.Write? && x in a.frame.rows
    decreases |levels|, 0, |ks|
  {
    var n := |ks| - 1;
    var before := KeysPlan(xs, cols, dir, levels, ks[..n], ft);
    var step := KeyPlan(xs, cols, dir, levels, ks[n], ft);
    var all := KeysPlan(xs, cols, dir, levels, ks, ft);
    assert all.actions == before.actions + step.actions;
    if Cell(cols, x, levels[0].column) == ks[n] {
      var col := levels[0].column;
      var name := Component(levels[0], ks[n], ft).value;
      var sub := Group(xs, cols, col, ks[n]);
      GroupSpec(xs, cols, col, ks[n]);
      PlanCovers(sub, cols, dir + [name], levels[1..], ft, x);
      var a :| a in Plan(sub, cols, dir + [name], levels[1..], ft).actions && a.Write? && x in a.frame.rows;
      assert a in step.actions;
    } else {
      assert ks == ks[..n] + [ks[n]];
      KeysPlanCovers(xs, cols, dir, levels, ks[..n], ft, x);
    }
  }

  // ---------------------------------------------------------------------
  // The four levels of the split

  const PT: set<char> := {'P', 'T'}

  /** `a` writes at `base/lower(g)/session s/lower(c)/pt_<p stripped of P
      and T>.txt`, and a row is among those it writes exactly when it is a
      row of `t` whose group, session, condition and subject are `g`, `s`,
      `c` and `p`. This speaks of membership only; that each level's group
      keeps the rows in table order is `Grouping.GroupSpec`. */
  ghost predicate WritesKeys(t: Table, subjColumn: string, groupColumn: string, sessionColumn: string, conditionColumn: string,
                             base: Path, ft: FloatText, a: Action, g: string, s: Value, c: string, p: string)
  {
    s != Null && a.Write? &&
    a.path == base + [Text.Lower(g), "session " + Show(s, ft), Text.Lower(c), "pt_" + Text.Strip(p, PT) + ".txt"] &&
    forall x :: x in a.frame.rows <==>
      (x in t.rows &&
       Cell(t.columns, x, groupColumn) == Str(g) && Cell(t.columns, x, sessionColumn) == s &&
       Cell(t.columns, x, conditionColumn) == Str(c) && Cell(t.columns, x, subjColumn) == Str(p))
  }

  /** Every file the split writes is named by the four keys of its rows,
      and the rows it holds are exactly the rows with those keys. */
  lemma SplitWrites(t: Table, subjColumn: string, groupColumn: string, sessionColumn: string, conditionColumn: string, base: Path, ft: FloatText, a: Action)
    requires a in SplitPlan(t, subjColumn, groupColumn, sessionColumn, conditionColumn, base, ft).actions && a.Write?
    ensures exists g, s, c, p :: WritesKeys(t, subjColumn, groupColumn, sessionColumn, conditionColumn, base, ft, a, g, s, c, p)
  {
    var levels := Levels(subjColumn, groupColumn, sessionColumn, conditionColumn);
    assert a in Plan(t.rows, t.columns, base, levels, ft).actions;
    PlanWrites(t.rows, t.columns, base, levels, ft, a);
    var vs: seq<Value> :| IsLeaf(t.rows, t.columns, base, levels, ft, vs, a);
    var g, c, p := LeafFour(t, subjColumn, groupColumn, sessionColumn, conditionColumn, base, ft, vs, a);
    assert vs[1] in vs;
    assert WritesKeys(t, subjColumn, groupColumn, sessionColumn, conditionColumn, base, ft, a, g, vs[1], c, p);
  }

  /** A leaf of the four levels, spelled out. */
  lemma LeafFour(t: Table, subjColumn: string, groupColumn: string, sessionColumn: string, conditionColumn: string, base: Path, ft: FloatText, vs: seq<Value>, a: Action)
    returns (g: string, c: string, p: string)
    requires IsLeaf(t.rows, t.columns, base, Levels(subjColumn, groupColumn, sessionColumn, conditionColumn), ft, vs, a)
    ensures a.path == base + [Text.Lower(g), "session " + Show(vs[1], ft), Text.Lower(c), "pt_" + Text.Strip(p, PT) + ".txt"]
    ensures forall x :: x in a.frame.rows <==>
      (x in t.rows &&
       Cell(t.columns, x, groupColumn) == Str(g) && Cell(t.columns, x, sessionColumn) == vs[1] &&
       Cell(t.columns, x, conditionColumn) == Str(c) && Cell(t.columns, x, subjColumn) == Str(p))
  {
    var levels := Levels(subjColumn, groupColumn, sessionColumn, conditionColumn);
    LeafPathFour(base, levels, vs, ft);
    g := ComponentText(levels[0], vs[0], ft);
    c := ComponentText(levels[2], vs[2], ft);
    p := ComponentText(levels[3], vs[3], ft);
    FilterMembers(t.rows, MatchAll(t.columns, levels, vs));
    MatchFour(t.columns, levels, vs);
  }

  /** A directory or file name made from a text key, and that text. */
  lemma ComponentText(l: Level, v: Value, ft: FloatText) returns (text: string)
    requires l.kind != SessionDir && Component(l, v, ft).Ok?
    ensures v == Str(text)
    ensures Component(l, v, ft).value == if l.kind == SubjectFile then "pt_" + Text.Strip(text, PT) + ".txt" else Text.Lower(text)
  {
    text := v.s;
  }

  /** The path of a leaf four levels down. */
  lemma LeafPathFour(dir: Path, levels: seq<Level>, vs: seq<Value>, ft: FloatText)
    requires |levels| == 4 && |vs| == 4 && LeafPath(dir, levels, vs, ft).Ok?
    ensures Component(levels[0], vs[0], ft).Ok? && Component(levels[1], vs[1], ft).Ok?
    ensures Component(levels[2], vs[2], ft).Ok? && Component(levels[3], vs[3], ft).Ok?
    ensures LeafPath(dir, levels, vs, ft).value == dir + [Component(levels[0], vs[0], ft).value,
      Component(levels[1], vs[1], ft).value, Component(levels[2], vs[2], ft).value, Component(levels[3], vs[3], ft).value]
  {
    var d1 := LeafPathStep(dir, levels, vs, ft);
    var d2 := LeafPathStep(d1, levels[1..], vs[1..], ft);
    var d3 := LeafPathStep(d2, levels[2..], vs[2..], ft);
    var d4 := LeafPathStep(d3, levels[3..], vs[3..], ft);
    assert levels[3..][1..] == [];
  }

  /** One level of `LeafPath`, returning the directory it descends into. */
  lemma LeafPathStep(dir: Path, levels: seq<Level>, vs: seq<Value>, ft: FloatText) returns (next: Path)
    requires |levels| == |vs| >= 1 && LeafPath(dir, levels, vs, ft).Ok?
    ensures Component(levels[0], vs[0], ft).Ok? && next == dir + [Component(levels[0], vs[0], ft).value]
    ensures LeafPath(dir, levels, vs, ft) == LeafPath(next, levels[1..], vs[1..], ft)
  {
    next := dir + [Component(levels[0], vs[0], ft).value];
  }

  lemma MatchFour(cols: seq<string>, levels: seq<Level>, vs: seq<Value>)
    requires |levels| == 4 && |vs| == 4
    ensures forall x :: MatchesAll(cols, x, levels, vs) <==>
      Cell(cols, x, levels[0].column) == vs[0] && Cell(cols, x, levels[1].column) == vs[1] &&
      Cell(cols, x, levels[2].column) == vs[2] && Cell(cols, x, levels[3].column) == vs[3]
  {
    forall x
      ensures MatchesAll(cols, x, levels, vs) <==>
        Cell(cols, x, levels[0].column) == vs[0] && Cell(cols, x, levels[1].column) == vs[1] &&
        Cell(cols, x, levels[2].column) == vs[2] && Cell(cols, x, levels[3].column) == vs[3]
    {
      var l1, v1 := levels[1..], vs[1..];
      var l2, v2 := l1[1..], v1[1..];
      var l3, v3 := l2[1..], v2[1..];
      assert l3[1..] == [];
      assert MatchesAll(cols, x, l3, v3) <==> Cell(cols, x, levels[3].column) == vs[3];
      assert MatchesAll(cols, x, l2, v2) <==> Cell(cols, x, levels[2].column) == vs[2] && MatchesAll(cols, x, l3, v3);
      assert MatchesAll(cols, x, l1, v1) <==> Cell(cols, x, levels[1].column) == vs[1] && MatchesAll(cols, x, l2, v2);
    }
  }

  /** A split that raises nothing writes each row with all four keys
      present exactly once in total: the files' row counts add up to the
      number of such rows, and each such row is in some file. */
  lemma SplitCount(t: Table, subjColumn: string, groupColumn: string, sessionColumn: string, conditionColumn: string, base: Path, ft: FloatText)
    requires SplitPlan(t, subjColumn, groupColumn, sessionColumn, conditionColumn, base, ft).error.None?
    ensures WrittenRows(SplitPlan(t, subjColumn, groupColumn, sessionColumn, conditionColumn, base, ft).actions) ==
      |Filter(t.rows, AllPresent(t.columns, Levels(subjColumn, groupColumn, sessionColumn, conditionColumn)))|
    ensures forall x :: x in t.rows && KeysPresent(t.columns, x, Levels(subjColumn, groupColumn, sessionColumn, conditionColumn)) ==>
      exists a :: a in SplitPlan(t, subjColumn, groupColumn, sessionColumn, conditionColumn, base, ft).actions && a.Write? && x in a.frame.rows
  {
    var levels := Levels(subjColumn, groupColumn, sessionColumn, conditionColumn);
    var inner := Plan(t.rows, t.columns, base, levels, ft);
    PlanCount(t.rows, t.columns, base, levels, ft);
    WrittenRowsAppend([MkDir(base)], inner.actions);
    assert [MkDir(base)][..0] == [];
    forall x | x in t.rows && KeysPresent(t.columns, x, levels)
      ensures exists a :: a in SplitPlan(t, subjColumn, groupColumn, sessionColumn, conditionColumn, base, ft).actions && a.Write? && x in a.frame.rows
    {
      PlanCovers(t.rows, t.columns, base, levels, ft, x);
    }
  }

  /** The first action creates `base`; the split's first level reads the
      group column, so a table without it raises KeyError right after. */
  lemma SplitStart(t: Table, subjColumn: string, groupColumn: string, sessionColumn: string, conditionColumn: string, base: Path, ft: FloatText)
    ensures SplitPlan(t, subjColumn, groupColumn, sessionColumn, conditionColumn, base, ft).actions[0] == MkDir(base)
    ensures groupColumn !in t.columns ==>
      SplitPlan(t, subjColumn, groupColumn, sessionColumn, conditionColumn, base, ft) == Outcome([MkDir(base)], Some(MissingColumn(groupColumn)))
  {
  }

  /** Python's `strip('PT')` removes runs of either letter from both ends. */
  lemma StripLeadingExample()
    ensures Text.Strip("PT0015", PT) == "0015"
  {
    var pre, core, post := "PT", "0015", "";
    assert pre + core + post == "PT0015";
    Text.StripAround(pre, core, post, PT);
  }

  lemma StripBothEndsExample()
    ensures Text.Strip("TP15PT", PT) == "15"
  {
    var pre, core, post := "TP", "15", "PT";
    assert pre + core + post == "TP15PT";
    Text.StripAround(pre, core, post, PT);
  }

  /** A trailing 'T' goes too: the file for "PT0015T" is `pt_0015.txt`,
      where removing the literal prefix "PT" would have kept "0015T". */
  lemma StripTrailingExample()
    ensures Text.Strip("PT0015T", PT) == "0015"
  {
    var pre, core, post := "PT", "0015", "T";
    assert pre + core + post == "PT0015T";
    Text.StripAround(pre, core, post, PT);
  }

  lemma StripNothingExample()
    ensures Text.Strip("0015", PT) == "0015"
  {
    var pre, core, post := "", "0015", "";
    assert pre + core + post == "0015";
    Text.StripAround(pre, core, post, PT);
  }

  lemma StripAllExample()
    ensures Text.Strip("PTPT", PT) == ""
  {
    assert Text.LStrip("PTPT", PT) == [];
  }

  /** Two different subject ids can name the same file: an id and the same
      id behind "PT" strip to the same text, so both give `pt_<id>.txt`,
      and the later group then overwrites the earlier one's file. */
  lemma SubjectCollision(id: string)
    requires id != [] && id[0] !in PT && id[|id| - 1] !in PT
    ensures Text.Strip("PT" + id, PT) == Text.Strip(id, PT) == id
  {
    Text.StripRun("PT", id, PT);
    assert Text.LStrip(id, PT) == id;
    assert Text.RStrip(id, PT) == id;
  }
}
