/** The data model shared by the scripts: a table (a pandas DataFrame) is an
    ordered list of column names and a sequence of rows, each row holding one
    value per column, in column order; a row maps a name to a value through
    `Cell`. A dictionary of named tables keeps its insertion order, as a
    Python dict does. */
module Tables {
  import opened Wrappers
  import opened Seqs

  /** A cell: text, an integer, a float (modelled as a real), or missing (NaN/None). */
  datatype Value = Str(s: string) | Int(i: int) | Real(r: real) | Null

  type Row = seq<Value>

  datatype Table = Table(columns: seq<string>, rows: seq<Row>)

  /** Every row has exactly one value per column. */
  predicate WellFormed(t: Table)
  {
    forall i :: 0 <= i < |t.rows| ==> |t.rows[i]| == |t.columns|
  }

  /** Keeping some of the rows of a well-formed table keeps it well-formed. */
  lemma FilterWellFormed(t: Table, p: Row -> bool)
    ensures WellFormed(t) ==> WellFormed(Table(t.columns, Filter(t.rows, p)))
  {
    if WellFormed(t) {
      var kept := Filter(t.rows, p);
      FilterMembers(t.rows, p);
      forall i | 0 <= i < |kept|
        ensures |kept[i]| == |t.columns|
      {
        assert kept[i] in kept;
        var j :| 0 <= j < |t.rows| && t.rows[j] == kept[i];
      }
    }
  }

  /** The exceptions the modelled code can raise, named after what causes them. */
  datatype Error =
    | MissingColumn(name: string)   // KeyError from df[name]
    | NotText(column: string)       // AttributeError: a string method applied to a non-string value
    | NotNumeric(column: string)    // TypeError: arithmetic on a text column
    | NoMatch(pattern: string)      // AttributeError: re.search found nothing
    | NothingToConcatenate          // ValueError from pd.concat of an empty list
    | ZeroDivision                  // ZeroDivisionError from //
    | ZeroStep                      // ValueError: slice step cannot be zero

  /** Position of the first column called `name`. */
  function IndexOf(cols: seq<string>, name: string): (i: nat)
    requires name in cols
    ensures i < |cols| && cols[i] == name && name !in cols[..i]
  {
    if cols[0] == name then 0
    else
      assert cols == [cols[0]] + cols[1..];
      var j := IndexOf(cols[1..], name);
      assert cols[..j + 1] == [cols[0]] + cols[1..][..j];
      j + 1
  }

  /** A position holding `name` with no earlier `name` is the one `IndexOf` finds. */
  lemma IndexOfAt(cols: seq<string>, name: string, i: nat)
    requires i < |cols| && cols[i] == name && forall j :: 0 <= j < i ==> cols[j] != name
    ensures IndexOf(cols, name) == i
  {
  }

  /** `row[name]`: the value under the first column called `name`, and
      `Null` where the row has no such column (callers check presence first,
      as pandas raises KeyError there). */
  function Cell(cols: seq<string>, row: Row, name: string): Value
  {
    if name in cols && IndexOf(cols, name) < |row| then row[IndexOf(cols, name)] else Null
  }

  /** The values of one row under `names`, in that order. */
  function Project(cols: seq<string>, row: Row, names: seq<string>): (r: Row)
    ensures |r| == |names|
    ensures forall j :: 0 <= j < |names| ==> r[j] == Cell(cols, row, names[j])
  {
    seq(|names|, j requires 0 <= j < |names| => Cell(cols, row, names[j]))
  }

  /** The first of `names` that is not a column, if any. */
  function FirstMissing(cols: seq<string>, names: seq<string>): (m: Option<string>)
    ensures m.None? <==> forall n :: n in names ==> n in cols
    ensures m.Some? ==> m.value in names && m.value !in cols
  {
    if names == [] then None
    else if names[0] !in cols then Some(names[0])
    else FirstMissing(cols, names[1..])
  }

  /** `df[names]`: the listed columns in the listed order, or KeyError when
      one of them is absent. */
  function Select(t: Table, names: seq<string>): (r: Result<Table, Error>)
    ensures r.Ok? <==> forall n :: n in names ==> n in t.columns
    ensures r.Ok? ==> r.value.columns == names && |r.value.rows| == |t.rows| && WellFormed(r.value)
    ensures r.Err? ==> exists n :: n in names && n !in t.columns && r.error == MissingColumn(n)
  {
    match FirstMissing(t.columns, names)
    case Some(n) => Err(MissingColumn(n))
    case None => Ok(Table(names, seq(|t.rows|, i requires 0 <= i < |t.rows| => Project(t.columns, t.rows[i], names))))
  }

  /** A successful `Select` turns row `i` into its values under the selected names. */
  lemma SelectRow(t: Table, names: seq<string>, i: nat)
    requires Select(t, names).Ok? && i < |t.rows|
    ensures Select(t, names).value.rows[i] == Project(t.columns, t.rows[i], names)
  {
  }

  /** With distinct column names, projecting a well-formed row onto its own
      columns gives the row back. */
  lemma ProjectSelf(cols: seq<string>, row: Row)
    requires Distinct(cols) && |row| == |cols|
    ensures Project(cols, row, cols) == row
  {
    forall j | 0 <= j < |cols|
      ensures Cell(cols, row, cols[j]) == row[j]
    {
      var i := IndexOf(cols, cols[j]);
    }
  }

  /** `df[name] = f(df[name])` for a per-value function that may raise; the
      first failing row's error wins, and a missing column is a KeyError. */
  function MapColumn(t: Table, name: string, f: Value -> Result<Value, Error>): (r: Result<Table, Error>)
    requires WellFormed(t)
    ensures r.Ok? ==> r.value.columns == t.columns && |r.value.rows| == |t.rows| && WellFormed(r.value)
    ensures name !in t.columns ==> r == Err(MissingColumn(name))
  {
    if name !in t.columns then Err(MissingColumn(name))
    else
      var k := IndexOf(t.columns, name);
      match MapRows(t.rows, k, f, |t.columns|)
      case Err(e) => Err(e)
      case Ok(rows) => Ok(Table(t.columns, rows))
  }

  function MapRows(rows: seq<Row>, k: nat, f: Value -> Result<Value, Error>, width: nat): (r: Result<seq<Row>, Error>)
    requires k < width && forall i :: 0 <= i < |rows| ==> |rows[i]| == width
    ensures r.Ok? ==> |r.value| == |rows|
    ensures r.Ok? ==> forall i :: 0 <= i < |r.value| ==> |r.value[i]| == width
  {
    if rows == [] then Ok([])
    else
      match f(rows[0][k])
      case Err(e) => Err(e)
      case Ok(v) =>
        match MapRows(rows[1..], k, f, width)
        case Err(e) => Err(e)
        case Ok(rest) => Ok([rows[0][k := v]] + rest)
  }

  /** A successful `MapRows` rewrote position `k` of row `i` by `f` and nothing else. */
  lemma {:induction false} MapRowsCells(rows: seq<Row>, k: nat, f: Value -> Result<Value, Error>, width: nat, i: nat)
    requires k < width && forall i :: 0 <= i < |rows| ==> |rows[i]| == width
    requires MapRows(rows, k, f, width).Ok? && i < |rows|
    ensures f(rows[i][k]).Ok? && MapRows(rows, k, f, width).value[i] == rows[i][k := f(rows[i][k]).value]
  {
    if i > 0 {
      MapRowsCells(rows[1..], k, f, width, i - 1);
    }
  }

  /** `MapRows` fails exactly when `f` fails on some row. */
  lemma {:induction false} MapRowsFails(rows: seq<Row>, k: nat, f: Value -> Result<Value, Error>, width: nat)
    requires k < width && forall i :: 0 <= i < |rows| ==> |rows[i]| == width
    ensures MapRows(rows, k, f, width).Err? <==> exists i :: 0 <= i < |rows| && f(rows[i][k]).Err?
  {
    if rows != [] && f(rows[0][k]).Ok? {
      MapRowsFails(rows[1..], k, f, width);
      if MapRows(rows[1..], k, f, width).Err? {
        var i :| 0 <= i < |rows[1..]| && f(rows[1..][i][k]).Err?;
        assert f(rows[i + 1][k]).Err?;
      } else {
        forall i | 0 <= i < |rows| ensures f(rows[i][k]).Ok? {
          if i > 0 {
            assert rows[i] == rows[1..][i - 1];
          }
        }
      }
    }
  }

  /** Writing `v` at the position of column `name` changes that cell and no other. */
  lemma CellUpdate(cols: seq<string>, row: Row, name: string, v: Value, c: string)
    requires name in cols && |row| == |cols|
    ensures Cell(cols, row[IndexOf(cols, name) := v], c) == if c == name then v else Cell(cols, row, c)
  {
    if c != name && c in cols {
      assert cols[IndexOf(cols, c)] == c;
    }
  }

  /** Reading `c` from a row whose first column is `a`. */
  lemma CellCons(a: string, cs: seq<string>, v: Value, r: Row, c: string)
    requires |r| == |cs|
    ensures Cell([a] + cs, [v] + r, c) == if a == c then v else Cell(cs, r, c)
  {
    if a != c && c in cs {
      assert ([a] + cs)[1..] == cs;
      assert IndexOf([a] + cs, c) == IndexOf(cs, c) + 1;
    }
  }

  /** What a successful `MapColumn` did to the cell of row `i` under `c`:
      the mapped column holds `f` of the old value, every other column is
      as it was. */
  lemma MapColumnCells(t: Table, name: string, f: Value -> Result<Value, Error>, i: nat, c: string)
    requires WellFormed(t) && MapColumn(t, name, f).Ok? && i < |t.rows|
    ensures name in t.columns && f(Cell(t.columns, t.rows[i], name)).Ok?
    ensures Cell(t.columns, MapColumn(t, name, f).value.rows[i], c) ==
      if c == name then f(Cell(t.columns, t.rows[i], name)).value else Cell(t.columns, t.rows[i], c)
  {
    var k := IndexOf(t.columns, name);
    MapRowsCells(t.rows, k, f, |t.columns|, i);
    CellUpdate(t.columns, t.rows[i], name, f(t.rows[i][k]).value, c);
  }

  /** `MapColumn` fails exactly when `f` fails on some value of the column. */
  lemma MapColumnFails(t: Table, name: string, f: Value -> Result<Value, Error>)
    requires WellFormed(t) && name in t.columns
    ensures MapColumn(t, name, f).Err? <==>
      exists i :: 0 <= i < |t.rows| && f(Cell(t.columns, t.rows[i], name)).Err?
  {
    var k := IndexOf(t.columns, name);
    MapRowsFails(t.rows, k, f, |t.columns|);
    assert forall i :: 0 <= i < |t.rows| ==> Cell(t.columns, t.rows[i], name) == t.rows[i][k];
  }

  /** A column the `.str` accessor accepts holds some text: pandas refuses a
      column that has rows but no string at all (it is numeric or all missing). */
  predicate HasText(t: Table, name: string)
  {
    exists i :: 0 <= i < |t.rows| && Cell(t.columns, t.rows[i], name).Str?
  }

  function TextOrMissing(f: string -> string): Value -> Result<Value, Error>
  {
    (v: Value) => Ok(if v.Str? then Str(f(v.s)) else Null)
  }

  /** `df[name] = df[name].str.f()`: each string is mapped by `f`, every
      other value becomes missing; a missing column is a KeyError and a
      column without text an AttributeError. */
  function StrMap(t: Table, name: string, f: string -> string): (r: Result<Table, Error>)
    requires WellFormed(t)
    ensures name !in t.columns ==> r == Err(MissingColumn(name))
    ensures name in t.columns ==> (r.Ok? <==> t.rows == [] || HasText(t, name))
    ensures name in t.columns && r.Err? ==> r.error == NotText(name)
    ensures r.Ok? ==> r.value.columns == t.columns && |r.value.rows| == |t.rows| && WellFormed(r.value)
  {
    if name !in t.columns then Err(MissingColumn(name))
    else if t.rows != [] && !HasText(t, name) then Err(NotText(name))
    else
      var k := IndexOf(t.columns, name);
      MapRowsFails(t.rows, k, TextOrMissing(f), |t.columns|);
      MapColumn(t, name, TextOrMissing(f))
  }

  /** A successful `StrMap`, at row `i` and column `c`. */
  lemma StrMapCells(t: Table, name: string, f: string -> string, i: nat, c: string)
    requires WellFormed(t) && StrMap(t, name, f).Ok? && i < |t.rows|
    ensures Cell(t.columns, StrMap(t, name, f).value.rows[i], c) ==
      if c == name then (var v := Cell(t.columns, t.rows[i], name); if v.Str? then Str(f(v.s)) else Null)
      else Cell(t.columns, t.rows[i], c)
  {
    MapColumnCells(t, name, TextOrMissing(f), i, c);
  }

  /** `df[name] = v` for a constant: overwrites the column if present,
      otherwise appends it at the right. */
  function SetConstant(t: Table, name: string, v: Value): (r: Table)
    requires WellFormed(t)
    ensures WellFormed(r)
    ensures name in t.columns ==> r.columns == t.columns
    ensures name !in t.columns ==> r.columns == t.columns + [name]
    ensures |r.rows| == |t.rows|
  {
    if name in t.columns then
      var k := IndexOf(t.columns, name);
      Table(t.columns, seq(|t.rows|, i requires 0 <= i < |t.rows| => t.rows[i][k := v]))
    else
      var r := Table(t.columns + [name], seq(|t.rows|, i requires 0 <= i < |t.rows| => t.rows[i] + [v]));
      assert IndexOf(r.columns, name) == |t.columns| by {
        assert r.columns[..|t.columns|] == t.columns;
      }
      r
  }

  /** `SetConstant` at row `i` and column `c`: the constant under `name`,
      the old value anywhere else. */
  lemma SetConstantCells(t: Table, name: string, v: Value, i: nat, c: string)
    requires WellFormed(t) && i < |t.rows|
    ensures Cell(SetConstant(t, name, v).columns, SetConstant(t, name, v).rows[i], c) ==
      if c == name then v else Cell(t.columns, t.rows[i], c)
  {
    var r := SetConstant(t, name, v);
    if c != name {
      if name in t.columns {
        CellUpdate(t.columns, t.rows[i], name, v, c);
      } else if c in t.columns {
        var k := IndexOf(t.columns, c);
        IndexOfAt(r.columns, c, k);
      }
    }
  }

  /** A new constant column goes to the right of every row. */
  lemma SetConstantAppends(t: Table, name: string, v: Value)
    requires WellFormed(t) && name !in t.columns
    ensures SetConstant(t, name, v).columns == t.columns + [name]
    ensures forall i :: 0 <= i < |t.rows| ==> SetConstant(t, name, v).rows[i] == t.rows[i] + [v]
  {
  }

  /** The column names of `ts` in order of first appearance, after those
      of `acc` (the union pandas forms when it concatenates frames whose
      columns differ). */
  function UnionColumns(acc: seq<string>, ts: seq<Table>): (r: seq<string>)
    ensures acc <= r
    ensures forall t, c :: t in ts && c in t.columns ==> c in r
    ensures forall c :: c in r ==> c in acc || exists t :: t in ts && c in t.columns
    decreases |ts|
  {
    if ts == [] then acc
    else
      var r := UnionColumns(AddNew(acc, ts[0].columns), ts[1..]);
      assert forall t :: t in ts ==> t == ts[0] || t in ts[1..];
      r
  }

  /** `acc` followed by the names of `cols` that it lacks, in order. */
  function AddNew(acc: seq<string>, cols: seq<string>): (r: seq<string>)
    ensures acc <= r
    ensures forall c :: c in r <==> c in acc || c in cols
    decreases |cols|
  {
    if cols == [] then acc
    else AddNew(if cols[0] in acc then acc else acc + [cols[0]], cols[1..])
  }

  /** A name is added only when `acc` lacks it, so no name appears twice. */
  lemma {:induction false} AddNewDistinct(acc: seq<string>, cols: seq<string>)
    requires Distinct(acc)
    ensures Distinct(AddNew(acc, cols))
    decreases |cols|
  {
    if cols != [] {
      if cols[0] !in acc {
        AppendDistinct(acc, cols[0]);
        AddNewDistinct(acc + [cols[0]], cols[1..]);
      } else {
        AddNewDistinct(acc, cols[1..]);
      }
    }
  }

  lemma AppendDistinct(acc: seq<string>, c: string)
    requires Distinct(acc) && c !in acc
    ensures Distinct(acc + [c])
  {
    var r := acc + [c];
    forall i, j | 0 <= i < j < |r|
      ensures r[i] != r[j]
    {
      assert r[i] == acc[i];
      if j == |acc| {
        assert acc[i] in acc;
      }
    }
  }

  /** The union of column names holds no name twice (the columns of a
      concatenated frame are distinct). */
  lemma {:induction false} UnionColumnsDistinct(acc: seq<string>, ts: seq<Table>)
    requires Distinct(acc)
    ensures Distinct(UnionColumns(acc, ts))
    decreases |ts|
  {
    if ts != [] {
      AddNewDistinct(acc, ts[0].columns);
      UnionColumnsDistinct(AddNew(acc, ts[0].columns), ts[1..]);
    }
  }

  /** The rows of `t` realigned to the columns `cols`; a column that `t`
      lacks is filled with `Null`. */
  function Realign(t: Table, cols: seq<string>): (rows: seq<Row>)
    ensures |rows| == |t.rows|
    ensures forall i :: 0 <= i < |rows| ==> |rows[i]| == |cols|
  {
    seq(|t.rows|, i requires 0 <= i < |t.rows| => Project(t.columns, t.rows[i], cols))
  }

  function AllRows(ts: seq<Table>, cols: seq<string>): (rows: seq<Row>)
    ensures forall i :: 0 <= i < |rows| ==> |rows[i]| == |cols|
  {
    if ts == [] then [] else Realign(ts[0], cols) + AllRows(ts[1..], cols)
  }

  /** The rows of all tables, one table after the other. */
  function Rows(ts: seq<Table>): seq<Row>
  {
    if ts == [] then [] else ts[0].rows + Rows(ts[1..])
  }

  /** `pd.concat(ts, ignore_index=True)`: the union of the columns, every
      table's rows in turn, realigned by name; an empty list is a ValueError. */
  function Concat(ts: seq<Table>): (r: Result<Table, Error>)
    ensures ts == [] ==> r == Err(NothingToConcatenate)
    ensures ts != [] ==> r.Ok? && WellFormed(r.value)
    ensures r.Ok? ==> forall t, c :: t in ts && c in t.columns ==> c in r.value.columns
  {
    if ts == [] then Err(NothingToConcatenate)
    else
      var cols := UnionColumns([], ts);
      Ok(Table(cols, AllRows(ts, cols)))
  }

  lemma DistinctTail(cols: seq<string>)
    requires cols != [] && Distinct(cols)
    ensures Distinct(cols[1..]) && cols[0] !in cols[1..]
  {
    forall i, j | 0 <= i < j < |cols[1..]|
      ensures cols[1..][i] != cols[1..][j]
    {
      assert cols[1..][i] == cols[i + 1] && cols[1..][j] == cols[j + 1];
    }
  }

  lemma {:induction false} AddNewDisjoint(acc: seq<string>, cols: seq<string>)
    requires Distinct(cols)
    requires forall c :: c in cols ==> c !in acc
    ensures AddNew(acc, cols) == acc + cols
    decreases |cols|
  {
    if cols != [] {
      assert cols[0] in cols;
      DistinctTail(cols);
      DisjointStep(acc, cols);
      AddNewDisjoint(acc + [cols[0]], cols[1..]);
      AppendRest(acc, cols);
    }
  }

  lemma AppendRest(acc: seq<string>, cols: seq<string>)
    requires cols != []
    ensures acc + [cols[0]] + cols[1..] == acc + cols
  {
    assert cols == [cols[0]] + cols[1..];
  }

  /** The columns after the first stay clear of `acc` once the first is added to it. */
  lemma DisjointStep(acc: seq<string>, cols: seq<string>)
    requires cols != [] && cols[0] !in cols[1..]
    requires forall c :: c in cols ==> c !in acc
    ensures forall c :: c in cols[1..] ==> c !in acc + [cols[0]]
  {
    forall c | c in cols[1..]
      ensures c !in acc + [cols[0]]
    {
      assert c in cols;
    }
  }

  lemma {:induction false} AddNewPresent(acc: seq<string>, cols: seq<string>)
    requires forall c :: c in cols ==> c in acc
    ensures AddNew(acc, cols) == acc
    decreases |cols|
  {
    if cols != [] {
      AddNewPresent(acc, cols[1..]);
    }
  }

  lemma {:induction false} UnionSame(acc: seq<string>, ts: seq<Table>)
    requires forall t :: t in ts ==> forall c :: c in t.columns ==> c in acc
    ensures UnionColumns(acc, ts) == acc
    decreases |ts|
  {
    if ts != [] {
      AddNewPresent(acc, ts[0].columns);
      UnionSame(acc, ts[1..]);
    }
  }

  lemma {:induction false} AllRowsSame(ts: seq<Table>, cols: seq<string>)
    requires Distinct(cols)
    requires forall t :: t in ts ==> t.columns == cols && WellFormed(t)
    ensures AllRows(ts, cols) == Rows(ts)
  {
    if ts != [] {
      assert ts[0] in ts;
      var head := Realign(ts[0], cols);
      forall i | 0 <= i < |ts[0].rows|
        ensures head[i] == ts[0].rows[i]
      {
        ProjectSelf(cols, ts[0].rows[i]);
      }
      assert head == ts[0].rows;
      forall t | t in ts[1..]
        ensures t.columns == cols && WellFormed(t)
      {
        assert t in ts;
      }
      AllRowsSame(ts[1..], cols);
    }
  }

  /** Concatenating tables that share one list of distinct column names
      keeps those columns and appends the rows, unchanged and in order. */
  lemma ConcatUniform(ts: seq<Table>, cols: seq<string>)
    requires ts != [] && Distinct(cols)
    requires forall t :: t in ts ==> t.columns == cols && WellFormed(t)
    ensures Concat(ts) == Ok(Table(cols, Rows(ts)))
  {
    AddNewDisjoint([], cols);
    assert [] + cols == cols;
    UnionSame(cols, ts[1..]);
    AllRowsSame(ts, cols);
  }

  /** The number of rows of all tables together. */
  function RowCount(ts: seq<Table>): nat
  {
    if ts == [] then 0 else |ts[0].rows| + RowCount(ts[1..])
  }

  /** The rows before table `k`, counted from the second table on. */
  lemma PrefixCount(ts: seq<Table>, k: nat)
    requires 0 < k <= |ts|
    ensures RowCount(ts[..k]) == |ts[0].rows| + RowCount(ts[1..][..k - 1])
  {
    assert ts[..k][1..] == ts[1..][..k - 1];
  }

  /** The tables before `k` and table `k` itself hold no more rows than all of them. */
  lemma {:induction false} PrefixBound(ts: seq<Table>, k: nat)
    requires k < |ts|
    ensures RowCount(ts[..k]) + |ts[k].rows| <= RowCount(ts)
  {
    if k == 0 {
      assert ts[..k] == [];
    } else {
      PrefixCount(ts, k);
      PrefixBound(ts[1..], k - 1);
    }
  }

  /** Row `i` of table `k` lands after the rows of the tables before it,
      realigned to `cols`. */
  lemma {:induction false} AllRowAt(ts: seq<Table>, cols: seq<string>, k: nat, i: nat)
    requires k < |ts| && i < |ts[k].rows|
    ensures RowCount(ts[..k]) + i < |AllRows(ts, cols)|
    ensures AllRows(ts, cols)[RowCount(ts[..k]) + i] == Project(ts[k].columns, ts[k].rows[i], cols)
  {
    AllRowsCount(ts, cols);
    PrefixBound(ts, k);
    if k == 0 {
      assert ts[..k] == [];
      assert AllRows(ts, cols)[i] == Realign(ts[0], cols)[i];
    } else {
      PrefixCount(ts, k);
      AllRowAt(ts[1..], cols, k - 1, i);
    }
  }

  lemma {:induction false} AllRowsCount(ts: seq<Table>, cols: seq<string>)
    ensures |AllRows(ts, cols)| == RowCount(ts)
  {
    if ts != [] {
      AllRowsCount(ts[1..], cols);
    }
  }

  /** `pd.concat(ts, ignore_index=True)` in full: the columns are the union
      of the tables' columns in order of first appearance, no name twice;
      there is one row per input row; and row `i` of table `k` sits after
      all rows of the tables before it, holding that row's value under
      each column it has and `Null` under each column it lacks. */
  lemma ConcatSpec(ts: seq<Table>)
    requires ts != []
    ensures Concat(ts).Ok?
    ensures Concat(ts).value.columns == UnionColumns([], ts) && Distinct(Concat(ts).value.columns)
    ensures |Concat(ts).value.rows| == RowCount(ts)
    ensures forall k :: 0 <= k < |ts| ==> RowCount(ts[..k]) + |ts[k].rows| <= RowCount(ts)
    ensures forall k, i :: 0 <= k < |ts| && 0 <= i < |ts[k].rows| ==>
      Concat(ts).value.rows[RowCount(ts[..k]) + i] == Project(ts[k].columns, ts[k].rows[i], Concat(ts).value.columns)
  {
    var cols := UnionColumns([], ts);
    UnionColumnsDistinct([], ts);
    AllRowsCount(ts, cols);
    forall k | 0 <= k < |ts|
      ensures RowCount(ts[..k]) + |ts[k].rows| <= RowCount(ts)
    {
      PrefixBound(ts, k);
    }
    forall k, i | 0 <= k < |ts| && 0 <= i < |ts[k].rows|
      ensures AllRows(ts, cols)[RowCount(ts[..k]) + i] == Project(ts[k].columns, ts[k].rows[i], cols)
    {
      AllRowAt(ts, cols, k, i);
    }
    assert Concat(ts).value == Table(cols, AllRows(ts, cols));
  }

  /** Row `i` of table `k` in the concatenation. */
  lemma ConcatAt(ts: seq<Table>, k: nat, i: nat)
    requires k < |ts| && i < |ts[k].rows|
    ensures Concat(ts).Ok? && Distinct(Concat(ts).value.columns)
    ensures RowCount(ts[..k]) + i < |Concat(ts).value.rows|
    ensures Concat(ts).value.rows[RowCount(ts[..k]) + i] == Project(ts[k].columns, ts[k].rows[i], Concat(ts).value.columns)
  {
    UnionColumnsDistinct([], ts);
    AllRowAt(ts, UnionColumns([], ts), k, i);
  }

  /** Names that one table has are columns of the concatenation. */
  lemma ConcatKeeps(ts: seq<Table>, k: nat, names: seq<string>)
    requires k < |ts| && forall c :: c in names ==> c in ts[k].columns
    ensures Concat(ts).Ok? && forall c :: c in names ==> c in Concat(ts).value.columns
  {
    assert ts[k] in ts;
  }

  /** Reading a realigned row under one of its (distinct) target columns
      reads the original row under that name. */
  lemma CellProject(from: seq<string>, row: Row, cols: seq<string>, c: string)
    requires Distinct(cols) && c in cols
    ensures Cell(cols, Project(from, row, cols), c) == Cell(from, row, c)
  {
    var j := IndexOf(cols, c);
  }

  /** One entry of a dictionary of tables. */
  datatype Entry = Entry(name: string, table: Table)

  /** A Python dict from names to tables, in insertion order. */
  type Dict = seq<Entry>

  function Names(d: Dict): (ns: seq<string>)
    ensures |ns| == |d| && forall i :: 0 <= i < |d| ==> ns[i] == d[i].name
  {
    seq(|d|, i requires 0 <= i < |d| => d[i].name)
  }

  /** Dictionary keys are unique. */
  predicate DistinctNames(d: Dict)
  {
    forall i, j :: 0 <= i < j < |d| ==> d[i].name != d[j].name
  }
}
