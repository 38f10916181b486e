/** empsim_compiler.py: empirical fast-dm input files and simulated
    response files are normalised to one shape (subject, session, group,
    type, response, RT); the simulated rows are thinned by a fixed stride
    to the empirical row count. */
module EmpSim {
  import opened Wrappers
  import opened Seqs
  import opened Tables
  import Text

  /** A table as the CSV reader hands it over: one value per column in every row. */
  type Frame = t: Table | WellFormed(t) witness Table([], [])

  /** The columns read from an empirical file (`usecols`). */
  const UseCols: seq<string> := ["#subj_idx", "SESSION", "GROUP", "RESPONSE", "TIME"]

  /** The column order of both output files. */
  const DesiredOrder: seq<string> := ["subject", "session", "group", "type", "response", "RT"]

  // ---------------------------------------------------------------------
  // Subject and group values

  /** `x.lstrip('PT00').zfill(2)`: the argument of `lstrip` is a SET of
      characters, so every leading 'P', 'T' and '0' goes. */
  function NormalizeSubject(x: string): string
  {
    Text.ZFill(Text.LStrip(x, {'P', 'T', '0'}), 2)
  }

  /** A leading run of 'P', 'T' and '0' is dropped up to the first other
      character, and what is left is padded. */
  lemma NormalizeAfterRun(run: string, rest: string)
    requires forall i :: 0 <= i < |run| ==> run[i] in {'P', 'T', '0'}
    requires rest != [] && rest[0] !in {'P', 'T', '0'}
    ensures NormalizeSubject(run + rest) == Text.ZFill(rest, 2)
  {
    Text.StripRun(run, rest, {'P', 'T', '0'});
  }

  /** The study's ids lose "PT" and their leading zeros, keeping two digits. */
  lemma NormalizeSubject15()
    ensures NormalizeSubject("PT0015") == "15"
  {
    var run, rest := "PT00", "15";
    assert run + rest == "PT0015";
    NormalizeAfterRun(run, rest);
    assert Text.ZFill(rest, 2) == rest;
  }

  lemma NormalizeSubject05()
    ensures NormalizeSubject("PT0005") == "05"
  {
    var run, rest := "PT000", "5";
    assert run + rest == "PT0005";
    NormalizeAfterRun(run, rest);
    var zero := Text.Zeros(1);
    assert zero == "0";
    assert Text.ZFill(rest, 2) == zero + rest;
  }

  /** A zero inside the number stops the strip. */
  lemma NormalizeSubject100()
    ensures NormalizeSubject("PT0100") == "100"
  {
    var run, rest := "PT0", "100";
    assert run + rest == "PT0100";
    NormalizeAfterRun(run, rest);
    assert Text.ZFill(rest, 2) == rest;
  }

  /** The normalised id is at least two characters long (exactly the
      stripped length when that is longer), never starts with 'P' or 'T',
      and ends with what the strip left unless that carries a sign. */
  lemma NormalizeSubjectShape(x: string)
    ensures var l := Text.LStrip(x, {'P', 'T', '0'});
      |NormalizeSubject(x)| == (if |l| >= 2 then |l| else 2) &&
      NormalizeSubject(x)[0] != 'P' && NormalizeSubject(x)[0] != 'T' &&
      (l == [] || l[0] == '+' || l[0] == '-' || NormalizeSubject(x)[|NormalizeSubject(x)| - |l|..] == l)
  {
    var l := Text.LStrip(x, {'P', 'T', '0'});
    Text.ZFillShape(l, 2);
  }

  /** Normalising a normalised id changes nothing. */
  lemma NormalizeSubjectIdempotent(x: string)
    ensures NormalizeSubject(NormalizeSubject(x)) == NormalizeSubject(x)
  {
    NormalizePadded(Text.LStrip(x, {'P', 'T', '0'}));
  }

  /** Padding a text that does not start with 'P', 'T' or '0' gives a
      fixed point of the normalisation. */
  lemma NormalizePadded(l: string)
    requires l == [] || l[0] !in {'P', 'T', '0'}
    ensures NormalizeSubject(Text.ZFill(l, 2)) == Text.ZFill(l, 2)
  {
    if |l| >= 2 {
      NormalizeFixed(l);
    } else if l == [] {
      assert Text.ZFill(l, 2) == Text.Zeros(2);
      PaddedZeros();
    } else if l[0] == '+' || l[0] == '-' {
      var r := [l[0]] + Text.Zeros(1);
      assert Text.ZFill(l, 2) == r && r[0] == l[0];
      NormalizeFixed(r);
    } else {
      assert Text.ZFill(l, 2) == Text.Zeros(1) + l;
      PaddedDigit(l);
    }
  }

  /** An id of two or more characters that does not start with 'P', 'T'
      or '0' is already normalised. */
  lemma NormalizeFixed(r: string)
    requires |r| >= 2 && r[0] !in {'P', 'T', '0'}
    ensures NormalizeSubject(r) == r
  {
    assert Text.LStrip(r, {'P', 'T', '0'}) == r;
  }

  lemma PaddedZeros()
    ensures NormalizeSubject(Text.Zeros(2)) == Text.Zeros(2)
  {
    var z := Text.Zeros(2);
    assert z[1..] == Text.Zeros(1) && Text.Zeros(1)[1..] == [];
    assert Text.LStrip(z, {'P', 'T', '0'}) == [];
  }

  lemma PaddedDigit(l: string)
    requires |l| == 1 && l[0] !in {'P', 'T', '0', '+', '-'}
    ensures NormalizeSubject(Text.Zeros(1) + l) == Text.Zeros(1) + l
  {
    NormalizeAfterRun(Text.Zeros(1), l);
  }

  /** `.str.lower()` followed by `.replace({'probiotics': 'probiotic'})`. */
  function NormalizeGroup(s: string): string
  {
    var l := Text.Lower(s);
    if l == "probiotics" then "probiotic" else l
  }

  /** A normalised group is lower case, is never "probiotics", agrees with
      plain lowering on every other value, and is a fixed point. */
  lemma NormalizeGroupSpec(s: string)
    ensures forall i :: 0 <= i < |NormalizeGroup(s)| ==> !Text.IsUpper(NormalizeGroup(s)[i])
    ensures NormalizeGroup(s) != "probiotics"
    ensures Text.Lower(s) != "probiotics" ==> NormalizeGroup(s) == Text.Lower(s)
    ensures NormalizeGroup(s) == "probiotic" <==> Text.Lower(s) == "probiotics" || Text.Lower(s) == "probiotic"
    ensures NormalizeGroup(NormalizeGroup(s)) == NormalizeGroup(s)
  {
    Text.LowerIdempotent(s);
    if Text.Lower(s) == "probiotics" {
      assert Text.Lower("probiotic") == "probiotic";
    }
  }

  // ---------------------------------------------------------------------
  // Simulation file names

  /** The first position in `[from, n)` where `at` holds, as `re.search`
      reports the leftmost match. */
  function FirstAt(n: nat, from: nat, at: nat -> bool): (r: Option<nat>)
    decreases n - from
    ensures r.Some? ==> from <= r.value < n && at(r.value)
    ensures r.Some? ==> forall j :: from <= j < r.value ==> !at(j)
    ensures r.None? ==> forall j :: from <= j < n ==> !at(j)
  {
    if from >= n then None
    else if at(from) then Some(from)
    else FirstAt(n, from + 1, at)
  }

  /** `pt_` followed by a digit starts at `i`. */
  predicate PtAt(s: string, i: nat)
  {
    i + 3 < |s| && s[i] == 'p' && s[i + 1] == 't' && s[i + 2] == '_' && Text.IsDigit(s[i + 3])
  }

  /** `s` followed by a digit starts at `i`. */
  predicate SessionAt(s: string, i: nat)
  {
    i + 1 < |s| && s[i] == 's' && Text.IsDigit(s[i + 1])
  }

  function PtMatch(s: string): nat -> bool { (i: nat) => PtAt(s, i) }

  function SessionMatch(s: string): nat -> bool { (i: nat) => SessionAt(s, i) }

  /** The longest prefix of `s` made of digits (`\d+`, greedy). */
  function DigitRun(s: string): (r: string)
    ensures |r| <= |s| && r == s[..|r|]
    ensures forall i :: 0 <= i < |r| ==> Text.IsDigit(r[i])
    ensures |r| == |s| || !Text.IsDigit(s[|r|])
  {
    if s != [] && Text.IsDigit(s[0]) then [s[0]] + DigitRun(s[1..]) else []
  }

  /** `x[-2:]` */
  function LastTwo(x: string): string
  {
    if |x| <= 2 then x else x[|x| - 2..]
  }

  /** `re.search('pt_(\d+)', name).group(1)[-2:]`; no match is an AttributeError. */
  function SimSubject(name: string): Result<string, Error>
  {
    match FirstAt(|name|, 0, PtMatch(name))
    case None => Err(NoMatch("pt_(\\d+)"))
    case Some(k) => Ok(LastTwo(DigitRun(name[k + 3..])))
  }

  /** `re.search('s(\d)', name).group(1)`; no match is an AttributeError. */
  function SimSession(name: string): Result<string, Error>
  {
    match FirstAt(|name|, 0, SessionMatch(name))
    case None => Err(NoMatch("s(\\d)"))
    case Some(k) => Ok([name[k + 1]])
  }

  /** `name.split('_')[0].lower()` */
  function SimGroup(name: string): string
  {
    Text.Lower(Text.Split(name, '_')[0])
  }

  /** The subject is found iff some "pt_" is followed by a digit. */
  lemma SimSubjectFound(name: string)
    ensures SimSubject(name).Ok? <==> exists k :: 0 <= k < |name| && PtAt(name, k)
  {
    var m := FirstAt(|name|, 0, PtMatch(name));
    if m.Some? {
      assert PtMatch(name)(m.value);
    } else {
      forall k | 0 <= k < |name| ensures !PtAt(name, k) {
        assert !PtMatch(name)(k);
      }
    }
  }

  /** When the leftmost "pt_" + digit starts at `k` and its digit run ends
      at `e`, the subject is the last (at most) two digits of that run. */
  lemma SimSubjectAt(name: string, k: nat, e: nat)
    requires PtAt(name, k) && forall j :: 0 <= j < k ==> !PtAt(name, j)
    requires k + 3 < e <= |name| && forall j :: k + 3 <= j < e ==> Text.IsDigit(name[j])
    requires e == |name| || !Text.IsDigit(name[e])
    ensures SimSubject(name) == Ok(name[if e - 2 > k + 3 then e - 2 else k + 3..e])
  {
    var m := FirstAt(|name|, 0, PtMatch(name));
    assert PtMatch(name)(k);
    assert m == Some(k);
    var tail := name[k + 3..];
    var run := DigitRun(tail);
    assert run == name[k + 3..e];
  }

  /** The session is found iff some 's' is followed by a digit. */
  lemma SimSessionFound(name: string)
    ensures SimSession(name).Ok? <==> exists k :: 0 <= k < |name| && SessionAt(name, k)
  {
    var m := FirstAt(|name|, 0, SessionMatch(name));
    if m.Some? {
      assert SessionMatch(name)(m.value);
    } else {
      forall k | 0 <= k < |name| ensures !SessionAt(name, k) {
        assert !SessionMatch(name)(k);
      }
    }
  }

  /** The session is the single digit after the leftmost 's' that is followed by a digit. */
  lemma SimSessionAt(name: string, k: nat)
    requires SessionAt(name, k) && forall j :: 0 <= j < k ==> !SessionAt(name, j)
    ensures SimSession(name) == Ok([name[k + 1]])
  {
    assert SessionMatch(name)(k);
  }

  /** The group is the lowered text before the first '_' (all of the name
      when it has none). */
  lemma SimGroupSpec(name: string)
    ensures '_' !in name ==> SimGroup(name) == Text.Lower(name)
    ensures '_' in name ==> SimGroup(name) == Text.Lower(name[..Text.IndexOfChar(name, '_')])
    ensures '_' !in SimGroup(name)
  {
  }

  /** A simulation file of subject PT0015, session 1, probiotic group. */
  const ExampleName: string := "probiotic_pt_0015_s1_sim.dat"

  lemma ExampleSubject(name: string)
    requires name == ExampleName
    ensures SimSubject(name) == Ok("15")
  {
    ExampleSubjectFacts(name);
    SimSubjectAt(name, 10, 17);
  }

  /** Where "pt_" and its digits sit in the example name. */
  lemma ExampleSubjectFacts(name: string)
    requires name == ExampleName
    ensures forall j :: 0 <= j < 10 ==> !PtAt(name, j)
    ensures PtAt(name, 10) && (forall j :: 13 <= j < 17 ==> Text.IsDigit(name[j])) && !Text.IsDigit(name[17])
    ensures name[15..17] == "15"
  {
    forall j | 0 <= j < 10 ensures !PtAt(name, j) {
      assert name[..12] == "probiotic_pt";
      assert name[j + 1] == name[..12][j + 1];
    }
    assert name[15] == '1' && name[16] == '5';
  }

  lemma ExampleSession(name: string)
    requires name == ExampleName
    ensures SimSession(name) == Ok("1")
  {
    forall j | 0 <= j < 18 ensures !SessionAt(name, j) {
      assert name[..19] == "probiotic_pt_0015_s";
      assert name[j] == name[..19][j];
    }
    SimSessionAt(name, 18);
  }

  /** A name "<group>_<rest>" yields the lowered group, whatever follows. */
  lemma SimGroupOf(group: string, rest: string)
    requires '_' !in group
    ensures SimGroup(group + "_" + rest) == Text.Lower(group)
  {
    var name := group + "_" + rest;
    assert name[..|group|] == group;
    FirstIndexOfChar(name, '_', |group|);
    SimGroupSpec(name);
  }

  /** `IndexOfChar` finds the first occurrence. */
  lemma FirstIndexOfChar(s: string, c: char, i: nat)
    requires i < |s| && s[i] == c && forall j :: 0 <= j < i ==> s[j] != c
    ensures c in s && Text.IndexOfChar(s, c) == i
  {
  }

  // ---------------------------------------------------------------------
  // One empirical file

  predicate IsUseCol(c: string) { c in UseCols }

  /** The `usecols` columns in the order the file has them. */
  function InFileOrder(cols: seq<string>): seq<string>
  {
    Filter(cols, IsUseCol)
  }

  /** The rename map of `process_empirical_file`. */
  function RenameEmpirical(c: string): string
  {
    if c == "#subj_idx" then "subject"
    else if c == "SESSION" then "session"
    else if c == "GROUP" then "group"
    else if c == "RESPONSE" then "response"
    else if c == "TIME" then "RT"
    else c
  }

  function RenameAll(cols: seq<string>): (r: seq<string>)
    ensures |r| == |cols| && forall i :: 0 <= i < |cols| ==> r[i] == RenameEmpirical(cols[i])
  {
    seq(|cols|, i requires 0 <= i < |cols| => RenameEmpirical(cols[i]))
  }

  /** The subject lambda: `x.lstrip('PT00')` raises on anything but text. */
  function SubjectValue(v: Value): Result<Value, Error>
  {
    if v.Str? then Ok(Str(NormalizeSubject(v.s))) else Err(NotText("subject"))
  }

  /** `.replace({'probiotics': 'probiotic'})`: whole-value replacement. */
  function GroupValue(v: Value): Result<Value, Error>
  {
    Ok(if v == Str("probiotics") then Str("probiotic") else v)
  }

  /** What one group value becomes: lowered and mapped, or missing when it was not text. */
  function GroupOf(v: Value): Value
  {
    if v.Str? then Str(NormalizeGroup(v.s)) else Null
  }

  /** `process_empirical_file` on the table the reader produced. */
  function Empirical(parsed: Frame): Result<Table, Error>
  {
    match FirstMissing(parsed.columns, UseCols)
    case Some(n) => Err(MissingColumn(n))
    case None => Transform(Renamed(parsed))
  }

  /** The frame after `usecols` and the rename. */
  function Renamed(parsed: Frame): (r: Frame)
    requires FirstMissing(parsed.columns, UseCols).None?
  {
    FilterMembers(parsed.columns, IsUseCol);
    var kept := Select(parsed, InFileOrder(parsed.columns)).value;
    Table(RenameAll(kept.columns), kept.rows)
  }

  /** The value transforms and the type tag, on the renamed frame. */
  function Transform(renamed: Frame): Result<Table, Error>
  {
    match MapColumn(renamed, "subject", SubjectValue)
    case Err(e) => Err(e)
    case Ok(t1) =>
      match StrMap(t1, "group", Text.Lower)
      case Err(e) => Err(e)
      case Ok(t2) =>
        MapColumnFails(t2, "group", GroupValue);
        Ok(SetConstant(MapColumn(t2, "group", GroupValue).value, "type", Str("E")))
  }

  /** The steps of `process_empirical_file`, one column at a time. */
  method ProcessEmpiricalFile(parsed: Frame) returns (r: Result<Table, Error>)
    ensures r == Empirical(parsed)
  {
    var missing := FirstMissing(parsed.columns, UseCols);
    if missing.Some? {
      return Err(MissingColumn(missing.value));
    }
    FilterMembers(parsed.columns, IsUseCol);
    var df := Select(parsed, InFileOrder(parsed.columns)).value;
    df := Table(RenameAll(df.columns), df.rows);
    var subject := MapColumn(df, "subject", SubjectValue);
    if subject.Err? {
      return Err(subject.error);
    }
    var lowered := StrMap(subject.value, "group", Text.Lower);
    if lowered.Err? {
      return Err(lowered.error);
    }
    MapColumnFails(lowered.value, "group", GroupValue);
    df := MapColumn(lowered.value, "group", GroupValue).value;
    df := SetConstant(df, "type", Str("E"));
    return Ok(df);
  }

  /** Keeping the `usecols` columns keeps every cell under them. */
  lemma KeptCells(parsed: Frame)
    requires FirstMissing(parsed.columns, UseCols).None?
    ensures Select(parsed, InFileOrder(parsed.columns)).Ok?
    ensures var kept := Select(parsed, InFileOrder(parsed.columns)).value;
      (forall c :: c in kept.columns ==> c in UseCols) &&
      (forall c :: c in UseCols ==> c in kept.columns) &&
      forall i, c :: 0 <= i < |parsed.rows| && c in UseCols ==>
        Cell(kept.columns, kept.rows[i], c) == Cell(parsed.columns, parsed.rows[i], c)
  {
    FilterMembers(parsed.columns, IsUseCol);
    var kept := Select(parsed, InFileOrder(parsed.columns)).value;
    forall i, c | 0 <= i < |parsed.rows| && c in UseCols
      ensures Cell(kept.columns, kept.rows[i], c) == Cell(parsed.columns, parsed.rows[i], c)
    {
      assert kept.rows[i] in kept.rows;
      var j := IndexOf(kept.columns, c);
    }
  }

  /** Renaming the kept columns moves each cell to its new name. */
  lemma RenamedCells(cols: seq<string>, row: Row, c: string)
    requires forall c :: c in cols ==> c in UseCols
    requires |row| == |cols| && c in UseCols
    ensures Cell(RenameAll(cols), row, RenameEmpirical(c)) == Cell(cols, row, c)
  {
    var renamed := RenameAll(cols);
    if c in cols {
      var i := IndexOf(cols, c);
      forall j | 0 <= j < i ensures renamed[j] != RenameEmpirical(c) {
        assert cols[j] in cols;
        assert cols[..i][j] == cols[j];
        RenameInjective(cols[j], c);
      }
      IndexOfAt(renamed, RenameEmpirical(c), i);
    } else {
      forall j | 0 <= j < |cols| ensures renamed[j] != RenameEmpirical(c) {
        assert cols[j] in cols;
        RenameInjective(cols[j], c);
      }
    }
  }

  /** Two different columns of the file never get the same new name. */
  lemma RenameInjective(a: string, b: string)
    requires a in UseCols && b in UseCols && a != b
    ensures RenameEmpirical(a) != RenameEmpirical(b)
  {
  }

  /** After `usecols` and the rename, the columns are the five new names
      in file order, and there is no `type` column yet. */
  lemma RenamedColumns(parsed: Frame)
    requires FirstMissing(parsed.columns, UseCols).None?
    ensures var r := Renamed(parsed);
      r.columns == RenameAll(InFileOrder(parsed.columns)) && |r.rows| == |parsed.rows| &&
      "subject" in r.columns && "session" in r.columns && "group" in r.columns &&
      "response" in r.columns && "RT" in r.columns && "type" !in r.columns
  {
    KeptCells(parsed);
    var kept := Select(parsed, InFileOrder(parsed.columns)).value;
    var r := Renamed(parsed);
    forall c | c in UseCols ensures RenameEmpirical(c) in r.columns {
      var j := IndexOf(kept.columns, c);
      assert r.columns[j] == RenameEmpirical(c);
    }
    assert RenameEmpirical(UseCols[0]) in r.columns;
    assert RenameEmpirical(UseCols[1]) in r.columns;
    assert RenameEmpirical(UseCols[2]) in r.columns;
    assert RenameEmpirical(UseCols[3]) in r.columns;
    assert RenameEmpirical(UseCols[4]) in r.columns;
    forall j | 0 <= j < |r.columns| ensures r.columns[j] != "type" {
      assert kept.columns[j] in kept.columns;
      RenameNotType(kept.columns[j]);
    }
  }

  lemma RenameNotType(a: string)
    requires a in UseCols
    ensures RenameEmpirical(a) != "type"
  {
  }

  /** After the rename, each of the five columns holds the values of its old column. */
  lemma RenamedCell(parsed: Frame, i: nat, c: string)
    requires FirstMissing(parsed.columns, UseCols).None?
    requires i < |parsed.rows| && c in UseCols
    ensures i < |Renamed(parsed).rows|
    ensures Cell(Renamed(parsed).columns, Renamed(parsed).rows[i], RenameEmpirical(c)) == Cell(parsed.columns, parsed.rows[i], c)
  {
    KeptCells(parsed);
    var kept := Select(parsed, InFileOrder(parsed.columns)).value;
    assert kept.rows[i] in kept.rows;
    RenamedCells(kept.columns, kept.rows[i], c);
  }

  /** What the value transforms do to the cell of row `i` under `c`. */
  lemma TransformCell(renamed: Frame, i: nat, c: string)
    requires Transform(renamed).Ok? && i < |renamed.rows|
    ensures i < |Transform(renamed).value.rows|
    ensures c == "subject" ==> Cell(renamed.columns, renamed.rows[i], "subject").Str?
    ensures var r := Transform(renamed).value; var v := Cell(renamed.columns, renamed.rows[i], c);
      Cell(r.columns, r.rows[i], c) ==
        if c == "type" then Str("E")
        else if c == "subject" then Str(NormalizeSubject(v.s))
        else if c == "group" then GroupOf(v)
        else v
  {
    var t1 := MapColumn(renamed, "subject", SubjectValue).value;
    MapColumnCells(renamed, "subject", SubjectValue, i, c);
    var t2 := StrMap(t1, "group", Text.Lower).value;
    StrMapCells(t1, "group", Text.Lower, i, c);
    MapColumnFails(t2, "group", GroupValue);
    var t3 := MapColumn(t2, "group", GroupValue).value;
    MapColumnCells(t2, "group", GroupValue, i, c);
    SetConstantCells(t3, "type", Str("E"), i, c);
    MapColumnCells(renamed, "subject", SubjectValue, i, "subject");
  }

  /** The transforms keep the columns and add `type` at the end when it is new. */
  lemma TransformColumns(renamed: Frame)
    requires Transform(renamed).Ok? && "type" !in renamed.columns
    ensures var r := Transform(renamed).value;
      WellFormed(r) && |r.rows| == |renamed.rows| && r.columns == renamed.columns + ["type"]
  {
    var t1 := MapColumn(renamed, "subject", SubjectValue).value;
    var t2 := StrMap(t1, "group", Text.Lower).value;
    MapColumnFails(t2, "group", GroupValue);
    var t3 := MapColumn(t2, "group", GroupValue).value;
    assert t3.columns == renamed.columns && |t3.rows| == |renamed.rows|;
    SetConstantAppends(t3, "type", Str("E"));
  }

  /** A processed empirical file: one row per input row, the five wanted
      columns under their new names followed by `type`; the subject is the
      normalised id, the group the lowered and mapped group (missing where
      it was not text), session, response and RT are carried over, and every
      row is tagged 'E'. */
  lemma EmpiricalSpec(parsed: Frame)
    requires Empirical(parsed).Ok?
    ensures var r := Empirical(parsed).value;
      WellFormed(r) && |r.rows| == |parsed.rows| &&
      r.columns == RenameAll(InFileOrder(parsed.columns)) + ["type"] &&
      (forall c :: c in DesiredOrder ==> c in r.columns)
    ensures var r := Empirical(parsed).value;
      forall i :: 0 <= i < |parsed.rows| ==>
        Cell(parsed.columns, parsed.rows[i], "#subj_idx").Str? &&
        Cell(r.columns, r.rows[i], "subject") == Str(NormalizeSubject(Cell(parsed.columns, parsed.rows[i], "#subj_idx").s)) &&
        Cell(r.columns, r.rows[i], "session") == Cell(parsed.columns, parsed.rows[i], "SESSION") &&
        Cell(r.columns, r.rows[i], "group") == GroupOf(Cell(parsed.columns, parsed.rows[i], "GROUP")) &&
        Cell(r.columns, r.rows[i], "response") == Cell(parsed.columns, parsed.rows[i], "RESPONSE") &&
        Cell(r.columns, r.rows[i], "RT") == Cell(parsed.columns, parsed.rows[i], "TIME") &&
        Cell(r.columns, r.rows[i], "type") == Str("E")
  {
    EmpiricalColumns(parsed);
    forall i | 0 <= i < |parsed.rows|
      ensures var r := Empirical(parsed).value;
        Cell(parsed.columns, parsed.rows[i], "#subj_idx").Str? &&
        Cell(r.columns, r.rows[i], "subject") == Str(NormalizeSubject(Cell(parsed.columns, parsed.rows[i], "#subj_idx").s)) &&
        Cell(r.columns, r.rows[i], "session") == Cell(parsed.columns, parsed.rows[i], "SESSION") &&
        Cell(r.columns, r.rows[i], "group") == GroupOf(Cell(parsed.columns, parsed.rows[i], "GROUP")) &&
        Cell(r.columns, r.rows[i], "response") == Cell(parsed.columns, parsed.rows[i], "RESPONSE") &&
        Cell(r.columns, r.rows[i], "RT") == Cell(parsed.columns, parsed.rows[i], "TIME") &&
        Cell(r.columns, r.rows[i], "type") == Str("E")
    {
      EmpiricalRow(parsed, i);
    }
  }

  lemma EmpiricalColumns(parsed: Frame)
    requires Empirical(parsed).Ok?
    ensures var r := Empirical(parsed).value;
      WellFormed(r) && |r.rows| == |parsed.rows| &&
      r.columns == RenameAll(InFileOrder(parsed.columns)) + ["type"] &&
      (forall c :: c in DesiredOrder ==> c in r.columns)
  {
    RenamedColumns(parsed);
    var renamed := Renamed(parsed);
    TransformColumns(renamed);
    var r := Empirical(parsed).value;
    forall c | c in DesiredOrder
      ensures c in r.columns
    {
      if c == "type" {
        assert r.columns[|renamed.columns|] == c;
      } else {
        assert c in renamed.columns;
      }
    }
  }

  lemma EmpiricalRow(parsed: Frame, i: nat)
    requires Empirical(parsed).Ok? && i < |parsed.rows|
    ensures var r := Empirical(parsed).value;
      i < |r.rows| &&
      Cell(parsed.columns, parsed.rows[i], "#subj_idx").Str? &&
        Cell(r.columns, r.rows[i], "subject") == Str(NormalizeSubject(Cell(parsed.columns, parsed.rows[i], "#subj_idx").s)) &&
        Cell(r.columns, r.rows[i], "session") == Cell(parsed.columns, parsed.rows[i], "SESSION") &&
        Cell(r.columns, r.rows[i], "group") == GroupOf(Cell(parsed.columns, parsed.rows[i], "GROUP")) &&
        Cell(r.columns, r.rows[i], "response") == Cell(parsed.columns, parsed.rows[i], "RESPONSE") &&
        Cell(r.columns, r.rows[i], "RT") == Cell(parsed.columns, parsed.rows[i], "TIME") &&
        Cell(r.columns, r.rows[i], "type") == Str("E")
  {
    RenamedColumns(parsed);
    var renamed := Renamed(parsed);
    RenamedCell(parsed, i, "#subj_idx");
    RenamedCell(parsed, i, "SESSION");
    RenamedCell(parsed, i, "GROUP");
    RenamedCell(parsed, i, "RESPONSE");
    RenamedCell(parsed, i, "TIME");
    TransformCell(renamed, i, "subject");
    TransformCell(renamed, i, "session");
    TransformCell(renamed, i, "group");
    TransformCell(renamed, i, "response");
    TransformCell(renamed, i, "RT");
    TransformCell(renamed, i, "type");
  }

  /** The transforms fail exactly when some subject is not text, or when
      the group column has rows but no text at all. */
  lemma TransformFails(renamed: Frame)
    requires "subject" in renamed.columns && "group" in renamed.columns
    ensures Transform(renamed).Err? <==>
      (exists i :: 0 <= i < |renamed.rows| && !Cell(renamed.columns, renamed.rows[i], "subject").Str?) ||
      (renamed.rows != [] && forall i :: 0 <= i < |renamed.rows| ==> !Cell(renamed.columns, renamed.rows[i], "group").Str?)
  {
    MapColumnFails(renamed, "subject", SubjectValue);
    var m := MapColumn(renamed, "subject", SubjectValue);
    if m.Ok? {
      forall i | 0 <= i < |renamed.rows|
        ensures Cell(m.value.columns, m.value.rows[i], "group") == Cell(renamed.columns, renamed.rows[i], "group")
      {
        MapColumnCells(renamed, "subject", SubjectValue, i, "group");
      }
      var t2 := StrMap(m.value, "group", Text.Lower);
      if t2.Ok? {
        MapColumnFails(t2.value, "group", GroupValue);
      }
    }
  }

  /** An empirical file fails exactly when a wanted column is missing
      (ValueError from `usecols`), when some subject is not text (the
      `lstrip` lambda raises), or when the group column has rows but no text
      at all (the `.str` accessor raises). */
  lemma EmpiricalFails(parsed: Frame)
    ensures Empirical(parsed).Err? <==>
      FirstMissing(parsed.columns, UseCols).Some? ||
      (exists i :: 0 <= i < |parsed.rows| && !Cell(parsed.columns, parsed.rows[i], "#subj_idx").Str?) ||
      (parsed.rows != [] && forall i :: 0 <= i < |parsed.rows| ==> !Cell(parsed.columns, parsed.rows[i], "GROUP").Str?)
  {
    if FirstMissing(parsed.columns, UseCols).None? {
      var renamed := Renamed(parsed);
      SubjectAndGroupMoved(parsed);
      TransformFails(renamed);
      assert Empirical(parsed) == Transform(renamed);
    }
  }

  /** The renamed frame has `subject` and `group`, holding the old
      `#subj_idx` and `GROUP` values. */
  lemma SubjectAndGroupMoved(parsed: Frame)
    requires FirstMissing(parsed.columns, UseCols).None?
    ensures var renamed := Renamed(parsed);
      "subject" in renamed.columns && "group" in renamed.columns && |renamed.rows| == |parsed.rows| &&
      forall i :: 0 <= i < |parsed.rows| ==>
        Cell(renamed.columns, renamed.rows[i], "subject") == Cell(parsed.columns, parsed.rows[i], "#subj_idx") &&
        Cell(renamed.columns, renamed.rows[i], "group") == Cell(parsed.columns, parsed.rows[i], "GROUP")
  {
    RenamedColumns(parsed);
    var renamed := Renamed(parsed);
    forall i | 0 <= i < |parsed.rows|
      ensures Cell(renamed.columns, renamed.rows[i], "subject") == Cell(parsed.columns, parsed.rows[i], "#subj_idx")
      ensures Cell(renamed.columns, renamed.rows[i], "group") == Cell(parsed.columns, parsed.rows[i], "GROUP")
    {
      RenamedCell(parsed, i, "#subj_idx");
      RenamedCell(parsed, i, "GROUP");
    }
  }

  // ---------------------------------------------------------------------
  // One simulated file

  /** The columns a simulated file ends with. */
  const SimulatedColumns: seq<string> := ["response", "RT", "subject", "session", "group", "type"]

  /** `pd.read_csv(..., header=None, names=['response', 'RT'])` on the
      value pairs of the file. */
  function SimulatedBase(pairs: seq<(Value, Value)>): (t: Frame)
    ensures t.columns == ["response", "RT"] && |t.rows| == |pairs|
  {
    Table(["response", "RT"], seq(|pairs|, i requires 0 <= i < |pairs| => [pairs[i].0, pairs[i].1]))
  }

  /** `process_simulated_file`: the file name gives subject, session and
      group, which are added to every row with type 'S'. */
  function Simulated(name: string, pairs: seq<(Value, Value)>): Result<Table, Error>
  {
    match SimSubject(name)
    case Err(e) => Err(e)
    case Ok(subject) =>
      match SimSession(name)
      case Err(e) => Err(e)
      case Ok(session) =>
        Ok(Tagged(pairs, Str(subject), Str(session), Str(SimGroup(name))))
  }

  /** The four column assignments of `process_simulated_file`. */
  function Tagged(pairs: seq<(Value, Value)>, subject: Value, session: Value, group: Value): Table
  {
    var df := SimulatedBase(pairs);
    var df := SetConstant(df, "subject", subject);
    var df := SetConstant(df, "session", session);
    var df := SetConstant(df, "group", group);
    SetConstant(df, "type", Str("S"))
  }

  /** Each assignment appends its column, so every row is the value pair
      followed by the three parsed values and the tag. */
  lemma TaggedRows(pairs: seq<(Value, Value)>, subject: Value, session: Value, group: Value)
    ensures var r := Tagged(pairs, subject, session, group);
      r.columns == SimulatedColumns && |r.rows| == |pairs| &&
      forall i :: 0 <= i < |pairs| ==> r.rows[i] == [pairs[i].0, pairs[i].1, subject, session, group, Str("S")]
  {
    var t0 := SimulatedBase(pairs);
    var t1 := Appended(t0, "subject", subject);
    var t2 := Appended(t1, "session", session);
    var t3 := Appended(t2, "group", group);
    var r := Appended(t3, "type", Str("S"));
    forall i | 0 <= i < |pairs|
      ensures r.rows[i] == [pairs[i].0, pairs[i].1, subject, session, group, Str("S")]
    {
      assert t0.rows[i] == [pairs[i].0, pairs[i].1];
    }
  }

  /** The steps of `process_simulated_file`. */
  method ProcessSimulatedFile(name: string, pairs: seq<(Value, Value)>) returns (r: Result<Table, Error>)
    ensures r == Simulated(name, pairs)
  {
    var subject := SimSubject(name);
    if subject.Err? {
      return Err(subject.error);
    }
    var session := SimSession(name);
    if session.Err? {
      return Err(session.error);
    }
    var group := SimGroup(name);
    var df := SimulatedBase(pairs);
    df := SetConstant(df, "subject", Str(subject.value));
    df := SetConstant(df, "session", Str(session.value));
    df := SetConstant(df, "group", Str(group));
    df := SetConstant(df, "type", Str("S"));
    return Ok(df);
  }

  /** A simulated file fails exactly when its name has no subject or no session. */
  lemma SimulatedFails(name: string, pairs: seq<(Value, Value)>)
    ensures Simulated(name, pairs).Err? <==> SimSubject(name).Err? || SimSession(name).Err?
  {
  }

  /** Otherwise every row is its value pair followed by the subject,
      session and group of the name and the tag 'S'. */
  lemma SimulatedRows(name: string, pairs: seq<(Value, Value)>)
    requires Simulated(name, pairs).Ok?
    ensures var r := Simulated(name, pairs).value;
      r.columns == SimulatedColumns && |r.rows| == |pairs| &&
      forall i :: 0 <= i < |pairs| ==>
        r.rows[i] == [pairs[i].0, pairs[i].1, Str(SimSubject(name).value), Str(SimSession(name).value), Str(SimGroup(name)), Str("S")]
  {
    TaggedRows(pairs, Str(SimSubject(name).value), Str(SimSession(name).value), Str(SimGroup(name)));
  }

  /** One `df[name] = v` on a frame without that column. */
  function Appended(t: Frame, name: string, v: Value): (r: Frame)
    requires name !in t.columns
    ensures r == SetConstant(t, name, v)
    ensures r.columns == t.columns + [name] && |r.rows| == |t.rows|
    ensures forall i :: 0 <= i < |t.rows| ==> r.rows[i] == t.rows[i] + [v]
  {
    SetConstantAppends(t, name, v);
    SetConstant(t, name, v)
  }
}
