/** functions.py: the outlier filter `remove_z_outliers` and the response
    tally `count_response_values`, over a dictionary of named tables. */
module Outliers {
  import opened Wrappers
  import opened Seqs
  import opened Tables

  /** Mean and standard deviation of a table's `rt` column, computed by the
      caller over the whole table as it was before any cut. */
  datatype Moments = Moments(mean: real, std: real)

  /** Default z-score threshold of `remove_z_outliers`. */
  const DefaultThreshold: real := 3.0

  /** Response times at or below this many seconds are dropped. */
  const RtFloor: real := 0.1

  /** The number in a cell; text and missing values have none. */
  function Numeric(v: Value): Option<real>
  {
    match v
    case Int(i) => Some(i as real)
    case Real(r) => Some(r)
    case _ => None
  }

  function Abs(x: real): real { if x < 0.0 then -x else x }

  /** `abs((rt - mean) / std) <= threshold`. A missing rt is NaN and a zero
      std makes the quotient infinite or NaN; every comparison with those is
      false, so such rows never pass. */
  predicate WithinZ(v: Value, m: Moments, threshold: real)
  {
    Numeric(v).Some? && m.std != 0.0 && Abs((Numeric(v).value - m.mean) / m.std) <= threshold
  }

  /** `rt > 0.1`; a missing rt never passes. */
  predicate AboveFloor(v: Value)
  {
    Numeric(v).Some? && Numeric(v).value > RtFloor
  }

  function ZMask(cols: seq<string>, m: Moments, threshold: real): Row -> bool
  {
    r => WithinZ(Cell(cols, r, "rt"), m, threshold)
  }

  function FloorMask(cols: seq<string>): Row -> bool
  {
    r => AboveFloor(Cell(cols, r, "rt"))
  }

  /** Both masks at once: the rows that survive the two passes. */
  function KeepMask(cols: seq<string>, m: Moments, threshold: real): Row -> bool
  {
    r => WithinZ(Cell(cols, r, "rt"), m, threshold) && AboveFloor(Cell(cols, r, "rt"))
  }

  predicate HasTextRt(t: Table)
  {
    exists r :: r in t.rows && Cell(t.columns, r, "rt").Str?
  }

  /** The first pass, `df[abs(z_scores) <= threshold]`: KeyError without an
      `rt` column, TypeError when `rt` holds text. */
  function ZPass(t: Table, m: Moments, threshold: real): Result<Table, Error>
  {
    if "rt" !in t.columns then Err(MissingColumn("rt"))
    else if HasTextRt(t) then Err(NotNumeric("rt"))
    else Ok(Table(t.columns, Filter(t.rows, ZMask(t.columns, m, threshold))))
  }

  /** The second pass, `z_filtered_data[z_filtered_data['rt'] > 0.1]`. */
  function FloorPass(t: Table): Table
  {
    Table(t.columns, Filter(t.rows, FloorMask(t.columns)))
  }

  /** What `remove_z_outliers` stores under one key. */
  function Cut(t: Table, m: Moments, threshold: real): Result<Table, Error>
  {
    match ZPass(t, m, threshold)
    case Err(e) => Err(e)
    case Ok(z) => Ok(FloorPass(z))
  }

  /** The two passes keep exactly the rows that satisfy both masks, in their
      original order, with their values untouched; the columns stay. The
      z-scores use the moments given for the table before either pass. */
  lemma CutKeeps(t: Table, m: Moments, threshold: real)
    requires "rt" in t.columns && !HasTextRt(t)
    ensures Cut(t, m, threshold).Ok?
    ensures Cut(t, m, threshold).value.columns == t.columns
    ensures Cut(t, m, threshold).value.rows == Filter(t.rows, KeepMask(t.columns, m, threshold))
  {
    FilterFilter(t.rows, ZMask(t.columns, m, threshold), FloorMask(t.columns), KeepMask(t.columns, m, threshold));
  }

  /** The cut fails exactly when the source raises: no `rt` column, or text in it. */
  lemma CutFails(t: Table, m: Moments, threshold: real)
    ensures Cut(t, m, threshold).Err? <==> "rt" !in t.columns || HasTextRt(t)
    ensures "rt" !in t.columns ==> Cut(t, m, threshold) == Err(MissingColumn("rt"))
  {
  }

  /** The survivors are an order-preserving subsequence of the input. */
  lemma CutSubsequence(t: Table, m: Moments, threshold: real)
    requires "rt" in t.columns && !HasTextRt(t)
    ensures |Cut(t, m, threshold).value.rows| <= |t.rows|
    ensures IsSubsequence(Cut(t, m, threshold).value.rows, t.rows)
  {
    CutKeeps(t, m, threshold);
    FilterIsSubsequence(t.rows, KeepMask(t.columns, m, threshold));
  }

  /** Every surviving row has rt > 0.1 and |rt - mean| / std <= threshold,
      and a row of the input that satisfies both is kept as often as it
      occurs. */
  lemma CutSurvivors(t: Table, m: Moments, threshold: real)
    requires "rt" in t.columns && !HasTextRt(t)
    ensures forall row :: row in Cut(t, m, threshold).value.rows ==>
      row in t.rows && WithinZ(Cell(t.columns, row, "rt"), m, threshold) && AboveFloor(Cell(t.columns, row, "rt"))
    ensures forall row :: row in t.rows && KeepMask(t.columns, m, threshold)(row) ==>
      multiset(Cut(t, m, threshold).value.rows)[row] == multiset(t.rows)[row]
  {
    CutKeeps(t, m, threshold);
    FilterMembers(t.rows, KeepMask(t.columns, m, threshold));
  }

  /** With the same moments, cutting an already cut table removes nothing more. */
  lemma CutIdempotent(t: Table, m: Moments, threshold: real)
    requires Cut(t, m, threshold).Ok?
    ensures Cut(Cut(t, m, threshold).value, m, threshold) == Cut(t, m, threshold)
  {
    CutFails(t, m, threshold);
    CutKeeps(t, m, threshold);
    var once := Cut(t, m, threshold).value;
    var keep := KeepMask(t.columns, m, threshold);
    FilterMembers(t.rows, keep);
    assert !HasTextRt(once);
    CutKeeps(once, m, threshold);
    FilterIdempotent(t.rows, keep);
  }

  /** A zero standard deviation (all rt equal) makes every z-score NaN or
      infinite, so the first pass drops every row. */
  lemma ZeroStdDropsAll(t: Table, m: Moments, threshold: real)
    requires "rt" in t.columns && !HasTextRt(t) && m.std == 0.0
    ensures Cut(t, m, threshold).value.rows == []
  {
    var z := Filter(t.rows, ZMask(t.columns, m, threshold));
    FilterMembers(t.rows, ZMask(t.columns, m, threshold));
  }

  /** `remove_z_outliers(dataset, threshold)`: a new dictionary with the same
      keys in the same order, each table replaced by its cut; the input is a
      value and is left as it was. The first failing table aborts the call. */
  method RemoveZOutliers(dataset: Dict, moments: map<string, Moments>, threshold: real := DefaultThreshold)
    returns (r: Result<Dict, Error>)
    requires forall e :: e in dataset ==> e.name in moments
    ensures r.Ok? <==> forall i :: 0 <= i < |dataset| ==>
      Cut(dataset[i].table, moments[dataset[i].name], threshold).Ok?
    ensures r.Ok? ==> |r.value| == |dataset| && forall i :: 0 <= i < |dataset| ==>
      r.value[i].name == dataset[i].name &&
      Ok(r.value[i].table) == Cut(dataset[i].table, moments[dataset[i].name], threshold)
    ensures r.Err? ==>
      exists i :: 0 <= i < |dataset| && Cut(dataset[i].table, moments[dataset[i].name], threshold) == Err(r.error) &&
        forall j :: 0 <= j < i ==> Cut(dataset[j].table, moments[dataset[j].name], threshold).Ok?
  {
    var z := dataset;
    var i := 0;
    while i < |dataset|
      invariant 0 <= i <= |dataset| && |z| == |dataset|
      invariant forall j :: 0 <= j < |z| ==> z[j].name == dataset[j].name
      invariant forall j :: 0 <= j < i ==>
        Cut(dataset[j].table, moments[dataset[j].name], threshold) == Ok(z[j].table)
    {
      var cut := Cut(dataset[i].table, moments[dataset[i].name], threshold);
      match cut {
        case Err(e) =>
          return Err(e);
        case Ok(t) =>
          z := z[i := Entry(dataset[i].name, t)];
      }
      i := i + 1;
    }
    return Ok(z);
  }

  /** The five response levels tallied, as the labels the source uses. */
  const ResponseLabels: seq<string> := ["0", "0.25", "0.5", "0.75", "1"]

  /** A row's response as a number (pandas matches 0 and 0.0 alike). */
  function ResponseOf(cols: seq<string>): Row -> Option<real>
  {
    r => Numeric(Cell(cols, r, "response"))
  }

  /** `counts.get(x, 0)`: the number of rows whose response equals `x`. */
  function CountResponse(t: Table, x: real): nat
  {
    CountKey(t.rows, ResponseOf(t.columns), Some(x))
  }

  /** The per-table dictionary built by `count_response_values`. */
  function Tally(t: Table): map<string, nat>
  {
    map["0" := CountResponse(t, 0.0), "0.25" := CountResponse(t, 0.25), "0.5" := CountResponse(t, 0.5),
        "0.75" := CountResponse(t, 0.75), "1" := CountResponse(t, 1.0)]
  }

  /** The tally has exactly the five response values as keys. */
  lemma TallyKeys(t: Table)
    ensures Tally(t).Keys == {"0", "0.25", "0.5", "0.75", "1"}
  {
  }

  datatype Counted = Counted(name: string, counts: map<string, nat>)

  /** Each entry of the tally is the number of rows holding that response. */
  lemma TallyCounts(t: Table, key: string, x: real)
    requires (key, x) in {("0", 0.0), ("0.25", 0.25), ("0.5", 0.5), ("0.75", 0.75), ("1", 1.0)}
    ensures Tally(t)[key] == |Filter(t.rows, r => Numeric(Cell(t.columns, r, "response")) == Some(x))|
  {
    FilterCount(t.rows, r => Numeric(Cell(t.columns, r, "response")) == Some(x), ResponseOf(t.columns), Some(x));
  }

  /** A response level that no row holds is counted 0. */
  lemma TallyAbsent(t: Table, x: real)
    requires forall r :: r in t.rows ==> Numeric(Cell(t.columns, r, "response")) != Some(x)
    ensures CountResponse(t, x) == 0
  {
    CountKeyAbsent(t.rows, ResponseOf(t.columns), Some(x));
  }

  /** The five levels are distinct, so their counts never add up to more
      than the table's rows. */
  lemma TallyBounded(t: Table)
    ensures Tally(t)["0"] + Tally(t)["0.25"] + Tally(t)["0.5"] + Tally(t)["0.75"] + Tally(t)["1"] <= |t.rows|
  {
    var ks: seq<Option<real>> := [Some(0.0), Some(0.25), Some(0.5), Some(0.75), Some(1.0)];
    var f := ResponseOf(t.columns);
    SumCountsDistinct(t.rows, f, ks);
    assert |ks[1..][1..][1..][1..][1..]| == 0;
    assert SumCounts(t.rows, f, ks[1..][1..][1..][1..]) == CountResponse(t, 1.0);
    assert SumCounts(t.rows, f, ks[1..][1..][1..]) == CountResponse(t, 0.75) + CountResponse(t, 1.0);
    assert SumCounts(t.rows, f, ks[1..][1..]) == CountResponse(t, 0.5) + CountResponse(t, 0.75) + CountResponse(t, 1.0);
    assert SumCounts(t.rows, f, ks[1..]) ==
      CountResponse(t, 0.25) + CountResponse(t, 0.5) + CountResponse(t, 0.75) + CountResponse(t, 1.0);
  }

  /** `count_response_values(datasets)`: one tally per key, in key order;
      a table without a `response` column raises KeyError. */
  method CountResponseValues(datasets: Dict) returns (r: Result<seq<Counted>, Error>)
    ensures r.Ok? <==> forall i :: 0 <= i < |datasets| ==> "response" in datasets[i].table.columns
    ensures r.Ok? ==> |r.value| == |datasets| && forall i :: 0 <= i < |datasets| ==>
      r.value[i].name == datasets[i].name && r.value[i].counts == Tally(datasets[i].table)
    ensures r.Err? ==> r.error == MissingColumn("response")
  {
    var counts: seq<Counted> := [];
    for i := 0 to |datasets|
      invariant |counts| == i
      invariant forall j :: 0 <= j < i ==> "response" in datasets[j].table.columns
      invariant forall j :: 0 <= j < i ==> counts[j] == Counted(datasets[j].name, Tally(datasets[j].table))
    {
      var t := datasets[i].table;
      if "response" !in t.columns {
        return Err(MissingColumn("response"));
      }
      var tally := Counted(datasets[i].name, Tally(t));
      counts := counts + [tally];
    }
    return Ok(counts);
  }
}
