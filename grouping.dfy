/** `DataFrame.groupby(col)` as the split script iterates it: the distinct
    non-missing values of the column, in ascending order, each with the
    rows holding it, in their original order. Rows whose key is missing
    belong to no group. */
module Grouping {
  import opened Seqs
  import opened Tables

  /** Lexicographic order on strings, character by character; a proper
      prefix comes first. */
  predicate LessStr(a: string, b: string)
    decreases |a|
  {
    b != [] && (a == [] || a[0] < b[0] || (a[0] == b[0] && LessStr(a[1..], b[1..])))
  }

  lemma {:induction false} LessStrIrreflexive(a: string)
    ensures !LessStr(a, a)
    decreases |a|
  {
    if a != [] {
      LessStrIrreflexive(a[1..]);
    }
  }

  lemma {:induction false} LessStrTransitive(a: string, b: string, c: string)
    requires LessStr(a, b) && LessStr(b, c)
    ensures LessStr(a, c)
    decreases |a|
  {
    if a != [] && a[0] == b[0] && b[0] == c[0] {
      LessStrTransitive(a[1..], b[1..], c[1..]);
    }
  }

  lemma {:induction false} LessStrTotal(a: string, b: string)
    requires a != b
    ensures LessStr(a, b) || LessStr(b, a)
    decreases |a|
  {
    if a != [] && b != [] && a[0] == b[0] {
      assert a == [a[0]] + a[1..] && b == [b[0]] + b[1..];
      LessStrTotal(a[1..], b[1..]);
    }
  }

  predicate IsNumber(v: Value) { v.Int? || v.Real? }

  function Num(v: Value): real
    requires IsNumber(v)
  {
    if v.Int? then v.i as real else v.r
  }

  /** The order in which `groupby` visits keys: numbers by value, text
      lexicographically. A column mixing numbers and text is placed numbers
      first (pandas refuses to sort it); an integer and a float of equal
      value put the integer first. */
  predicate Less(a: Value, b: Value)
  {
    if IsNumber(a) && IsNumber(b) then Num(a) < Num(b) || (Num(a) == Num(b) && a.Int? && b.Real?)
    else if a.Str? && b.Str? then LessStr(a.s, b.s)
    else IsNumber(a) && b.Str?
  }

  /** `Less` is a strict total order on the values a key can take. */
  lemma LessOrder(a: Value, b: Value, c: Value)
    ensures !Less(a, a)
    ensures Less(a, b) && Less(b, c) ==> Less(a, c)
    ensures a != b && a != Null && b != Null ==> Less(a, b) || Less(b, a)
  {
    if a.Str? {
      LessStrIrreflexive(a.s);
      if b.Str? && c.Str? && LessStr(a.s, b.s) && LessStr(b.s, c.s) {
        LessStrTransitive(a.s, b.s, c.s);
      }
      if b.Str? && a != b {
        LessStrTotal(a.s, b.s);
      }
    }
  }

  predicate Sorted(ks: seq<Value>)
  {
    forall i, j :: 0 <= i < j < |ks| ==> Less(ks[i], ks[j])
  }

  lemma SortedDistinct(ks: seq<Value>)
    requires Sorted(ks)
    ensures Distinct(ks)
  {
    forall i, j | 0 <= i < j < |ks|
      ensures ks[i] != ks[j]
    {
      LessOrder(ks[i], ks[j], ks[j]);
    }
  }

  /** `v` put into its place in `ks`, unless already there. */
  function Insert(v: Value, ks: seq<Value>): seq<Value>
  {
    if ks == [] then [v]
    else if v == ks[0] then ks
    else if Less(v, ks[0]) then [v] + ks
    else [ks[0]] + Insert(v, ks[1..])
  }

  /** Inserting adds exactly `v` and keeps a sorted sequence of non-missing
      values sorted. */
  lemma {:induction false} InsertSpec(v: Value, ks: seq<Value>)
    ensures forall x :: x in Insert(v, ks) <==> x == v || x in ks
    ensures v != Null && Sorted(ks) && Null !in ks ==> Sorted(Insert(v, ks))
  {
    if ks != [] && v != ks[0] && !Less(v, ks[0]) {
      var rest := ks[1..];
      InsertSpec(v, rest);
      assert ks == [ks[0]] + rest;
      if v != Null && Sorted(ks) && Null !in ks {
        var r := Insert(v, ks);
        var tail := Insert(v, rest);
        assert r == [ks[0]] + tail;
        LessOrder(v, ks[0], ks[0]);
        assert Less(ks[0], v);
        forall i, j | 0 <= i < j < |r|
          ensures Less(r[i], r[j])
        {
          if i == 0 {
            assert r[j] == tail[j - 1] && r[j] in tail;
            if r[j] != v {
              var k :| 0 <= k < |rest| && rest[k] == r[j];
              assert r[j] == ks[k + 1];
            }
          } else {
            assert r[i] == tail[i - 1] && r[j] == tail[j - 1];
          }
        }
      }
    } else if ks != [] && v != ks[0] && v != Null && Sorted(ks) && Null !in ks {
      var r := [v] + ks;
      forall i, j | 0 <= i < j < |r|
        ensures Less(r[i], r[j])
      {
        if i == 0 && j > 1 {
          LessOrder(v, ks[0], ks[j - 1]);
        }
      }
    }
  }

  /** The keys `groupby(col)` visits over the rows `xs`: every value the
      column holds, missing values dropped, duplicates merged, ascending. */
  function Keys(xs: seq<Row>, cols: seq<string>, col: string): seq<Value>
    decreases |xs|
  {
    if xs == [] then []
    else
      var ks := Keys(xs[..|xs| - 1], cols, col);
      var v := Cell(cols, xs[|xs| - 1], col);
      if v == Null then ks else Insert(v, ks)
  }

  /** The keys are sorted, never missing, each held by some row, and every
      non-missing value of the column is among them. */
  lemma {:induction false} KeysSpec(xs: seq<Row>, cols: seq<string>, col: string)
    ensures Sorted(Keys(xs, cols, col)) && Null !in Keys(xs, cols, col)
    ensures forall x :: x in xs && Cell(cols, x, col) != Null ==> Cell(cols, x, col) in Keys(xs, cols, col)
    ensures forall v :: v in Keys(xs, cols, col) ==> exists x :: x in xs && Cell(cols, x, col) == v
    decreases |xs|
  {
    if xs != [] {
      var init := xs[..|xs| - 1];
      var last := xs[|xs| - 1];
      KeysSpec(init, cols, col);
      assert xs == init + [last];
      var v := Cell(cols, last, col);
      if v != Null {
        InsertSpec(v, Keys(init, cols, col));
      }
      forall w | w in Keys(xs, cols, col)
        ensures exists x :: x in xs && Cell(cols, x, col) == w
      {
        if w != v {
          var x :| x in init && Cell(cols, x, col) == w;
          assert x in xs;
        }
      }
    }
  }

  /** The keys are pairwise distinct. */
  lemma KeysDistinct(xs: seq<Row>, cols: seq<string>, col: string)
    ensures Distinct(Keys(xs, cols, col))
  {
    KeysSpec(xs, cols, col);
    SortedDistinct(Keys(xs, cols, col));
  }

  /** The mask of the rows whose value under `col` is `k`. */
  function Match(cols: seq<string>, col: string, k: Value): Row -> bool
  {
    (x: Row) => Cell(cols, x, col) == k
  }

  /** The rows of group `k`: those holding `k` under `col`, in order. */
  function Group(xs: seq<Row>, cols: seq<string>, col: string, k: Value): seq<Row>
  {
    Filter(xs, Match(cols, col, k))
  }

  /** A group holds exactly the rows with its key, in their original order. */
  lemma GroupSpec(xs: seq<Row>, cols: seq<string>, col: string, k: Value)
    ensures forall x :: x in Group(xs, cols, col, k) <==> x in xs && Cell(cols, x, col) == k
    ensures IsSubsequence(Group(xs, cols, col, k), xs)
  {
    FilterMembers(xs, Match(cols, col, k));
    FilterIsSubsequence(xs, Match(cols, col, k));
  }
}
