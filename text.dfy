/** Python `str` methods used by the scripts, with their exact semantics on
    sequences of characters: `lower`, `strip`/`lstrip`/`rstrip` with a set of
    characters, `zfill`, `replace`, `join`, `split` on one character,
    `endswith`, and `str()` of an integer. */
module Text {

  predicate IsUpper(c: char) { 'A' <= c <= 'Z' }

  predicate IsDigit(c: char) { '0' <= c <= '9' }

  function LowerChar(c: char): (r: char)
    ensures !IsUpper(r)
    ensures IsUpper(c) ==> r as int == c as int + 32
    ensures !IsUpper(c) ==> r == c
  {
    if IsUpper(c) then (c as int + 32) as char else c
  }

  /** `s.lower()`, for the ASCII letters. */
  function Lower(s: string): (r: string)
    ensures |r| == |s|
    ensures forall i :: 0 <= i < |s| ==> r[i] == LowerChar(s[i])
  {
    seq(|s|, i requires 0 <= i < |s| => LowerChar(s[i]))
  }

  /** Lowering twice is lowering once, and a lowered string has no upper-case letter. */
  lemma LowerIdempotent(s: string)
    ensures Lower(Lower(s)) == Lower(s)
    ensures forall i :: 0 <= i < |Lower(s)| ==> !IsUpper(Lower(s)[i])
  {
  }

  /** `s.lstrip(chars)`: drops the longest prefix made only of characters in `cs`. */
  function LStrip(s: string, cs: set<char>): (r: string)
    ensures |r| <= |s| && r == s[|s| - |r|..]
    ensures forall i :: 0 <= i < |s| - |r| ==> s[i] in cs
    ensures r == [] || r[0] !in cs
  {
    if s != [] && s[0] in cs then LStrip(s[1..], cs) else s
  }

  /** `s.rstrip(chars)`: drops the longest suffix made only of characters in `cs`. */
  function RStrip(s: string, cs: set<char>): (r: string)
    ensures |r| <= |s| && r == s[..|r|]
    ensures forall i :: |r| <= i < |s| ==> s[i] in cs
    ensures r == [] || r[|r| - 1] !in cs
  {
    if s != [] && s[|s| - 1] in cs then RStrip(s[..|s| - 1], cs) else s
  }

  /** `lstrip` removes a leading run of stripped characters and stops at
      the first character that is not one of them. */
  lemma {:induction false} StripRun(run: string, rest: string, cs: set<char>)
    requires forall i :: 0 <= i < |run| ==> run[i] in cs
    requires rest != [] && rest[0] !in cs
    ensures LStrip(run + rest, cs) == rest
  {
    if run != [] {
      assert (run + rest)[1..] == run[1..] + rest;
      StripRun(run[1..], rest, cs);
    }
  }

  /** `rstrip` removes a trailing run of stripped characters and stops at
      the last character that is not one of them. */
  lemma {:induction false} RStripRun(rest: string, run: string, cs: set<char>)
    requires forall i :: 0 <= i < |run| ==> run[i] in cs
    requires rest != [] && rest[|rest| - 1] !in cs
    ensures RStrip(rest + run, cs) == rest
  {
    if run != [] {
      var n := |run| - 1;
      assert (rest + run)[..|rest + run| - 1] == rest + run[..n];
      RStripRun(rest, run[..n], cs);
    } else {
      assert rest + run == rest;
    }
  }

  /** `s.strip(chars)`: both ends, each run of characters from the SET `cs`
      (not a literal prefix or suffix). */
  function Strip(s: string, cs: set<char>): (r: string)
  {
    RStrip(LStrip(s, cs), cs)
  }

  /** What `Strip` keeps is a contiguous slice of `s`, starting where
      `lstrip` stopped. */
  lemma StripSlice(s: string, cs: set<char>)
    ensures Strip(s, cs) == s[|s| - |LStrip(s, cs)|..|s| - |LStrip(s, cs)| + |Strip(s, cs)|]
  {
  }

  /** Every character `Strip` cuts after the kept slice is in `cs`. */
  lemma StripCutRight(s: string, cs: set<char>)
    ensures forall i :: |s| - |LStrip(s, cs)| + |Strip(s, cs)| <= i < |s| ==> s[i] in cs
  {
    var l := LStrip(s, cs);
    CutRight(s, l, RStrip(l, cs), cs);
  }

  /** The characters after a prefix `r` of a suffix `l` of `s`, when those
      of `l` are all in `cs`. */
  lemma CutRight(s: string, l: string, r: string, cs: set<char>)
    requires |l| <= |s| && l == s[|s| - |l|..] && |r| <= |l|
    requires forall i :: |r| <= i < |l| ==> l[i] in cs
    ensures forall i :: |s| - |l| + |r| <= i < |s| ==> s[i] in cs
  {
    var k := |s| - |l|;
    forall i | k + |r| <= i < |s|
      ensures s[i] in cs
    {
      assert s[i] == l[i - k];
    }
  }

  /** Neither end of what `Strip` keeps is in `cs`. */
  lemma StripEnds(s: string, cs: set<char>)
    ensures Strip(s, cs) == [] || (Strip(s, cs)[0] !in cs && Strip(s, cs)[|Strip(s, cs)| - 1] !in cs)
  {
    var l := LStrip(s, cs);
    var r := RStrip(l, cs);
    if r != [] {
      assert r[0] == l[0];
    }
  }

  /** Characters of `cs` on both sides of a text that neither starts nor
      ends with one are all stripped, and only they. */
  lemma StripAround(pre: string, core: string, post: string, cs: set<char>)
    requires forall i :: 0 <= i < |pre| ==> pre[i] in cs
    requires forall i :: 0 <= i < |post| ==> post[i] in cs
    requires core != [] && core[0] !in cs && core[|core| - 1] !in cs
    ensures Strip(pre + core + post, cs) == core
  {
    assert pre + core + post == pre + (core + post);
    StripRun(pre, core + post, cs);
    RStripRun(core, post, cs);
  }

  /** A string that neither starts nor ends with a character of `cs` is left as it is. */
  lemma StripUnchanged(s: string, cs: set<char>)
    requires s == [] || (s[0] !in cs && s[|s| - 1] !in cs)
    ensures Strip(s, cs) == s
  {
  }

  /** Stripping is idempotent. */
  lemma StripIdempotent(s: string, cs: set<char>)
    ensures Strip(Strip(s, cs), cs) == Strip(s, cs)
  {
    StripEnds(s, cs);
    StripUnchanged(Strip(s, cs), cs);
  }

  function Zeros(n: nat): (r: string)
    ensures |r| == n && forall i :: 0 <= i < n ==> r[i] == '0'
  {
    seq(n, _ => '0')
  }

  /** `s.zfill(width)`: pads with '0' on the left up to `width`; a leading
      sign character stays in front of the padding. */
  function ZFill(s: string, width: nat): (r: string)
  {
    if |s| >= width then s
    else if s != [] && (s[0] == '+' || s[0] == '-') then [s[0]] + Zeros(width - |s|) + s[1..]
    else Zeros(width - |s|) + s
  }

  /** `zfill` never shortens, reaches exactly `width` when it pads, keeps the
      unsigned text as a suffix, and only adds zeros. */
  lemma ZFillShape(s: string, width: nat)
    ensures |ZFill(s, width)| == if |s| >= width then |s| else width
    ensures |s| >= width ==> ZFill(s, width) == s
    ensures s != [] && s[0] != '+' && s[0] != '-' ==>
      ZFill(s, width)[|ZFill(s, width)| - |s|..] == s &&
      forall i :: 0 <= i < |ZFill(s, width)| - |s| ==> ZFill(s, width)[i] == '0'
  {
  }

  /** `pat` occurs in `s` starting at position `i`. */
  predicate OccursAt(s: string, pat: string, i: nat)
  {
    i + |pat| <= |s| && s[i..i + |pat|] == pat
  }

  predicate Occurs(s: string, pat: string)
  {
    exists i: nat | i <= |s| :: OccursAt(s, pat, i)
  }

  /** `s.replace(pat, rep)`: every non-overlapping occurrence of `pat`,
      scanning left to right, becomes `rep`; an empty `pat` inserts `rep`
      before every character and at the end, as Python does. */
  function Replace(s: string, pat: string, rep: string): string
    decreases |s|
  {
    if pat == [] then
      (if s == [] then rep else rep + [s[0]] + Replace(s[1..], pat, rep))
    else if |s| < |pat| then s
    else if s[..|pat|] == pat then rep + Replace(s[|pat|..], pat, rep)
    else [s[0]] + Replace(s[1..], pat, rep)
  }

  /** A non-empty pattern that does not occur leaves the string unchanged. */
  lemma {:induction false} ReplaceAbsent(s: string, pat: string, rep: string)
    requires pat != [] && !Occurs(s, pat)
    ensures Replace(s, pat, rep) == s
    decreases |s|
  {
    if |s| >= |pat| {
      assert !OccursAt(s, pat, 0);
      assert s[0..|pat|] == s[..|pat|];
      forall i: nat | OccursAt(s[1..], pat, i)
        ensures false
      {
        assert s[1..][i..i + |pat|] == s[i + 1..i + 1 + |pat|];
        assert OccursAt(s, pat, i + 1);
      }
      ReplaceAbsent(s[1..], pat, rep);
    }
  }

  /** A non-empty pattern replaced in itself gives the replacement. */
  lemma ReplaceWhole(s: string, rep: string)
    requires s != []
    ensures Replace(s, s, rep) == rep
  {
    assert s[..|s|] == s;
    assert Replace(s[|s|..], s, rep) == [];
  }

  /** Replacing one character by another keeps the length and rewrites
      exactly the positions that held the old character. */
  lemma {:induction false} ReplaceChar(s: string, a: char, b: char)
    ensures |Replace(s, [a], [b])| == |s|
    ensures forall i :: 0 <= i < |s| ==>
      Replace(s, [a], [b])[i] == if s[i] == a then b else s[i]
    decreases |s|
  {
    if s != [] {
      ReplaceChar(s[1..], a, b);
      assert s[..1] == [s[0]];
    }
  }

  /** After replacing `a` by a different character, no `a` remains. */
  lemma ReplaceCharRemoves(s: string, a: char, b: char)
    requires a != b
    ensures a !in Replace(s, [a], [b])
  {
    ReplaceChar(s, a, b);
  }

  /** `sep.join(xs)`. */
  function Join(xs: seq<string>, sep: string): string
  {
    if xs == [] then ""
    else if |xs| == 1 then xs[0]
    else xs[0] + sep + Join(xs[1..], sep)
  }

  function IndexOfChar(s: string, c: char): (i: nat)
    requires c in s
    ensures i < |s| && s[i] == c && c !in s[..i]
  {
    if s[0] == c then 0
    else
      assert s == [s[0]] + s[1..];
      var j := IndexOfChar(s[1..], c);
      assert s[..j + 1] == [s[0]] + s[1..][..j];
      j + 1
  }

  /** `s.split(c)` for one separator character. */
  function Split(s: string, c: char): (parts: seq<string>)
    ensures |parts| >= 1
    decreases |s|
  {
    if c !in s then [s]
    else
      var i := IndexOfChar(s, c);
      [s[..i]] + Split(s[i + 1..], c)
  }

  /** Splitting a join on the separator gives back the parts, provided no
      part holds the separator (a header line can be read back into its
      column names). */
  lemma {:induction false} SplitJoin(xs: seq<string>, c: char)
    requires |xs| >= 1
    requires forall x :: x in xs ==> c !in x
    ensures Split(Join(xs, [c]), c) == xs
  {
    assert xs[0] in xs;
    if |xs| > 1 {
      var rest := Join(xs[1..], [c]);
      assert Join(xs, [c]) == xs[0] + [c] + rest;
      SplitAt(xs[0], c, rest);
      assert forall x :: x in xs[1..] ==> x in xs;
      SplitJoin(xs[1..], c);
      assert xs == [xs[0]] + xs[1..];
    }
  }

  /** Text free of the separator, then the separator: the first part. */
  lemma SplitAt(a: string, c: char, rest: string)
    requires c !in a
    ensures Split(a + [c] + rest, c) == [a] + Split(rest, c)
  {
    var s := a + [c] + rest;
    assert s[|a|] == c;
    assert s[..|a|] == a;
    var i := IndexOfChar(s, c);
    assert i == |a|;
    assert s[i + 1..] == rest;
  }

  predicate EndsWith(s: string, suffix: string)
  {
    |suffix| <= |s| && s[|s| - |suffix|..] == suffix
  }

  predicate StartsWith(s: string, prefix: string)
  {
    |prefix| <= |s| && s[..|prefix|] == prefix
  }

  function DigitChar(d: nat): (c: char)
    requires d < 10
    ensures IsDigit(c)
  {
    ('0' as int + d) as char
  }

  /** Decimal digits of a natural number, most significant first. */
  function NatToString(n: nat): (r: string)
    ensures |r| >= 1 && forall i :: 0 <= i < |r| ==> IsDigit(r[i])
  {
    if n < 10 then [DigitChar(n)] else NatToString(n / 10) + [DigitChar(n % 10)]
  }

  /** `str(i)` for an integer. */
  function IntToString(i: int): string
  {
    if i < 0 then "-" + NatToString(-i) else NatToString(i)
  }
}
