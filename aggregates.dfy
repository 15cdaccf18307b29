/** Column aggregates as pandas computes them on a numeric column: `dropna()`, `sum()`,
    `mean()` (which skips missing values), `min()`, `max()` and `median()`. */
module Aggregates {
  import opened Wrappers
  import opened Sequences

  function Sum(s: seq<real>): real
  {
    if s == [] then 0.0 else s[0] + Sum(s[1..])
  }

  function IsPresent(v: Option<real>): bool
  {
    v.Some?
  }

  /** `dropna()`: the present values of a nullable column, in order: the k-th kept value is
      the one at the k-th non-missing position. */
  function Present(s: seq<Option<real>>): (r: seq<real>)
    ensures |r| == |Positions(s, IsPresent)| <= |s|
    ensures forall k :: 0 <= k < |r| ==> s[Positions(s, IsPresent)[k]] == Some(r[k])
    ensures r == [] <==> forall i :: 0 <= i < |s| ==> s[i].None?
    ensures forall k :: 0 <= k < |r| ==> Some(r[k]) in s
    ensures forall i :: 0 <= i < |s| && s[i].Some? ==> s[i].value in r
  {
    var kept := Filter(s, IsPresent);
    FilterPositions(s, IsPresent);
    var r := seq(|kept|, k requires 0 <= k < |kept| => kept[k].value);
    assert forall k :: 0 <= k < |kept| ==> kept[k] == Some(r[k]);
    PresentValues(s, r);
    r
  }

  /** Values read off the non-missing positions, one per position, are exactly the column's
      present values. */
  lemma PresentValues(s: seq<Option<real>>, r: seq<real>)
    requires |r| == |Positions(s, IsPresent)|
    requires forall k :: 0 <= k < |r| ==> s[Positions(s, IsPresent)[k]] == Some(r[k])
    ensures r == [] <==> forall i :: 0 <= i < |s| ==> s[i].None?
    ensures forall k :: 0 <= k < |r| ==> Some(r[k]) in s
    ensures forall i :: 0 <= i < |s| && s[i].Some? ==> s[i].value in r
  {
    var idx := Positions(s, IsPresent);
    PositionsComplete(s, IsPresent);
    forall i | 0 <= i < |s| && s[i].Some? ensures s[i].value in r {
      assert IsPresent(s[i]);
      var k :| 0 <= k < |idx| && idx[k] == i;
      assert s[i] == Some(r[k]);
    }
    if r != [] {
      assert s[idx[0]] == Some(r[0]);
    }
  }

  /** With no value missing, `dropna()` keeps the column as it is. */
  lemma PresentOfFull(s: seq<Option<real>>)
    requires forall i :: 0 <= i < |s| ==> s[i].Some?
    ensures |Present(s)| == |s| && forall i :: 0 <= i < |s| ==> Present(s)[i] == s[i].value
  {
    FilterKeepsAll(s, IsPresent);
  }

  function Min(s: seq<real>): (m: real)
    requires |s| > 0
    ensures m in s
    ensures forall i :: 0 <= i < |s| ==> m <= s[i]
  {
    if |s| == 1 then s[0]
    else var rest := Min(s[1..]); if s[0] <= rest then s[0] else rest
  }

  function Max(s: seq<real>): (m: real)
    requires |s| > 0
    ensures m in s
    ensures forall i :: 0 <= i < |s| ==> s[i] <= m
  {
    if |s| == 1 then s[0]
    else var rest := Max(s[1..]); if s[0] >= rest then s[0] else rest
  }

  function Mean(s: seq<real>): real
    requires |s| > 0
  {
    Sum(s) / |s| as real
  }

  /** `mean()` of a nullable column: the average of its present values, missing when it has none. */
  function NonNullMean(s: seq<Option<real>>): (m: Option<real>)
    ensures m.None? <==> forall i :: 0 <= i < |s| ==> s[i].None?
  {
    var p := Present(s);
    if p == [] then None else Some(Mean(p))
  }

  /** The non-null mean of two present values is their average. */
  lemma NonNullMeanOfTwo(s: seq<Option<real>>)
    requires |s| == 2 && s[0].Some? && s[1].Some?
    ensures NonNullMean(s) == Some((s[0].value + s[1].value) / 2.0)
  {
    var a, b := s[0].value, s[1].value;
    PresentOfTwo(s);
    SumOfTwo([a, b]);
  }

  lemma PresentOfTwo(s: seq<Option<real>>)
    requires |s| == 2 && s[0].Some? && s[1].Some?
    ensures Present(s) == [s[0].value, s[1].value]
  {
    PresentOfFull(s);
  }

  lemma SumOfTwo(p: seq<real>)
    requires |p| == 2
    ensures Sum(p) == p[0] + p[1]
  {
    var tail := p[1..];
    assert tail[1..] == [];
    assert Sum(tail) == p[1] + Sum(tail[1..]);
  }

  /** A lower bound of every element bounds the sum from below, scaled by the length. */
  lemma {:induction false} SumAtLeast(s: seq<real>, b: real)
    requires forall i :: 0 <= i < |s| ==> b <= s[i]
    ensures |s| as real * b <= Sum(s)
  {
    if s != [] {
      SumAtLeast(s[1..], b);
      assert |s| as real * b == b + |s[1..]| as real * b;
    }
  }

  lemma {:induction false} SumAtMost(s: seq<real>, b: real)
    requires forall i :: 0 <= i < |s| ==> s[i] <= b
    ensures Sum(s) <= |s| as real * b
  {
    if s != [] {
      SumAtMost(s[1..], b);
      assert |s| as real * b == b + |s[1..]| as real * b;
    }
  }

  /** The mean lies between the smallest and the largest value. */
  lemma MeanBetween(s: seq<real>)
    requires |s| > 0
    ensures Min(s) <= Mean(s) <= Max(s)
  {
    MeanAtLeast(s, Min(s));
    MeanAtMost(s, Max(s));
  }

  lemma MeanAtLeast(s: seq<real>, lo: real)
    requires |s| > 0
    requires forall i :: 0 <= i < |s| ==> lo <= s[i]
    ensures lo <= Mean(s)
  {
    var n, total := |s| as real, Sum(s);
    SumAtLeast(s, lo);
    DivideBounds(lo, total, total / n, n);
  }

  lemma MeanAtMost(s: seq<real>, hi: real)
    requires |s| > 0
    requires forall i :: 0 <= i < |s| ==> s[i] <= hi
    ensures Mean(s) <= hi
  {
    var n, total := |s| as real, Sum(s);
    SumAtMost(s, hi);
    DivideBounds(total / n, total, hi, n);
  }

  lemma DivideBounds(lo: real, x: real, hi: real, n: real)
    requires n > 0.0
    requires n * lo <= x <= n * hi
    ensures lo <= x / n <= hi
  {
    var q := x / n;
    assert q * n == x;
    assert n * (q - lo) >= 0.0;
    assert n * (hi - q) >= 0.0;
  }

  /** The non-null mean is attained or exceeded by some present value, and some present
      value is at or below it. */
  lemma NonNullMeanBetween(s: seq<Option<real>>)
    requires NonNullMean(s).Some?
    ensures exists i :: 0 <= i < |s| && s[i].Some? && s[i].value <= NonNullMean(s).value
    ensures exists i :: 0 <= i < |s| && s[i].Some? && NonNullMean(s).value <= s[i].value
  {
    var p := Present(s);
    MeanBetween(p);
    var lo, hi := Min(p), Max(p);
    assert Some(lo) in s && Some(hi) in s;
    var i :| 0 <= i < |s| && s[i] == Some(lo);
    var j :| 0 <= j < |s| && s[j] == Some(hi);
  }

  ghost predicate SortedAsc(s: seq<real>)
  {
    forall i, j :: 0 <= i <= j < |s| ==> s[i] <= s[j]
  }

  function Insert(x: real, s: seq<real>): (r: seq<real>)
    requires SortedAsc(s)
    ensures SortedAsc(r)
    ensures multiset(r) == multiset(s) + multiset{x}
  {
    if s == [] then [x]
    else if x <= s[0] then
      ConsSorted(x, s);
      [x] + s
    else
      var rest := Insert(x, s[1..]);
      assert multiset(s) == multiset{s[0]} + multiset(s[1..]) by { assert s == [s[0]] + s[1..]; }
      HeadBelowInsert(x, s, rest);
      ConsSorted(s[0], rest);
      [s[0]] + rest
  }

  /** A value no larger than the first element of a sorted sequence can go in front of it. */
  lemma ConsSorted(h: real, s: seq<real>)
    requires SortedAsc(s) && (s == [] || h <= s[0])
    ensures SortedAsc([h] + s)
  {
    var r := [h] + s;
    forall i, j | 0 <= i <= j < |r| ensures r[i] <= r[j] {
      if i > 0 {
        assert r[i] == s[i - 1] && r[j] == s[j - 1];
      } else if j > 0 {
        assert s[0] <= s[j - 1];
      }
    }
  }

  /** The head of a sorted sequence is a lower bound of the tail with a larger value inserted. */
  lemma HeadBelowInsert(x: real, s: seq<real>, rest: seq<real>)
    requires SortedAsc(s) && s != [] && s[0] < x
    requires multiset(rest) == multiset(s[1..]) + multiset{x}
    ensures rest == [] || s[0] <= rest[0]
  {
    if rest != [] {
      assert rest[0] in multiset(rest);
      if rest[0] != x {
        assert rest[0] in multiset(s[1..]);
        var j :| 0 <= j < |s[1..]| && s[1..][j] == rest[0];
        assert s[j + 1] == rest[0];
      }
    }
  }

  /** The column values in ascending order (a permutation of the input). */
  function Sort(s: seq<real>): (r: seq<real>)
    ensures SortedAsc(r)
    ensures multiset(r) == multiset(s)
  {
    if s == [] then []
    else
      assert s == [s[0]] + s[1..];
      Insert(s[0], Sort(s[1..]))
  }

  /** `median()`: the middle value of the sorted column, or the average of the two middle
      values when the length is even. */
  function Median(s: seq<real>): (m: real)
    requires |s| > 0
    ensures Min(s) <= m <= Max(s)
  {
    var t := Sort(s);
    var n := |t|;
    assert |t| == |s| by { assert |multiset(t)| == |multiset(s)|; }
    assert t[0] in multiset(s) && t[n - 1] in multiset(s);
    if n % 2 == 1 then t[n / 2] else (t[n / 2 - 1] + t[n / 2]) / 2.0
  }

  function Below(m: real): real -> bool
  {
    (x: real) => x < m
  }

  function AtMost(m: real): real -> bool
  {
    (x: real) => x <= m
  }

  function Above(m: real): real -> bool
  {
    (x: real) => x > m
  }

  function AtLeast(m: real): real -> bool
  {
    (x: real) => x >= m
  }

  /** The median halves the column: at most half of the values lie strictly below it and at
      most half strictly above it, so at least half lie at or below it and at least half at or
      above it. */
  lemma MedianHalves(s: seq<real>)
    requires |s| > 0
    ensures 2 * |Filter(s, Below(Median(s)))| <= |s| <= 2 * |Filter(s, AtLeast(Median(s)))|
    ensures 2 * |Filter(s, Above(Median(s)))| <= |s| <= 2 * |Filter(s, AtMost(Median(s)))|
  {
    var t, m := Sort(s), Median(s);
    var n := |t|;
    assert n == |s| by { assert |multiset(t)| == |multiset(s)|; }
    var mid := n / 2;
    assert t[mid] >= m && t[(n - 1) / 2] <= m;
    forall i | mid <= i < n ensures !Below(m)(t[i]) {
      assert t[mid] <= t[i];
    }
    forall i | 0 <= i < (n + 1) / 2 ensures AtMost(m)(t[i]) {
      assert t[i] <= t[(n - 1) / 2];
    }
    FilterCountAtMost(t, Below(m), mid);
    FilterCountAtLeast(t, AtMost(m), (n + 1) / 2);
    FilterCountPermutation(s, t, Below(m));
    FilterCountPermutation(s, t, AtMost(m));
    FilterPartition(s, Below(m), AtLeast(m));
    FilterPartition(s, AtMost(m), Above(m));
  }
}
