/** Generic sequence helpers: the boolean-mask filter that pandas applies to a table,
    and what it means for one table to keep another's rows in their original order. */
module Sequences {

  /** The positions of `s` whose element satisfies `p`, in increasing order: each listed
      position satisfies `p` (and every position that does is listed, see PositionsComplete). */
  function Positions<T>(s: seq<T>, p: T -> bool): (idx: seq<nat>)
    ensures forall k :: 0 <= k < |idx| ==> idx[k] < |s| && p(s[idx[k]])
    ensures forall k, l :: 0 <= k < l < |idx| ==> idx[k] < idx[l]
  {
    if s == [] then []
    else
      var n := |s| - 1;
      var init := Positions(s[..n], p);
      assert forall i :: 0 <= i < n ==> s[..n][i] == s[i];
      if p(s[n]) then init + [n] else init
  }

  /** Every position whose element satisfies `p` is listed. */
  lemma {:induction false} PositionsComplete<T>(s: seq<T>, p: T -> bool)
    ensures forall i :: 0 <= i < |s| && p(s[i]) ==> i in Positions(s, p)
  {
    if s != [] {
      var n := |s| - 1;
      PositionsComplete(s[..n], p);
      forall i | 0 <= i < |s| && p(s[i]) ensures i in Positions(s, p) {
        if i < n {
          assert s[..n][i] == s[i];
        }
      }
    }
  }

  /** When at least two positions satisfy `p`, the first two are distinct satisfying positions. */
  lemma FirstTwoPositions<T>(s: seq<T>, p: T -> bool)
    ensures |Positions(s, p)| > 1 ==>
              var idx := Positions(s, p);
              idx[0] < idx[1] < |s| && p(s[idx[0]]) && p(s[idx[1]])
  {
  }

  /** The rows of `s` that satisfy `p`, in their original order (a boolean-mask selection):
      the k-th kept row is the row at the k-th satisfying position. */
  function Filter<T(==)>(s: seq<T>, p: T -> bool): (r: seq<T>)
    ensures |r| <= |s|
  {
    if s == [] then []
    else
      var n := |s| - 1;
      if p(s[n]) then Filter(s[..n], p) + [s[n]] else Filter(s[..n], p)
  }

  /** The k-th kept row is the row at the k-th satisfying position, and there are as many kept
      rows as satisfying positions. */
  lemma {:induction false} FilterPositions<T>(s: seq<T>, p: T -> bool)
    ensures |Filter(s, p)| == |Positions(s, p)|
    ensures forall k :: 0 <= k < |Filter(s, p)| ==> Filter(s, p)[k] == s[Positions(s, p)[k]]
  {
    if s != [] {
      var n := |s| - 1;
      FilterPositions(s[..n], p);
      assert forall i :: 0 <= i < n ==> s[..n][i] == s[i];
    }
  }

  /** Every kept row is a row of `s` satisfying `p`, and every such row is kept. */
  lemma FilterMembers<T>(s: seq<T>, p: T -> bool)
    ensures forall i :: 0 <= i < |Filter(s, p)| ==> Filter(s, p)[i] in s && p(Filter(s, p)[i])
    ensures forall i :: 0 <= i < |s| && p(s[i]) ==> s[i] in Filter(s, p)
  {
    var r, idx := Filter(s, p), Positions(s, p);
    FilterPositions(s, p);
    PositionsComplete(s, p);
    forall i | 0 <= i < |s| && p(s[i]) ensures s[i] in r {
      var k :| 0 <= k < |idx| && idx[k] == i;
      assert r[k] == s[i];
    }
  }

  /** `a` is obtained from `b` by deleting elements, without reordering: `a`'s elements sit at
      strictly increasing positions of `b`. */
  ghost predicate IsSubseq<T>(a: seq<T>, b: seq<T>)
  {
    exists idx: seq<nat> ::
      && |idx| == |a|
      && (forall k :: 0 <= k < |idx| ==> idx[k] < |b| && a[k] == b[idx[k]])
      && (forall k, l :: 0 <= k < l < |idx| ==> idx[k] < idx[l])
  }

  lemma FilterIsSubseq<T>(s: seq<T>, p: T -> bool)
    ensures IsSubseq(Filter(s, p), s)
  {
    var idx := Positions(s, p);
    FilterPositions(s, p);
  }

  /** The last row is kept after the filtered prefix exactly when it satisfies the mask. */
  lemma FilterSnoc<T>(s: seq<T>, p: T -> bool)
    requires s != []
    ensures Filter(s, p) == Filter(s[..|s| - 1], p) + (if p(s[|s| - 1]) then [s[|s| - 1]] else [])
  {
  }

  /** Filtering a concatenation filters each part. */
  lemma {:induction false} FilterAppend<T>(a: seq<T>, b: seq<T>, p: T -> bool)
    ensures Filter(a + b, p) == Filter(a, p) + Filter(b, p)
  {
    if b != [] {
      var n := |b| - 1;
      FilterAppend(a, b[..n], p);
      assert (a + b)[..|a + b| - 1] == a + b[..n];
    } else {
      assert a + b == a;
    }
  }

  /** Two complementary masks split a table into two parts that together hold every row once. */
  lemma {:induction false} FilterPartition<T>(s: seq<T>, p: T -> bool, q: T -> bool)
    requires forall x :: q(x) == !p(x)
    ensures multiset(Filter(s, p)) + multiset(Filter(s, q)) == multiset(s)
    ensures |Filter(s, p)| + |Filter(s, q)| == |s|
  {
    if s != [] {
      var n := |s| - 1;
      var init, last := s[..n], [s[n]];
      FilterPartition(init, p, q);
      assert multiset(s) == multiset(init) + multiset(last) by {
        assert s == init + last;
      }
      FilterSnoc(s, p);
      FilterSnoc(s, q);
      if p(s[n]) {
        assert Filter(s, p) == Filter(init, p) + last && Filter(s, q) == Filter(init, q);
        assert multiset(Filter(s, p)) == multiset(Filter(init, p)) + multiset(last);
      } else {
        assert Filter(s, q) == Filter(init, q) + last && Filter(s, p) == Filter(init, p);
        assert multiset(Filter(s, q)) == multiset(Filter(init, q)) + multiset(last);
      }
    }
  }

  /** How many rows a mask keeps depends only on the multiset of rows, not on their order. */
  lemma {:induction false} FilterCountPermutation<T>(a: seq<T>, b: seq<T>, p: T -> bool)
    requires multiset(a) == multiset(b)
    ensures |Filter(a, p)| == |Filter(b, p)|
  {
    if a == [] {
      assert |b| == |multiset(b)| == 0;
    } else {
      var x := a[0];
      assert x in multiset(a);
      var j :| 0 <= j < |b| && b[j] == x;
      var b' := b[..j] + b[j + 1..];
      var c := if p(x) then 1 else 0;
      assert multiset(a[1..]) == multiset(b') by {
        RemoveOne(a, 0);
        RemoveOne(b, j);
      }
      FilterCountPermutation(a[1..], b', p);
      assert |Filter(a, p)| == |Filter(a[1..], p)| + c by {
        FilterCountRemove(a, 0, p);
        assert a[..0] + a[1..] == a[1..];
      }
      assert |Filter(b, p)| == |Filter(b', p)| + c by {
        FilterCountRemove(b, j, p);
      }
    }
  }

  /** Deleting the element at `j` removes one copy of it from the multiset. */
  lemma RemoveOne<T>(s: seq<T>, j: nat)
    requires j < |s|
    ensures multiset(s[..j] + s[j + 1..]) == multiset(s) - multiset{s[j]}
    ensures j == 0 ==> multiset(s[1..]) == multiset(s) - multiset{s[0]}
  {
    assert s[..0] + s[1..] == s[1..];
    assert s == s[..j] + ([s[j]] + s[j + 1..]);
    assert multiset(s) == multiset(s[..j]) + multiset{s[j]} + multiset(s[j + 1..]);
  }

  /** Deleting the element at `j` loses one kept row exactly when that element satisfies `p`. */
  lemma FilterCountRemove<T>(s: seq<T>, j: nat, p: T -> bool)
    requires j < |s|
    ensures |Filter(s, p)| == |Filter(s[..j] + s[j + 1..], p)| + (if p(s[j]) then 1 else 0)
  {
    assert s == s[..j] + ([s[j]] + s[j + 1..]);
    FilterAppend(s[..j], [s[j]] + s[j + 1..], p);
    FilterAppend([s[j]], s[j + 1..], p);
    FilterAppend(s[..j], s[j + 1..], p);
    assert Filter([s[j]], p) == Filter([s[j]][..0], p) + (if p(s[j]) then [s[j]] else []);
  }

  /** A mask that rejects every row from position `h` on keeps at most `h` rows. */
  lemma FilterCountAtMost<T>(s: seq<T>, p: T -> bool, h: nat)
    requires h <= |s|
    requires forall i :: h <= i < |s| ==> !p(s[i])
    ensures |Filter(s, p)| <= h
  {
    assert s == s[..h] + s[h..];
    FilterAppend(s[..h], s[h..], p);
    FilterKeepsNone(s[h..], p);
  }

  /** A mask that accepts every row before position `h` keeps at least `h` rows. */
  lemma FilterCountAtLeast<T>(s: seq<T>, p: T -> bool, h: nat)
    requires h <= |s|
    requires forall i :: 0 <= i < h ==> p(s[i])
    ensures |Filter(s, p)| >= h
  {
    assert s == s[..h] + s[h..];
    FilterAppend(s[..h], s[h..], p);
    FilterKeepsAll(s[..h], p);
  }

  lemma {:induction false} FilterKeepsAll<T>(s: seq<T>, p: T -> bool)
    requires forall i :: 0 <= i < |s| ==> p(s[i])
    ensures Filter(s, p) == s
  {
    if s != [] {
      var n := |s| - 1;
      FilterKeepsAll(s[..n], p);
      FilterSnoc(s, p);
      assert s == s[..n] + [s[n]];
    }
  }

  lemma {:induction false} FilterKeepsNone<T>(s: seq<T>, p: T -> bool)
    requires forall i :: 0 <= i < |s| ==> !p(s[i])
    ensures Filter(s, p) == []
  {
    if s != [] {
      FilterKeepsNone(s[..|s| - 1], p);
    }
  }
}
