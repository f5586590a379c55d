/**
 * Row filtering as pandas does it with a boolean mask (`df[mask]`), and the
 * order-preserving "unique" of a column. Every filter of the pipeline is an
 * instance of `Select`, so the facts proved here (length, order, which row
 * lands where) are proved once.
 */
module Rows {

  /** The elements of `s` whose mask bit is set, in their original order. */
  function Select<T>(s: seq<T>, m: seq<bool>): (r: seq<T>)
    requires |m| == |s|
    ensures |r| == Count(m) <= |s|
  {
    if |s| == 0 then []
    else Select(s[..|s| - 1], m[..|s| - 1]) + (if m[|s| - 1] then [s[|s| - 1]] else [])
  }

  /** Number of set bits of a mask. */
  function Count(m: seq<bool>): (n: nat)
    ensures n <= |m|
  {
    if |m| == 0 then 0 else Count(m[..|m| - 1]) + (if m[|m| - 1] then 1 else 0)
  }

  /** The position a selected element `i` takes in the output: the set bits before it. */
  function Rank(m: seq<bool>, i: nat): nat
    requires i <= |m|
  {
    Count(m[..i])
  }

  /** `df[mask]`: one pass over the rows, appending those whose bit is set. */
  method ApplyMask<T>(s: seq<T>, m: seq<bool>) returns (r: seq<T>)
    requires |m| == |s|
    ensures r == Select(s, m)
  {
    r := [];
    for i := 0 to |s|
      invariant r == Select(s[..i], m[..i])
    {
      assert s[..i + 1][..i] == s[..i] && m[..i + 1][..i] == m[..i];
      if m[i] {
        r := r + [s[i]];
      }
    }
    assert s[..|s|] == s && m[..|m|] == m;
  }

  lemma {:induction false} CountAppend(a: seq<bool>, b: seq<bool>)
    ensures Count(a + b) == Count(a) + Count(b)
    decreases |b|
  {
    if |b| > 0 {
      var b' := b[..|b| - 1];
      assert (a + b)[..|a + b| - 1] == a + b';
      CountAppend(a, b');
    } else {
      assert a + b == a;
    }
  }

  /** Filtering distributes over concatenation. */
  lemma {:induction false} SelectAppend<T>(a: seq<T>, ma: seq<bool>, b: seq<T>, mb: seq<bool>)
    requires |ma| == |a| && |mb| == |b|
    ensures Select(a + b, ma + mb) == Select(a, ma) + Select(b, mb)
    decreases |b|
  {
    if |b| == 0 {
      assert a + b == a && ma + mb == ma;
    } else {
      var n := |b| - 1;
      assert (a + b)[..|a + b| - 1] == a + b[..n];
      assert (ma + mb)[..|ma + mb| - 1] == ma + mb[..n];
      SelectAppend(a, ma, b[..n], mb[..n]);
    }
  }

  /** Rank grows by one exactly at each selected element. */
  lemma RankStep(m: seq<bool>, i: nat)
    requires i < |m|
    ensures Rank(m, i + 1) == Rank(m, i) + (if m[i] then 1 else 0)
  {
    assert m[..i + 1][..i] == m[..i];
  }

  /** Rank is monotone, and strictly so from a selected element. */
  lemma RankMonotone(m: seq<bool>, i: nat, j: nat)
    requires i <= j <= |m|
    ensures Rank(m, i) <= Rank(m, j)
    ensures i < j && m[i] ==> Rank(m, i) < Rank(m, j)
  {
    assert m[..j] == m[..i] + m[i..j];
    CountAppend(m[..i], m[i..j]);
    if i < j && m[i] {
      assert m[i..j] == [m[i]] + m[i + 1..j];
      CountAppend([m[i]], m[i + 1..j]);
      assert Count([m[i]]) == 1 by { assert [m[i]][..0] == []; }
    }
  }

  /** Two selected elements at most one index apart keep that bound in rank. */
  lemma RankWithinOne(m: seq<bool>, j: nat, i: nat)
    requires i < |m| && j < |m| && m[i] && m[j] && j <= i + 1
    ensures Rank(m, j) <= Rank(m, i) + 1
  {
    if j <= i {
      RankMonotone(m, j, i);
    } else {
      RankStep(m, i);
    }
  }

  /** A selected element lands at its rank. */
  lemma {:induction false} SelectAt<T>(s: seq<T>, m: seq<bool>, i: nat)
    requires |m| == |s| && i < |s| && m[i]
    ensures Rank(m, i) < |Select(s, m)| && Select(s, m)[Rank(m, i)] == s[i]
    decreases |s|
  {
    var n := |s| - 1;
    var s', m' := s[..n], m[..n];
    if i < n {
      SelectAt(s', m', i);
      assert m'[..i] == m[..i];
    }
  }

  /** The output before a selected element's rank is the filter of the rows before it. */
  lemma SelectPrefix<T>(s: seq<T>, m: seq<bool>, i: nat)
    requires |m| == |s| && i <= |s|
    ensures Rank(m, i) <= |Select(s, m)|
    ensures Select(s, m)[..Rank(m, i)] == Select(s[..i], m[..i])
  {
    assert s == s[..i] + s[i..] && m == m[..i] + m[i..];
    SelectAppend(s[..i], m[..i], s[i..], m[i..]);
  }

  /** Every output position comes from exactly the selected element of that rank. */
  lemma {:induction false} SelectFrom<T>(s: seq<T>, m: seq<bool>, k: nat)
    requires |m| == |s| && k < |Select(s, m)|
    ensures exists i :: 0 <= i < |s| && m[i] && Rank(m, i) == k && Select(s, m)[k] == s[i]
    decreases |s|
  {
    var n := |s| - 1;
    var s', m' := s[..n], m[..n];
    if k < Count(m') {
      SelectFrom(s', m', k);
      var i :| 0 <= i < n && m'[i] && Rank(m', i) == k && Select(s', m')[k] == s'[i];
      assert m'[..i] == m[..i];
    } else {
      assert m[n] && Rank(m, n) == k by { assert m[..n] == m'; }
    }
  }

  /** A mask with every bit set keeps everything. */
  lemma {:induction false} SelectAll<T>(s: seq<T>, m: seq<bool>)
    requires |m| == |s| && forall i :: 0 <= i < |m| ==> m[i]
    ensures Select(s, m) == s
    decreases |s|
  {
    if |s| > 0 {
      SelectAll(s[..|s| - 1], m[..|s| - 1]);
    }
  }

  /** A relation that holds between every ordered pair of rows still holds after filtering. */
  lemma SelectKeepsPairs<T>(s: seq<T>, m: seq<bool>, rel: (T, T) -> bool)
    requires |m| == |s|
    requires forall i, j :: 0 <= i < j < |s| ==> rel(s[i], s[j])
    ensures forall k, l :: 0 <= k < l < |Select(s, m)| ==> rel(Select(s, m)[k], Select(s, m)[l])
  {
    var r := Select(s, m);
    forall k, l | 0 <= k < l < |r|
      ensures rel(r[k], r[l])
    {
      SelectFrom(s, m, k);
      var i :| 0 <= i < |s| && m[i] && Rank(m, i) == k && r[k] == s[i];
      SelectFrom(s, m, l);
      var j :| 0 <= j < |s| && m[j] && Rank(m, j) == l && r[l] == s[j];
      if j <= i {
        RankMonotone(m, j, i);
      }
    }
  }

  /** Dropping an unselected element leaves the selection unchanged. */
  lemma SelectDrop<T>(a: seq<T>, ma: seq<bool>, x: T, b: seq<T>, mb: seq<bool>)
    requires |ma| == |a| && |mb| == |b|
    ensures Select(a + [x] + b, ma + [false] + mb) == Select(a + b, ma + mb)
  {
    var ax, max := a + [x], ma + [false];
    assert Select(ax, max) == Select(a, ma) by {
      assert ax[..|a|] == a && max[..|a|] == ma;
    }
    SelectAppend(ax, max, b, mb);
    SelectAppend(a, ma, b, mb);
  }

  /** Every output element is a selected input element. */
  lemma SelectMembers<T>(s: seq<T>, m: seq<bool>, x: T)
    requires |m| == |s| && x in Select(s, m)
    ensures exists i :: 0 <= i < |s| && m[i] && s[i] == x
  {
    var k :| 0 <= k < |Select(s, m)| && Select(s, m)[k] == x;
    SelectFrom(s, m, k);
  }

  /** The mask of a row predicate, as `df[col] == x` or `df[col].notna()` builds it. */
  function MaskOf<T>(s: seq<T>, p: T -> bool): (m: seq<bool>)
    ensures |m| == |s| && forall i :: 0 <= i < |s| ==> m[i] == p(s[i])
  {
    seq(|s|, i requires 0 <= i < |s| => p(s[i]))
  }

  /** A mask with a set bit selects at least one element. */
  lemma CountPositive(m: seq<bool>, i: nat)
    requires i < |m| && m[i]
    ensures Count(m) > 0
  {
    RankMonotone(m, i, |m|);
    assert m[..|m|] == m;
  }

  /** Every selected element satisfies the predicate the mask encodes. */
  lemma SelectSatisfies<T>(s: seq<T>, m: seq<bool>, p: T -> bool)
    requires |m| == |s| && forall i :: 0 <= i < |s| && m[i] ==> p(s[i])
    ensures forall k :: 0 <= k < |Select(s, m)| ==> p(Select(s, m)[k])
  {
    forall k | 0 <= k < |Select(s, m)|
      ensures p(Select(s, m)[k])
    {
      SelectFrom(s, m, k);
    }
  }

  /**
   * The distinct values of `s` in order of first appearance, as pandas'
   * `Series.unique()` returns them.
   */
  function Distinct<T(==,!new)>(s: seq<T>): (r: seq<T>)
    ensures forall x :: x in r <==> x in s
    ensures forall i, j :: 0 <= i < j < |r| ==> r[i] != r[j]
  {
    if |s| == 0 then []
    else
      var r' := Distinct(s[..|s| - 1]);
      assert forall x :: x in s <==> x in s[..|s| - 1] || x == s[|s| - 1];
      if s[|s| - 1] in s[..|s| - 1] then r' else r' + [s[|s| - 1]]
  }

  /** The index of the first occurrence of `x` in `s`. */
  function FirstIndex<T(==)>(s: seq<T>, x: T): (i: nat)
    requires x in s
    ensures i < |s| && s[i] == x && forall j :: 0 <= j < i ==> s[j] != x
  {
    if s[0] == x then 0 else 1 + FirstIndex(s[1..], x)
  }

  /** `Distinct` lists the values in the order of their first occurrences. */
  lemma {:induction false} DistinctFirstAppearance<T(!new)>(s: seq<T>)
    ensures forall i, j :: 0 <= i < j < |Distinct(s)| ==>
      FirstIndex(s, Distinct(s)[i]) < FirstIndex(s, Distinct(s)[j])
    decreases |s|
  {
    if |s| > 0 {
      var n := |s| - 1;
      var s' := s[..n];
      DistinctFirstAppearance(s');
      var r, r' := Distinct(s), Distinct(s');
      forall x | x in s'
        ensures FirstIndex(s, x) == FirstIndex(s', x)
      {
        var f, g := FirstIndex(s', x), FirstIndex(s, x);
        assert s[f] == x;
      }
      forall i, j | 0 <= i < j < |r|
        ensures FirstIndex(s, r[i]) < FirstIndex(s, r[j])
      {
        assert r[i] == r'[i] && r[i] in s';
        if j < |r'| {
          assert r[j] == r'[j] && r[j] in s';
        } else {
          assert r[j] == s[n] && s[n] !in s';
          assert FirstIndex(s, r[j]) == n;
        }
      }
    }
  }

  /** Sum of a sequence of reals, left to right as Python's `sum` adds. */
  function Sum(s: seq<real>): real
  {
    if |s| == 0 then 0.0 else Sum(s[..|s| - 1]) + s[|s| - 1]
  }

  /** A sum of zeros is zero. */
  lemma {:induction false} SumOfZeros(s: seq<real>)
    requires forall k :: 0 <= k < |s| ==> s[k] == 0.0
    ensures Sum(s) == 0.0
    decreases |s|
  {
    if |s| > 0 {
      SumOfZeros(s[..|s| - 1]);
    }
  }

  /** A sum of non-negative numbers is non-negative. */
  lemma {:induction false} SumNonNegative(s: seq<real>)
    requires forall k :: 0 <= k < |s| ==> s[k] >= 0.0
    ensures Sum(s) >= 0.0
    decreases |s|
  {
    if |s| > 0 {
      SumNonNegative(s[..|s| - 1]);
    }
  }

  /** A sum of numbers that are each at least `c` is at least `|s|` times `c`. */
  lemma {:induction false} SumAtLeast(s: seq<real>, c: real)
    requires forall k :: 0 <= k < |s| ==> s[k] >= c
    ensures Sum(s) >= (|s| as real) * c
    decreases |s|
  {
    if |s| > 0 {
      SumAtLeast(s[..|s| - 1], c);
    }
  }
}
