/** The sample buffer of the duration profiler (class `Profiler`): `End` records
    one elapsed-time sample, `Flush` sorts the samples, summarises them as lowest,
    highest, median and integer mean, and empties the buffer. Samples are
    steady-clock durations and therefore never negative. */
module Profiling {

  /** The summary `Flush` returns (the standard deviation is not modelled). */
  datatype Profile = Profile(lowest: int, highest: int, median: int, mean: int)

  ghost predicate Sorted(s: seq<int>)
  {
    forall i, j :: 0 <= i < j < |s| ==> s[i] <= s[j]
  }

  /** Inserts `x` into a sorted sequence before the first element not below it. */
  function Insert(x: int, s: seq<int>): (r: seq<int>)
    requires Sorted(s)
    ensures Sorted(r)
    ensures multiset(r) == multiset(s) + multiset{x}
    ensures |r| == |s| + 1
    ensures r[0] == x || (s != [] && r[0] == s[0])
  {
    if s == [] || x <= s[0] then
      PrependSorted(x, s);
      [x] + s
    else
      assert s == [s[0]] + s[1..];
      var t := Insert(x, s[1..]);
      PrependSorted(s[0], t);
      [s[0]] + t
  }

  /** A sorted sequence stays sorted when an element no larger than its first is
      put in front. */
  lemma PrependSorted(y: int, t: seq<int>)
    requires Sorted(t) && (t != [] ==> y <= t[0])
    ensures Sorted([y] + t)
  {
    var r := [y] + t;
    forall i, j | 0 <= i < j < |r|
      ensures r[i] <= r[j]
    {
      if i == 0 && j > 1 {
        assert t[0] <= t[j - 1];
      }
    }
  }

  /** The ascending rearrangement of the samples that `std::sort` produces. */
  function Sort(s: seq<int>): (r: seq<int>)
    ensures Sorted(r)
    ensures multiset(r) == multiset(s)
    ensures |r| == |s|
  {
    if s == [] then
      []
    else
      assert s == [s[0]] + s[1..];
      Insert(s[0], Sort(s[1..]))
  }

  /** The first, middle and last element of a sorted rearrangement of `s` are
      elements of `s`, and the first and last bound every element of `s`. */
  lemma SortedExtremes(s: seq<int>, t: seq<int>)
    requires |s| > 0 && Sorted(t) && multiset(t) == multiset(s)
    ensures |t| == |s|
    ensures t[0] in s && t[|t| / 2] in s && t[|t| - 1] in s
    ensures forall x :: x in s ==> t[0] <= x <= t[|t| - 1]
  {
    assert |t| == |multiset(t)| == |multiset(s)| == |s|;
    assert t[0] in multiset(t) && t[|t| / 2] in multiset(t) && t[|t| - 1] in multiset(t);
    forall x | x in s
      ensures t[0] <= x <= t[|t| - 1]
    {
      assert x in multiset(t);
      var i :| 0 <= i < |t| && t[i] == x;
    }
  }

  /** A sorted sequence is fixed by its multiset of elements, so every sorting
      algorithm yields the same sequence as `Sort`. */
  lemma {:induction false} SortedUnique(a: seq<int>, b: seq<int>)
    requires Sorted(a) && Sorted(b)
    requires multiset(a) == multiset(b)
    ensures a == b
  {
    if a != [] {
      assert b != [] by {
        assert a[0] in multiset(a);
      }
      assert a[0] == b[0] by {
        assert a[0] in multiset(b);
        assert b[0] in multiset(a);
        assert a[0] in b && b[0] in a;
      }
      assert a == [a[0]] + a[1..];
      assert b == [b[0]] + b[1..];
      assert multiset(a[1..]) == multiset(b[1..]) by {
        calc {
          multiset(a[1..]);
          multiset(a) - multiset{a[0]};
          multiset(b) - multiset{b[0]};
          multiset(b[1..]);
        }
      }
      SortedUnique(a[1..], b[1..]);
    }
  }

  /** The left fold `std::accumulate` computes, starting from 0. */
  function Sum(s: seq<int>): int
  {
    if s == [] then 0 else Sum(s[..|s| - 1]) + s[|s| - 1]
  }

  /** Sum of one element more at the front. */
  lemma {:induction false} SumCons(x: int, s: seq<int>)
    ensures Sum([x] + s) == x + Sum(s)
  {
    if s != [] {
      assert ([x] + s)[..|[x] + s| - 1] == [x] + s[..|s| - 1];
      SumCons(x, s[..|s| - 1]);
    }
  }

  /** The sum does not depend on the order of the samples. */
  lemma {:induction false} SumPermutation(a: seq<int>, b: seq<int>)
    requires multiset(a) == multiset(b)
    ensures Sum(a) == Sum(b)
  {
    if a != [] {
      var x := a[0];
      assert x in multiset(b);
      var j :| 0 <= j < |b| && b[j] == x;
      var rest := b[..j] + b[j + 1..];
      assert b == b[..j] + [x] + b[j + 1..];
      assert a == [x] + a[1..];
      assert multiset(a) == multiset{x} + multiset(a[1..]);
      assert multiset(b) == multiset(b[..j]) + multiset{x} + multiset(b[j + 1..]);
      assert multiset(rest) == multiset(b[..j]) + multiset(b[j + 1..]);
      assert multiset(a[1..]) == multiset(a) - multiset{x};
      assert multiset(rest) == multiset(b) - multiset{x};
      SumPermutation(a[1..], rest);
      SumCons(x, a[1..]);
      SumMoveFront(b[..j], x, b[j + 1..]);
    }
  }

  /** Moving one element to the front keeps the sum. */
  lemma {:induction false} SumMoveFront(p: seq<int>, x: int, q: seq<int>)
    ensures Sum(p + [x] + q) == x + Sum(p + q)
  {
    if q == [] {
      assert p + [x] + q == p + [x];
      assert (p + [x])[..|p + [x]| - 1] == p;
      assert p + q == p;
    } else {
      var q' := q[..|q| - 1];
      var last := q[|q| - 1];
      assert p + [x] + q == (p + [x] + q') + [last];
      assert (p + [x] + q)[..|p + [x] + q| - 1] == p + [x] + q';
      assert p + q == (p + q') + [last];
      assert (p + q)[..|p + q| - 1] == p + q';
      SumMoveFront(p, x, q');
    }
  }

  /** What `Flush` reports for a non-empty buffer: the first, last and middle
      element of the sorted samples and the integer mean. */
  function Summarize(samples: seq<nat>): (p: Profile)
    requires |samples| > 0
    ensures p.lowest in samples && forall x :: x in samples ==> p.lowest <= x
    ensures p.highest in samples && forall x :: x in samples ==> x <= p.highest
    ensures p.median in samples && p.lowest <= p.median <= p.highest
    ensures p.median == Sort(samples)[|samples| / 2]
    ensures p.mean == Sum(samples) / |samples|
    ensures p.lowest <= p.mean <= p.highest
  {
    var sorted := Sort(samples);
    var size := |sorted|;
    SortedExtremes(samples, sorted);
    SumPermutation(sorted, samples);
    MeanBetween(samples, sorted[0], sorted[size - 1]);
    Profile(sorted[0], sorted[size - 1], sorted[size / 2], Sum(sorted) / size)
  }

  /** An integer mean lies between any lower and upper bound of the samples. */
  lemma MeanBetween(s: seq<nat>, lo: int, hi: int)
    requires |s| > 0
    requires forall x :: x in s ==> lo <= x <= hi
    ensures lo <= Sum(s) / |s| <= hi
  {
    SumBounds(s, lo, hi);
    DivBetween(Sum(s), |s|, lo, hi);
  }

  lemma {:induction false} SumBounds(s: seq<int>, lo: int, hi: int)
    requires forall x :: x in s ==> lo <= x <= hi
    ensures |s| * lo <= Sum(s) <= |s| * hi
  {
    if s != [] {
      var init := s[..|s| - 1];
      assert forall x :: x in init ==> x in s;
      assert s[|s| - 1] in s;
      SumBounds(init, lo, hi);
      assert |s| * lo == |init| * lo + lo;
      assert |s| * hi == |init| * hi + hi;
    }
  }

  lemma DivBetween(total: int, n: nat, lo: int, hi: int)
    requires n > 0 && n * lo <= total <= n * hi
    ensures lo <= total / n <= hi
  {
    var m := total / n;
    assert total == n * m + total % n;
    if m < lo {
      assert n * (m + 1) == n * m + n;
      MulMonotonic(n, m + 1, lo);
      assert false;
    }
    if m > hi {
      assert n * (hi + 1) == n * hi + n;
      MulMonotonic(n, hi + 1, m);
      assert false;
    }
  }

  lemma MulMonotonic(n: nat, a: int, b: int)
    requires a <= b
    ensures n * a <= n * b
  {
    assert n * b - n * a == n * (b - a);
  }

  /** The sample buffer `data_points_`. */
  class Profiler {
    var dataPoints: seq<nat>

    /** A new profiler holds no samples; the size only reserves room. */
    constructor (size: nat)
      ensures dataPoints == []
    {
      dataPoints := [];
    }

    /** Records one elapsed-time sample at the back of the buffer. */
    method End(sample: nat)
      modifies this
      ensures dataPoints == old(dataPoints) + [sample]
    {
      dataPoints := dataPoints + [sample];
    }

    /** Sorts the buffer in place, reads off the summary and clears the buffer.
        An empty buffer is excluded: its front, back and the division by its size
        are undefined. */
    method Flush() returns (p: Profile)
      requires |dataPoints| > 0
      modifies this
      ensures p == Summarize(old(dataPoints))
      ensures dataPoints == []
    {
      SortKeepsNat(dataPoints);
      dataPoints := Sort(dataPoints);
      var size := |dataPoints|;
      var lowest := dataPoints[0];
      var highest := dataPoints[size - 1];
      var median := dataPoints[size / 2];
      var sum := Sum(dataPoints);
      var mean := sum / size;
      dataPoints := [];
      p := Profile(lowest, highest, median, mean);
    }
  }

  /** Sorting non-negative samples gives non-negative samples. */
  lemma SortKeepsNat(s: seq<nat>)
    ensures forall i :: 0 <= i < |Sort(s)| ==> Sort(s)[i] >= 0
  {
    forall i | 0 <= i < |Sort(s)|
      ensures Sort(s)[i] >= 0
    {
      assert Sort(s)[i] in multiset(Sort(s));
    }
  }
}
