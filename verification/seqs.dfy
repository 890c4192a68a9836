/** Order-preserving selection and summation over sequences: the stream `filter`,
    `count` and `sum` steps the queries are built from. */
module Seqs {

  /** `r` is `s` with some elements deleted, the rest kept in their order. */
  ghost predicate IsSubsequence<T>(r: seq<T>, s: seq<T>)
    decreases |s|
  {
    |r| == 0 ||
    (|s| > 0 && if r[0] == s[0] then IsSubsequence(r[1..], s[1..]) else IsSubsequence(r, s[1..]))
  }

  /** The elements of `s` satisfying `p`, in the order of `s`. */
  function Filter<T(!new)>(s: seq<T>, p: T -> bool): (r: seq<T>)
    ensures |r| <= |s|
    ensures forall x :: x in r <==> x in s && p(x)
    ensures forall x :: multiset(r)[x] == if p(x) then multiset(s)[x] else 0
    ensures IsSubsequence(r, s)
  {
    if |s| == 0 then []
    else if p(s[0]) then
      assert s == [s[0]] + s[1..];
      [s[0]] + Filter(s[1..], p)
    else
      assert s == [s[0]] + s[1..];
      Filter(s[1..], p)
  }

  lemma {:induction false} FilterConcat<T(!new)>(a: seq<T>, b: seq<T>, p: T -> bool)
    ensures Filter(a + b, p) == Filter(a, p) + Filter(b, p)
    decreases |a|
  {
    if |a| > 0 {
      assert (a + b)[1..] == a[1..] + b;
      FilterConcat(a[1..], b, p);
    } else {
      assert a + b == b;
    }
  }

  /** Filtering by two predicates that agree everywhere gives the same result. */
  lemma {:induction false} FilterAgree<T(!new)>(s: seq<T>, p: T -> bool, q: T -> bool)
    requires forall x :: p(x) == q(x)
    ensures Filter(s, p) == Filter(s, q)
    decreases |s|
  {
    if |s| > 0 {
      FilterAgree(s[1..], p, q);
    }
  }

  /** Filtering keeps the whole sequence exactly when every element qualifies. */
  lemma {:induction false} FilterAll<T(!new)>(s: seq<T>, p: T -> bool)
    requires forall i :: 0 <= i < |s| ==> p(s[i])
    ensures Filter(s, p) == s
    decreases |s|
  {
    if |s| > 0 {
      FilterAll(s[1..], p);
    }
  }

  /** The sum of `w` over the elements of `s` (DoubleStream.sum over exact reals). */
  function Sum<T>(s: seq<T>, w: T -> real): real
  {
    if |s| == 0 then 0.0 else w(s[0]) + Sum(s[1..], w)
  }

  lemma {:induction false} SumConcat<T>(a: seq<T>, b: seq<T>, w: T -> real)
    ensures Sum(a + b, w) == Sum(a, w) + Sum(b, w)
    decreases |a|
  {
    if |a| > 0 {
      assert (a + b)[1..] == a[1..] + b;
      SumConcat(a[1..], b, w);
    } else {
      assert a + b == b;
    }
  }

  /** A sum of non-negative terms is non-negative. */
  lemma {:induction false} SumNonNegative<T>(s: seq<T>, w: T -> real)
    requires forall i :: 0 <= i < |s| ==> w(s[i]) >= 0.0
    ensures Sum(s, w) >= 0.0
    decreases |s|
  {
    if |s| > 0 {
      SumNonNegative(s[1..], w);
    }
  }

  /** If every term is below `hi` (above `lo`), the sum is below `|s| * hi` (above `|s| * lo`). */
  lemma {:induction false} SumBounds<T>(s: seq<T>, w: T -> real, lo: real, hi: real)
    requires forall i :: 0 <= i < |s| ==> lo <= w(s[i]) <= hi
    ensures (|s| as real) * lo <= Sum(s, w) <= (|s| as real) * hi
    decreases |s|
  {
    if |s| > 0 {
      SumBounds(s[1..], w, lo, hi);
    }
  }

  /** Sum of a single term. */
  lemma SumSingleton<T>(x: T, w: T -> real)
    ensures Sum([x], w) == w(x)
  {
    assert [x][1..] == [];
  }

  /** `r` is the arithmetic mean of `w` over `s`: `r` times the number of terms is their
      sum, and the mean of nothing is 0 (DoubleStream.average().orElse(0.0)). */
  predicate IsMean<T>(r: real, s: seq<T>, w: T -> real)
  {
    if |s| == 0 then r == 0.0 else r * (|s| as real) == Sum(s, w)
  }

  /** The mean of `w` over `s`, 0 when there is nothing to average. */
  function Mean<T>(s: seq<T>, w: T -> real): (r: real)
    ensures IsMean(r, s, w)
  {
    if |s| == 0 then 0.0 else Sum(s, w) / (|s| as real)
  }

  /** A mean lies between any lower and upper bound of its terms. */
  lemma MeanBounds<T>(s: seq<T>, w: T -> real, r: real, lo: real, hi: real)
    requires IsMean(r, s, w) && |s| > 0
    requires forall i :: 0 <= i < |s| ==> lo <= w(s[i]) <= hi
    ensures lo <= r <= hi
  {
    SumBounds(s, w, lo, hi);
    var n := |s| as real;
    CancelPositive(lo, r, n);
    CancelPositive(r, hi, n);
  }

  /** A mean of non-negative terms is non-negative. */
  lemma MeanNonNegative<T>(s: seq<T>, w: T -> real, r: real)
    requires IsMean(r, s, w)
    requires forall i :: 0 <= i < |s| ==> w(s[i]) >= 0.0
    ensures r >= 0.0
  {
    SumNonNegative(s, w);
    if |s| > 0 {
      CancelPositive(0.0, r, |s| as real);
    }
  }

  lemma CancelPositive(a: real, b: real, n: real)
    requires n > 0.0 && a * n <= b * n
    ensures a <= b
  {
  }

  /** All elements of `s` are distinct. */
  predicate Distinct<T(==)>(s: seq<T>)
  {
    forall i, j :: 0 <= i < j < |s| ==> s[i] != s[j]
  }

  /** Filtering a sequence without repetitions keeps as many elements as the set of
      its qualifying elements has. */
  lemma {:induction false} FilterCardinality<T(!new)>(s: seq<T>, p: T -> bool, qualifying: set<T>)
    requires Distinct(s)
    requires forall x :: x in qualifying <==> x in s && p(x)
    ensures |Filter(s, p)| == |qualifying|
    decreases |s|
  {
    if |s| > 0 {
      var rest := qualifying - {s[0]};
      QualifyingTail(s, p, qualifying);
      FilterCardinality(s[1..], p, rest);
      RemoveOne(qualifying, s[0]);
      assert s[0] in qualifying <==> p(s[0]);
    } else {
      assert qualifying == {};
    }
  }

  /** Without the head, the qualifying elements of a sequence without repetitions are
      those of its tail. */
  lemma QualifyingTail<T>(s: seq<T>, p: T -> bool, qualifying: set<T>)
    requires |s| > 0 && Distinct(s)
    requires forall x :: x in qualifying <==> x in s && p(x)
    ensures Distinct(s[1..])
    ensures forall x :: x in qualifying - {s[0]} <==> x in s[1..] && p(x)
  {
    assert s == [s[0]] + s[1..];
    assert s[0] !in s[1..];
  }

  /** Removing one element shrinks a set by one exactly when it was there. */
  lemma RemoveOne<T>(q: set<T>, x: T)
    ensures |q| == |q - {x}| + (if x in q then 1 else 0)
  {
    if x in q {
      assert q == (q - {x}) + {x};
    } else {
      assert q - {x} == q;
    }
  }

  /** The elements of `s` without repetitions, each at its first occurrence. */
  function Dedupe<T(==,!new)>(s: seq<T>): (r: seq<T>)
    ensures Distinct(r)
    ensures forall x :: x in r <==> x in s
    ensures |r| <= |s|
    decreases |s|
  {
    if |s| == 0 then []
    else
      var d := Dedupe(s[..|s| - 1]);
      assert forall x :: x in s <==> x in s[..|s| - 1] || x == s[|s| - 1] by {
        assert s == s[..|s| - 1] + [s[|s| - 1]];
      }
      if s[|s| - 1] in d then d else d + [s[|s| - 1]]
  }
}
