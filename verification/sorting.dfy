/** List.sort / Collections.sort / Stream.sorted over a comparator: a stable sort,
    modelled as insertion sort, proved to return a sorted permutation that keeps the
    relative order of elements that compare equal. */
module Sorting {
  import opened Entity
  import opened Comparators

  /** No element compares greater than one after it. */
  ghost predicate SortedBy(s: seq<Employee>, cmp: Comparator)
  {
    forall i, j :: 0 <= i < j < |s| ==> cmp(s[i], s[j]) <= 0
  }

  /** Places `x` after every element of `s` that does not compare greater than it. */
  function Insert(x: Employee, s: seq<Employee>, cmp: Comparator): (r: seq<Employee>)
    ensures multiset(r) == multiset(s) + multiset{x}
    decreases |s|
  {
    if |s| == 0 then [x]
    else if cmp(x, s[0]) < 0 then [x] + s
    else
      assert s == [s[0]] + s[1..];
      [s[0]] + Insert(x, s[1..], cmp)
  }

  lemma SortedCons(x: Employee, s: seq<Employee>, cmp: Comparator)
    requires SortedBy(s, cmp)
    requires forall j :: 0 <= j < |s| ==> cmp(x, s[j]) <= 0
    ensures SortedBy([x] + s, cmp)
  {
  }

  lemma {:induction false} InsertKeepsSorted(x: Employee, s: seq<Employee>, cmp: Comparator)
    requires IsComparator(cmp) && SortedBy(s, cmp)
    ensures SortedBy(Insert(x, s, cmp), cmp)
    decreases |s|
  {
    if |s| > 0 {
      if cmp(x, s[0]) < 0 {
        forall j | 0 < j < |s| ensures cmp(x, s[j]) <= 0 {
          StrictThenWeak(cmp, x, s[0], s[j]);
        }
        SortedCons(x, s, cmp);
      } else {
        var rest := Insert(x, s[1..], cmp);
        InsertKeepsSorted(x, s[1..], cmp);
        forall j | 0 <= j < |rest| ensures cmp(s[0], rest[j]) <= 0 {
          assert rest[j] in multiset(rest);
          if rest[j] != x {
            var k :| 0 <= k < |s[1..]| && s[1..][k] == rest[j];
            assert cmp(s[0], s[k + 1]) <= 0;
          } else {
            assert Sign(cmp(s[0], x)) == -Sign(cmp(x, s[0]));
          }
        }
        SortedCons(s[0], rest, cmp);
      }
    }
  }

  /** The sort List.sort performs: stable, so it is a sorted permutation (here) whose
      equal-comparing elements keep their input order (SortIsStable). */
  function Sort(s: seq<Employee>, cmp: Comparator): (r: seq<Employee>)
    requires IsComparator(cmp)
    ensures multiset(r) == multiset(s)
    ensures |r| == |s|
    ensures SortedBy(r, cmp)
    decreases |s|
  {
    if |s| == 0 then []
    else
      assert s == s[..|s| - 1] + [s[|s| - 1]];
      var sorted := Sort(s[..|s| - 1], cmp);
      InsertKeepsSorted(s[|s| - 1], sorted, cmp);
      var r := Insert(s[|s| - 1], sorted, cmp);
      assert |r| == |multiset(r)|;
      r
  }

  /** The elements of `s` that compare equal to `x`, in the order of `s`. */
  function TiesWith(s: seq<Employee>, x: Employee, cmp: Comparator): seq<Employee>
  {
    if |s| == 0 then []
    else (if cmp(s[0], x) == 0 then [s[0]] else []) + TiesWith(s[1..], x, cmp)
  }

  lemma {:induction false} TiesConcat(a: seq<Employee>, b: seq<Employee>, x: Employee, cmp: Comparator)
    ensures TiesWith(a + b, x, cmp) == TiesWith(a, x, cmp) + TiesWith(b, x, cmp)
    decreases |a|
  {
    if |a| == 0 {
      assert a + b == b;
    } else {
      assert (a + b)[1..] == a[1..] + b;
      TiesConcat(a[1..], b, x, cmp);
    }
  }

  lemma TiesCons(s: seq<Employee>, x: Employee, cmp: Comparator)
    requires |s| > 0
    ensures TiesWith(s, x, cmp) == TiesWith([s[0]], x, cmp) + TiesWith(s[1..], x, cmp)
  {
    TiesSingleton(s[0], x, cmp);
  }

  lemma TiesSingleton(y: Employee, x: Employee, cmp: Comparator)
    ensures TiesWith([y], x, cmp) == if cmp(y, x) == 0 then [y] else []
  {
    assert [y][1..] == [];
  }

  lemma {:induction false} NoTies(s: seq<Employee>, x: Employee, cmp: Comparator)
    requires forall j :: 0 <= j < |s| ==> cmp(s[j], x) != 0
    ensures TiesWith(s, x, cmp) == []
    decreases |s|
  {
    if |s| > 0 {
      NoTies(s[1..], x, cmp);
    }
  }

  /** Everything after an element that sorts strictly before `x`'s peers is no peer of `x`. */
  lemma NoTiesAfterSmaller(y: Employee, s: seq<Employee>, x: Employee, cmp: Comparator)
    requires IsComparator(cmp) && SortedBy(s, cmp)
    requires |s| > 0 && cmp(y, s[0]) < 0 && cmp(y, x) == 0
    ensures TiesWith(s, x, cmp) == []
  {
    forall j | 0 <= j < |s| ensures cmp(s[j], x) != 0 {
      if j > 0 {
        StrictThenWeak(cmp, y, s[0], s[j]);
      }
      assert cmp(y, s[j]) < 0;
      assert Sign(cmp(x, y)) == 0;
      assert cmp(s[j], y) > 0;
    }
    NoTies(s, x, cmp);
  }

  /** The peers of `x` after inserting `y` in front of `s`. */
  lemma InsertTiesFront(y: Employee, s: seq<Employee>, x: Employee, cmp: Comparator)
    requires |s| == 0 || cmp(y, s[0]) < 0
    requires cmp(y, x) == 0 ==> TiesWith(s, x, cmp) == []
    ensures TiesWith(Insert(y, s, cmp), x, cmp)
            == TiesWith(s, x, cmp) + (if cmp(y, x) == 0 then [y] else [])
  {
    assert Insert(y, s, cmp) == [y] + s;
    TiesConcat([y], s, x, cmp);
    TiesSingleton(y, x, cmp);
  }

  /** The peers of `x` after inserting `y` behind the head of `s`. */
  lemma InsertTiesBehind(y: Employee, s: seq<Employee>, x: Employee, cmp: Comparator)
    requires |s| > 0 && cmp(y, s[0]) >= 0
    requires TiesWith(Insert(y, s[1..], cmp), x, cmp)
             == TiesWith(s[1..], x, cmp) + (if cmp(y, x) == 0 then [y] else [])
    ensures TiesWith(Insert(y, s, cmp), x, cmp)
            == TiesWith(s, x, cmp) + (if cmp(y, x) == 0 then [y] else [])
  {
    var rest := Insert(y, s[1..], cmp);
    var own := if cmp(y, x) == 0 then [y] else [];
    var head := TiesWith([s[0]], x, cmp);
    assert Insert(y, s, cmp) == [s[0]] + rest;
    TiesConcat([s[0]], rest, x, cmp);
    TiesCons(s, x, cmp);
    calc {
      TiesWith(Insert(y, s, cmp), x, cmp);
      head + TiesWith(rest, x, cmp);
      head + (TiesWith(s[1..], x, cmp) + own);
      (head + TiesWith(s[1..], x, cmp)) + own;
      TiesWith(s, x, cmp) + own;
    }
  }

  lemma {:induction false} InsertTies(y: Employee, s: seq<Employee>, x: Employee, cmp: Comparator)
    requires IsComparator(cmp) && SortedBy(s, cmp)
    ensures TiesWith(Insert(y, s, cmp), x, cmp)
            == TiesWith(s, x, cmp) + (if cmp(y, x) == 0 then [y] else [])
    decreases |s|
  {
    if |s| == 0 || cmp(y, s[0]) < 0 {
      if |s| > 0 && cmp(y, x) == 0 {
        NoTiesAfterSmaller(y, s, x, cmp);
      }
      InsertTiesFront(y, s, x, cmp);
    } else {
      InsertTies(y, s[1..], x, cmp);
      InsertTiesBehind(y, s, x, cmp);
    }
  }

  /** Stability: sorting keeps, for every `x`, the elements comparing equal to `x`
      in exactly their original order. */
  lemma {:induction false} SortIsStable(s: seq<Employee>, x: Employee, cmp: Comparator)
    requires IsComparator(cmp)
    ensures TiesWith(Sort(s, cmp), x, cmp) == TiesWith(s, x, cmp)
    decreases |s|
  {
    if |s| > 0 {
      var init, last := s[..|s| - 1], s[|s| - 1];
      assert s == init + [last];
      SortIsStable(init, x, cmp);
      InsertTies(last, Sort(init, cmp), x, cmp);
      TiesConcat(init, [last], x, cmp);
      TiesSingleton(last, x, cmp);
    }
  }
}
