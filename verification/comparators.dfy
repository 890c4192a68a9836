/** The ordering strategies: Employee.compareTo (the natural order), the salary,
    performance, department and name comparators, and the two compound orders built
    with Comparator.thenComparing. */
module Comparators {
  import opened Text
  import opened Entity

  function Sign(x: int): int
  {
    if x < 0 then -1 else if x > 0 then 1 else 0
  }

  /** Integer.compare. */
  function IntCompare(x: int, y: int): (r: int)
    ensures r < 0 <==> x < y
    ensures r == 0 <==> x == y
  {
    if x < y then -1 else if x == y then 0 else 1
  }

  /** Double.compare, for values that are neither NaN nor signed zeros. */
  function RealCompare(x: real, y: real): (r: int)
    ensures r < 0 <==> x < y
    ensures r == 0 <==> x == y
  {
    if x < y then -1 else if x == y then 0 else 1
  }

  /** String.compareTo: Java compares the UTF-16 code units, not the characters. */
  function CompareStrings(a: string, b: string): (r: int)
    ensures r == 0 <==> a == b
  {
    if Utf16(a) == Utf16(b) then
      Utf16Injective(a, b);
      CompareUnits(Utf16(a), Utf16(b))
    else
      CompareUnits(Utf16(a), Utf16(b))
  }

  /** The loop of String.compareTo: the difference of the first differing code units,
      or of the lengths when one sequence is a prefix of the other. */
  function CompareUnits(x: seq<int>, y: seq<int>): (r: int)
    ensures r == 0 <==> x == y
    decreases |x|
  {
    if |x| == 0 || |y| == 0 then |x| - |y|
    else if x[0] != y[0] then x[0] - y[0]
    else
      assert x == [x[0]] + x[1..] && y == [y[0]] + y[1..];
      CompareUnits(x[1..], y[1..])
  }

  /** `x` and `y` agree on their first `k` units, and there `x` ends or has the smaller
      unit while `y` goes on. */
  ghost predicate UnitsLessAt(x: seq<int>, y: seq<int>, k: nat)
  {
    && k <= |x| && k <= |y| && x[..k] == y[..k]
    && ((k == |x| && k < |y|) || (k < |x| && k < |y| && x[k] < y[k]))
  }

  /** The lexicographic order on code-unit sequences. */
  ghost predicate UnitsLess(x: seq<int>, y: seq<int>)
  {
    exists k: nat :: UnitsLessAt(x, y, k)
  }

  /** The lexicographic order on strings as Java sees them: on their UTF-16 code units. */
  ghost predicate LexLess(a: string, b: string)
  {
    UnitsLess(Utf16(a), Utf16(b))
  }

  lemma {:induction false} CompareUnitsIsLexicographic(x: seq<int>, y: seq<int>)
    ensures CompareUnits(x, y) < 0 <==> UnitsLess(x, y)
    decreases |x|
  {
    if |x| == 0 || |y| == 0 {
      if |x| == 0 && |y| > 0 {
        assert UnitsLessAt(x, y, 0);
      }
    } else if x[0] != y[0] {
      if x[0] < y[0] {
        assert UnitsLessAt(x, y, 0);
      }
      if UnitsLess(x, y) {
        var k: nat :| UnitsLessAt(x, y, k);
        if k > 0 {
          assert x[..k][0] == y[..k][0];
        }
      }
    } else {
      CompareUnitsIsLexicographic(x[1..], y[1..]);
      if UnitsLess(x[1..], y[1..]) {
        var k: nat :| UnitsLessAt(x[1..], y[1..], k);
        assert x[..k + 1] == [x[0]] + x[1..][..k];
        assert y[..k + 1] == [y[0]] + y[1..][..k];
        assert UnitsLessAt(x, y, k + 1);
      }
      if UnitsLess(x, y) {
        var k: nat :| UnitsLessAt(x, y, k);
        assert k > 0;
        assert x[1..][..k - 1] == x[..k][1..];
        assert y[1..][..k - 1] == y[..k][1..];
        assert UnitsLessAt(x[1..], y[1..], k - 1);
      }
    }
  }

  lemma {:induction false} CompareUnitsAntisymmetric(x: seq<int>, y: seq<int>)
    ensures Sign(CompareUnits(x, y)) == -Sign(CompareUnits(y, x))
    decreases |x|
  {
    if |x| > 0 && |y| > 0 && x[0] == y[0] {
      CompareUnitsAntisymmetric(x[1..], y[1..]);
    }
  }

  lemma {:induction false} CompareUnitsTransitive(x: seq<int>, y: seq<int>, z: seq<int>)
    requires CompareUnits(x, y) <= 0 && CompareUnits(y, z) <= 0
    ensures CompareUnits(x, z) <= 0
    decreases |x|
  {
    if |x| > 0 && |y| > 0 && |z| > 0 && x[0] == y[0] && y[0] == z[0] {
      CompareUnitsTransitive(x[1..], y[1..], z[1..]);
    }
  }

  lemma CompareStringsIsLexicographic(a: string, b: string)
    ensures CompareStrings(a, b) < 0 <==> LexLess(a, b)
  {
    CompareUnitsIsLexicographic(Utf16(a), Utf16(b));
  }

  lemma CompareStringsAntisymmetric(a: string, b: string)
    ensures Sign(CompareStrings(a, b)) == -Sign(CompareStrings(b, a))
  {
    CompareUnitsAntisymmetric(Utf16(a), Utf16(b));
  }

  lemma CompareStringsTransitive(a: string, b: string, c: string)
    requires CompareStrings(a, b) <= 0 && CompareStrings(b, c) <= 0
    ensures CompareStrings(a, c) <= 0
  {
    CompareUnitsTransitive(Utf16(a), Utf16(b), Utf16(c));
  }

  /** A character above U+FFFF is stored as a surrogate pair starting at 0xD83D, so
      String.compareTo puts it before U+FFFF, although its code point is larger. */
  lemma SupplementaryBeforeBmpEnd()
    ensures CompareStrings("\U{1F600}", "\U{FFFF}") < 0
    ensures |Utf16("\U{1F600}")| == 2
  {
    assert Utf16("\U{1F600}") == [0xD83D, 0xDE00];
    assert Utf16("\U{FFFF}") == [0xFFFF];
  }

  /** A java.util.Comparator over employees. */
  type Comparator = (Employee, Employee) -> int

  /** The Comparator contract that List.sort relies on: the sign flips when the
      arguments are swapped, and "not greater" is transitive. Together they make
      `cmp(a, a) == 0` and make equal-comparing elements interchangeable. */
  ghost predicate IsComparator(cmp: Comparator)
  {
    && (forall a, b :: Sign(cmp(a, b)) == -Sign(cmp(b, a)))
    && (forall a, b, c :: cmp(a, b) <= 0 && cmp(b, c) <= 0 ==> cmp(a, c) <= 0)
  }

  /** Comparator.thenComparing: the second order breaks the ties of the first. */
  function ThenComparing(first: Comparator, second: Comparator, a: Employee, b: Employee): int
  {
    var r := first(a, b);
    if r != 0 then r else second(a, b)
  }

  lemma ThenComparingIsComparator(first: Comparator, second: Comparator)
    requires IsComparator(first) && IsComparator(second)
    ensures IsComparator((a, b) => ThenComparing(first, second, a, b))
  {
    var t := (a, b) => ThenComparing(first, second, a, b);
    forall a, b, c | t(a, b) <= 0 && t(b, c) <= 0
      ensures t(a, c) <= 0
    {
      if first(a, b) < 0 {
        StrictThenWeak(first, a, b, c);
      } else if first(b, c) < 0 {
        WeakThenStrict(first, a, b, c);
      }
    }
  }

  /** `a` before `b` and `b` not after `c` puts `a` strictly before `c`. */
  lemma StrictThenWeak(cmp: Comparator, a: Employee, b: Employee, c: Employee)
    requires IsComparator(cmp)
    requires cmp(a, b) < 0 && cmp(b, c) <= 0
    ensures cmp(a, c) < 0
  {
  }

  lemma WeakThenStrict(cmp: Comparator, a: Employee, b: Employee, c: Employee)
    requires IsComparator(cmp)
    requires cmp(a, b) <= 0 && cmp(b, c) < 0
    ensures cmp(a, c) < 0
  {
  }

  /** Employee.compareTo: the natural order, years of experience ascending. */
  function CompareTo(a: Employee, b: Employee): (r: int)
    ensures r < 0 <==> a.years < b.years
    ensures r == 0 <==> a.years == b.years
    ensures r > 0 <==> a.years > b.years
  {
    IntCompare(a.years, b.years)
  }

  /** EmployeeSalaryComparator: highest salary first. */
  function SalaryDescending(a: Employee, b: Employee): (r: int)
    ensures r < 0 <==> a.salary > b.salary
    ensures r == 0 <==> a.salary == b.salary
    ensures r > 0 <==> a.salary < b.salary
  {
    RealCompare(b.salary, a.salary)
  }

  /** EmployeePerformanceComparator: best rating first; nothing but the ratings matters. */
  function PerformanceDescending(a: Employee, b: Employee): (r: int)
    ensures r < 0 <==> a.rating > b.rating
    ensures r == 0 <==> a.rating == b.rating
    ensures r > 0 <==> a.rating < b.rating
  {
    RealCompare(b.rating, a.rating)
  }

  /** EmployeeDepartmentComparator: department names in lexicographic order. */
  function DepartmentAscending(a: Employee, b: Employee): (r: int)
    ensures r < 0 <==> LexLess(a.department, b.department)
    ensures r == 0 <==> a.department == b.department
  {
    CompareStringsIsLexicographic(a.department, b.department);
    CompareStrings(a.department, b.department)
  }

  /** EmployeeNameComparator: names in lexicographic order. */
  function NameAscending(a: Employee, b: Employee): (r: int)
    ensures r < 0 <==> LexLess(a.name, b.name)
    ensures r == 0 <==> a.name == b.name
  {
    CompareStringsIsLexicographic(a.name, b.name);
    CompareStrings(a.name, b.name)
  }

  /** The tie-breaker of byPerformanceThenExperience: most years first. */
  function YearsDescending(a: Employee, b: Employee): (r: int)
    ensures r < 0 <==> a.years > b.years
    ensures r == 0 <==> a.years == b.years
  {
    IntCompare(b.years, a.years)
  }

  /** EmployeeComparatorFactory.byDepartmentThenSalary. */
  function DepartmentThenSalary(a: Employee, b: Employee): (r: int)
    ensures r < 0 <==>
              LexLess(a.department, b.department)
              || (a.department == b.department && a.salary > b.salary)
    ensures r == 0 <==> a.department == b.department && a.salary == b.salary
  {
    ThenComparing(DepartmentAscending, SalaryDescending, a, b)
  }

  /** EmployeeComparatorFactory.byPerformanceThenExperience. */
  function PerformanceThenExperience(a: Employee, b: Employee): (r: int)
    ensures r < 0 <==> a.rating > b.rating || (a.rating == b.rating && a.years > b.years)
    ensures r == 0 <==> a.rating == b.rating && a.years == b.years
  {
    ThenComparing(PerformanceDescending, YearsDescending, a, b)
  }

  lemma CompareToIsComparator()
    ensures IsComparator(CompareTo)
  {
  }

  lemma SalaryDescendingIsComparator()
    ensures IsComparator(SalaryDescending)
  {
  }

  lemma PerformanceDescendingIsComparator()
    ensures IsComparator(PerformanceDescending)
  {
  }

  lemma YearsDescendingIsComparator()
    ensures IsComparator(YearsDescending)
  {
  }

  lemma DepartmentAscendingIsComparator()
    ensures IsComparator(DepartmentAscending)
  {
    forall a, b
      ensures Sign(DepartmentAscending(a, b)) == -Sign(DepartmentAscending(b, a))
    {
      CompareStringsAntisymmetric(a.department, b.department);
    }
    forall a, b, c | DepartmentAscending(a, b) <= 0 && DepartmentAscending(b, c) <= 0
      ensures DepartmentAscending(a, c) <= 0
    {
      CompareStringsTransitive(a.department, b.department, c.department);
    }
  }

  lemma NameAscendingIsComparator()
    ensures IsComparator(NameAscending)
  {
    forall a, b
      ensures Sign(NameAscending(a, b)) == -Sign(NameAscending(b, a))
    {
      CompareStringsAntisymmetric(a.name, b.name);
    }
    forall a, b, c | NameAscending(a, b) <= 0 && NameAscending(b, c) <= 0
      ensures NameAscending(a, c) <= 0
    {
      CompareStringsTransitive(a.name, b.name, c.name);
    }
  }

  lemma DepartmentThenSalaryIsComparator()
    ensures IsComparator(DepartmentThenSalary)
  {
    DepartmentAscendingIsComparator();
    ThenComparingIsComparator(DepartmentAscending, SalaryDescending);
  }

  lemma PerformanceThenExperienceIsComparator()
    ensures IsComparator(PerformanceThenExperience)
  {
    ThenComparingIsComparator(PerformanceDescending, YearsDescending);
  }
}
