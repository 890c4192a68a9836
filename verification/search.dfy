/** EmployeeSearchEngine: read-only queries over the store's listing. Filters keep the
    listing's order, sorted views are stable sorts of the listing, and the aggregates
    are computed over it. No query changes the store. */
module SearchEngine {
  import opened Results
  import opened Text
  import opened Entity
  import opened Comparators
  import opened Sorting
  import opened Seqs
  import opened Grouping
  import opened EmployeeDB

  // ---- filters ----

  /** The department equals `department` ignoring case. */
  function SameDepartment(department: string): Employee -> bool
  {
    (e: Employee) => EqualsIgnoreCase(e.department, department)
  }

  /** findByDepartment: departments equal to the argument ignoring case. */
  function FindByDepartment(db: Db, department: string): (r: seq<Employee>)
    ensures forall e :: e in r <==>
              e in GetAllEmployees(db) && EqualsIgnoreCase(e.department, department)
    ensures IsSubsequence(r, GetAllEmployees(db))
  {
    Filter(GetAllEmployees(db), SameDepartment(department))
  }

  /** findByName: the lower-cased name contains the lower-cased search term. */
  function FindByName(db: Db, term: string): (r: seq<Employee>)
    ensures forall e :: e in r <==>
              e in GetAllEmployees(db) && Contains(ToLower(e.name), ToLower(term))
    ensures IsSubsequence(r, GetAllEmployees(db))
  {
    Filter(GetAllEmployees(db), (e: Employee) => Contains(ToLower(e.name), ToLower(term)))
  }

  /** findByMinimumRating: rating at least the minimum. */
  function FindByMinimumRating(db: Db, minRating: real): (r: seq<Employee>)
    ensures forall e :: e in r <==> e in GetAllEmployees(db) && e.rating >= minRating
    ensures IsSubsequence(r, GetAllEmployees(db))
  {
    Filter(GetAllEmployees(db), (e: Employee) => e.rating >= minRating)
  }

  /** findBySalaryRange: salary within the closed interval [minSalary, maxSalary]. */
  function FindBySalaryRange(db: Db, minSalary: real, maxSalary: real): (r: seq<Employee>)
    ensures forall e :: e in r <==>
              e in GetAllEmployees(db) && minSalary <= e.salary <= maxSalary
    ensures IsSubsequence(r, GetAllEmployees(db))
  {
    Filter(GetAllEmployees(db), (e: Employee) => e.salary >= minSalary && e.salary <= maxSalary)
  }

  /** findActiveEmployees. */
  function FindActiveEmployees(db: Db): (r: seq<Employee>)
    ensures forall e :: e in r <==> e in GetAllEmployees(db) && e.active
    ensures IsSubsequence(r, GetAllEmployees(db))
  {
    Filter(GetAllEmployees(db), IsActive)
  }

  /** An inverted salary range matches nobody. */
  lemma SalaryRangeInverted(db: Db, minSalary: real, maxSalary: real)
    requires minSalary > maxSalary
    ensures FindBySalaryRange(db, minSalary, maxSalary) == []
  {
  }

  /** The empty search term matches every employee, in listing order. */
  lemma {:induction false} EmptyTermMatchesAll(db: Db)
    ensures FindByName(db, "") == GetAllEmployees(db)
  {
    var rows := GetAllEmployees(db);
    FilterAll(rows, (e: Employee) => Contains(ToLower(e.name), ToLower("")));
  }

  /** The search term's case does not matter. */
  lemma NameSearchIgnoresCase(db: Db, t: string, u: string)
    requires EqualsIgnoreCase(t, u)
    ensures FindByName(db, t) == FindByName(db, u)
  {
    assert ToLower(t) == ToLower(u);
  }

  // ---- sorted views ----

  /** getAllEmployeesByExperience: natural order, fewest years first (the method's doc
      comment says most experienced first; compareTo is ascending). It is the store's own
      sorted listing, so the two views never disagree. */
  function AllEmployeesByExperience(db: Db): (r: seq<Employee>)
    ensures multiset(r) == multiset(GetAllEmployees(db))
    ensures forall i, j :: 0 <= i < j < |r| ==> r[i].years <= r[j].years
    ensures |r| > 0 ==> forall e :: e in GetAllEmployees(db) ==> r[0].years <= e.years
  {
    var r := GetAllEmployeesSorted(db);
    LeastYearsFirst(r, GetAllEmployees(db));
    r
  }

  /** The head of a permutation sorted by ascending years has the fewest years. */
  lemma LeastYearsFirst(r: seq<Employee>, s: seq<Employee>)
    requires multiset(r) == multiset(s)
    requires forall i, j :: 0 <= i < j < |r| ==> r[i].years <= r[j].years
    ensures |r| > 0 ==> forall e :: e in s ==> r[0].years <= e.years
  {
    forall e | e in s && |r| > 0 ensures r[0].years <= e.years {
      assert e in multiset(s);
      assert e in r;
      var k :| 0 <= k < |r| && r[k] == e;
      if k > 0 {
        assert r[0].years <= r[k].years;
      }
    }
  }

  /** getAllEmployeesBySalary: highest salary first. */
  function AllEmployeesBySalary(db: Db): (r: seq<Employee>)
    ensures multiset(r) == multiset(GetAllEmployees(db))
    ensures forall i, j :: 0 <= i < j < |r| ==> r[i].salary >= r[j].salary
  {
    SalaryDescendingIsComparator();
    Sort(GetAllEmployees(db), SalaryDescending)
  }

  /** getAllEmployeesByPerformance: best rating first. */
  function AllEmployeesByPerformance(db: Db): (r: seq<Employee>)
    ensures multiset(r) == multiset(GetAllEmployees(db))
    ensures forall i, j :: 0 <= i < j < |r| ==> r[i].rating >= r[j].rating
  {
    PerformanceDescendingIsComparator();
    Sort(GetAllEmployees(db), PerformanceDescending)
  }

  /** getAllEmployeesByDepartmentAndSalary: departments in lexicographic order, and
      within one department the highest salary first. */
  function AllEmployeesByDepartmentAndSalary(db: Db): (r: seq<Employee>)
    ensures multiset(r) == multiset(GetAllEmployees(db))
    ensures forall i, j :: 0 <= i < j < |r| ==>
              && !LexLess(r[j].department, r[i].department)
              && (r[i].department == r[j].department ==> r[i].salary >= r[j].salary)
  {
    DepartmentThenSalaryIsComparator();
    var r := Sort(GetAllEmployees(db), DepartmentThenSalary);
    DepartmentThenSalaryOrder(r);
    r
  }

  /** Being sorted by the department-then-salary comparator means exactly: departments
      never go down, and within a department salaries never go up. */
  lemma DepartmentThenSalaryOrder(r: seq<Employee>)
    ensures SortedBy(r, DepartmentThenSalary) <==>
              forall i, j :: 0 <= i < j < |r| ==>
                && !LexLess(r[j].department, r[i].department)
                && (r[i].department == r[j].department ==> r[i].salary >= r[j].salary)
  {
    forall i, j | 0 <= i < j < |r|
      ensures DepartmentThenSalary(r[i], r[j]) <= 0 <==>
                && !LexLess(r[j].department, r[i].department)
                && (r[i].department == r[j].department ==> r[i].salary >= r[j].salary)
    {
      CompareStringsIsLexicographic(r[j].department, r[i].department);
      CompareStringsIsLexicographic(r[i].department, r[j].department);
      CompareStringsAntisymmetric(r[i].department, r[j].department);
    }
  }

  /** getAllEmployeesByPerformanceAndExperience: best rating first, and among equal
      ratings the most years first. */
  function AllEmployeesByPerformanceAndExperience(db: Db): (r: seq<Employee>)
    ensures multiset(r) == multiset(GetAllEmployees(db))
    ensures forall i, j :: 0 <= i < j < |r| ==>
              && r[i].rating >= r[j].rating
              && (r[i].rating == r[j].rating ==> r[i].years >= r[j].years)
  {
    PerformanceThenExperienceIsComparator();
    var r := Sort(GetAllEmployees(db), PerformanceThenExperience);
    assert forall i, j :: 0 <= i < j < |r| ==> PerformanceThenExperience(r[i], r[j]) <= 0;
    r
  }

  /** sortEmployees: any comparator that honours the Comparator contract. */
  function SortEmployees(db: Db, cmp: Comparator): (r: seq<Employee>)
    requires IsComparator(cmp)
    ensures multiset(r) == multiset(GetAllEmployees(db))
    ensures forall i, j :: 0 <= i < j < |r| ==> cmp(r[i], r[j]) <= 0
  {
    Sort(GetAllEmployees(db), cmp)
  }

  /** List.sort is stable: employees that compare equal keep their listing order. */
  lemma SortEmployeesIsStable(db: Db, cmp: Comparator, x: Employee)
    requires IsComparator(cmp)
    ensures TiesWith(SortEmployees(db, cmp), x, cmp) == TiesWith(GetAllEmployees(db), x, cmp)
  {
    SortIsStable(GetAllEmployees(db), x, cmp);
  }

  // ---- aggregates ----

  /** getDepartmentCounts: one key per department string present (case-sensitive),
      mapped to the number of employees with exactly that string. */
  function DepartmentCounts(db: Db): (m: map<string, nat>)
    ensures forall d :: d in m <==> exists e :: e in GetAllEmployees(db) && e.department == d
    ensures forall d :: d in m ==> m[d] == |Members(GetAllEmployees(db), d)|
  {
    var rows := GetAllEmployees(db);
    forall d ensures HasDepartment(rows, d) <==> exists e :: e in rows && e.department == d {
      if HasDepartment(rows, d) {
        var i :| 0 <= i < |rows| && rows[i].department == d;
        assert rows[i] in rows;
      }
    }
    Tally(rows)
  }

  /** The sum of the map's values taken over the keys `ks`. */
  function SumCounts(ks: seq<string>, m: map<string, nat>): nat
    requires forall k :: k in ks ==> k in m
  {
    if |ks| == 0 then 0 else m[ks[0]] + SumCounts(ks[1..], m)
  }

  lemma {:induction false} SumCountsIsGroupSizes(ks: seq<string>, rows: seq<Employee>,
                                                 m: map<string, nat>)
    requires forall k :: k in ks ==> k in m && m[k] == |Members(rows, k)|
    ensures SumCounts(ks, m) == GroupSizes(ks, rows)
    decreases |ks|
  {
    if |ks| > 0 {
      SumCountsIsGroupSizes(ks[1..], rows, m);
    }
  }

  /** Every count is at least one, and the counts over the keys (each once) add up to the
      number of employees. */
  lemma DepartmentCountsSum(db: Db)
    ensures forall d :: d in DepartmentCounts(db) ==> DepartmentCounts(db)[d] >= 1
    ensures var ks := Departments(GetAllEmployees(db));
            && Distinct(ks)
            && (forall d :: d in ks <==> d in DepartmentCounts(db))
            && SumCounts(ks, DepartmentCounts(db)) == GetEmployeeCount(db)
  {
    var rows := GetAllEmployees(db);
    var m := DepartmentCounts(db);
    var ks := Departments(rows);
    forall d | d in m ensures m[d] >= 1 {
      TallyPositive(rows, d);
    }
    SumCountsIsGroupSizes(ks, rows, m);
    GroupSizesPartition(rows);
  }

  /** getAverageSalary: 0 for an empty store, otherwise total salary over head count. */
  function AverageSalary(db: Db): (r: real)
    ensures IsMean(r, GetAllEmployees(db), Pay)
  {
    Mean(GetAllEmployees(db), Pay)
  }

  /** The average lies between the lowest and the highest salary, so it is never
      negative. */
  lemma AverageSalaryBounds(db: Db, lo: real, hi: real)
    requires forall e :: e in GetAllEmployees(db) ==> lo <= e.salary <= hi
    requires GetEmployeeCount(db) > 0
    ensures lo <= AverageSalary(db) <= hi
    ensures AverageSalary(db) >= 0.0
  {
    var rows := GetAllEmployees(db);
    assert forall i :: 0 <= i < |rows| ==> rows[i] in rows;
    MeanBounds(rows, Pay, AverageSalary(db), lo, hi);
    assert rows[0] in rows;
    MeanBounds(rows, Pay, AverageSalary(db), 0.0, hi);
  }

  /** The position of the first employee with the highest rating. */
  ghost predicate FirstMaxAt(rows: seq<Employee>, k: int)
  {
    && 0 <= k < |rows|
    && (forall i :: 0 <= i < |rows| ==> rows[i].rating <= rows[k].rating)
    && (forall i :: 0 <= i < k ==> rows[i].rating < rows[k].rating)
  }

  /** At most one position is the first maximum. */
  lemma FirstMaxUnique(rows: seq<Employee>, k: int, l: int)
    requires FirstMaxAt(rows, k) && FirstMaxAt(rows, l)
    ensures k == l
  {
    assert rows[k].rating <= rows[l].rating;
    assert rows[l].rating <= rows[k].rating;
  }

  /** findTopPerformer: Stream.max over Double.compare of the ratings. Its reduction
      keeps the running maximum unless the next rating is strictly greater, so of tied
      best ratings the first in the listing wins; an empty store gives `null`. */
  method FindTopPerformer(db: Db) returns (r: Option<Employee>)
    ensures r.None? <==> GetEmployeeCount(db) == 0
    ensures r.Some? ==> exists k :: FirstMaxAt(GetAllEmployees(db), k)
                                    && GetAllEmployees(db)[k] == r.value
  {
    var rows := GetAllEmployees(db);
    if |rows| == 0 {
      return None;
    }
    var best := 0;
    var i := 1;
    while i < |rows|
      invariant 1 <= i <= |rows|
      invariant 0 <= best < i
      invariant forall j :: 0 <= j < i ==> rows[j].rating <= rows[best].rating
      invariant forall j :: 0 <= j < best ==> rows[j].rating < rows[best].rating
    {
      if RealCompare(rows[best].rating, rows[i].rating) < 0 {
        best := i;
      }
      i := i + 1;
    }
    assert FirstMaxAt(rows, best);
    return Some(rows[best]);
  }

  // ---- iteration ----

  /** The search engine's iterator: the employees not yet returned, in listing order. */
  datatype EmployeeIterator = EmployeeIterator(remaining: seq<Employee>)

  /** iterator(): a cursor over a fresh listing of the database. */
  function Iterator(db: Db): (it: EmployeeIterator)
    ensures |it.remaining| == GetEmployeeCount(db)
    ensures forall e :: e in it.remaining <==> GetEmployeeById(db, e.id) == Some(e)
    ensures HasNext(it) <==> Ids(db) != {}
  {
    EmployeeIterator(GetAllEmployees(db))
  }

  /** hasNext(): some employee is still to be visited. */
  function HasNext(it: EmployeeIterator): (b: bool)
    ensures b <==> multiset(it.remaining) != multiset{}
  {
    |it.remaining| > 0
  }

  /** next(): the next employee and the iterator after it, or NoSuchElementException. */
  function Next(it: EmployeeIterator): (r: Result<(Employee, EmployeeIterator)>)
    ensures r.Failure? <==> !HasNext(it)
    ensures r.Failure? ==> r.error == NoSuchElement
    ensures r.Success? ==> [r.value.0] + r.value.1.remaining == it.remaining
  {
    if |it.remaining| == 0 then Failure(NoSuchElement)
    else Success((it.remaining[0], EmployeeIterator(it.remaining[1..])))
  }

  /** A for-each loop over the engine visits every stored employee once, in listing
      order. */
  method ForEach(db: Db) returns (visited: seq<Employee>)
    ensures visited == GetAllEmployees(db)
  {
    visited := Drain(Iterator(db));
  }

  /** Calling next() until hasNext() is false yields exactly what the iterator had left. */
  method Drain(start: EmployeeIterator) returns (visited: seq<Employee>)
    ensures visited == start.remaining
  {
    var it := start;
    visited := [];
    while HasNext(it)
      invariant visited + it.remaining == start.remaining
      decreases |it.remaining|
    {
      var step := Next(it);
      var (e, rest) := step.value;
      assert (visited + [e]) + rest.remaining == visited + ([e] + rest.remaining);
      visited := visited + [e];
      it := rest;
    }
    assert it.remaining == [];
  }
}
