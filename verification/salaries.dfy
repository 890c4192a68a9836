/** SalaryManager: the three bulk raises, the "top N" listing and the salary
    aggregates. Salaries are exact reals; IEEE rounding is not modelled. */
module SalaryManager {
  import opened Results
  import opened Text
  import opened Entity
  import opened Comparators
  import opened Sorting
  import opened Seqs
  import opened Grouping
  import opened EmployeeDB
  import opened SearchEngine

  // ---- raises ----

  /** `1 + percentageRaise / 100`, the factor a raise multiplies a salary by. */
  function RaiseFactor(percentage: real): real
  {
    1.0 + percentage / 100.0
  }

  /** The record after a raise pass: raised when eligible, untouched otherwise. */
  function Raised(e: Employee, eligible: Employee -> bool, factor: real): Employee
  {
    if eligible(e) then e.(salary := e.salary * factor) else e
  }

  /** The result of a raise pass over the rows: how many were raised, and the rows. */
  datatype Pass = Pass(count: nat, rows: seq<Employee>)

  /** One walk over the listing that raises the eligible rows and counts them. */
  function RaiseRows(rows: seq<Employee>, eligible: Employee -> bool, factor: real): (r: Pass)
    ensures r.count == |Filter(rows, eligible)|
    ensures |r.rows| == |rows|
    ensures forall i :: 0 <= i < |rows| ==> r.rows[i] == Raised(rows[i], eligible, factor)
  {
    if |rows| == 0 then Pass(0, [])
    else
      var rest := RaiseRows(rows[1..], eligible, factor);
      Pass((if eligible(rows[0]) then 1 else 0) + rest.count,
           [Raised(rows[0], eligible, factor)] + rest.rows)
  }

  lemma {:induction false} RaiseRowsFind(rows: seq<Employee>, eligible: Employee -> bool,
                                         factor: real, id: EmployeeId)
    ensures Find(RaiseRows(rows, eligible, factor).rows, id)
            == if Find(rows, id).Some? then Some(Raised(Find(rows, id).value, eligible, factor))
               else None
    decreases |rows|
  {
    if |rows| > 0 {
      var r := RaiseRows(rows, eligible, factor).rows;
      assert r[1..] == RaiseRows(rows[1..], eligible, factor).rows;
      RaiseRowsFind(rows[1..], eligible, factor, id);
    }
  }

  /** Rows that keep each position's id keep the key set and its uniqueness. */
  lemma SameIdsPointwise(rows: seq<Employee>, rows': seq<Employee>)
    requires |rows'| == |rows|
    requires forall i :: 0 <= i < |rows| ==> rows'[i].id == rows[i].id
    ensures DistinctIds(rows) ==> DistinctIds(rows')
    ensures IdSet(rows') == IdSet(rows)
  {
    forall x | x in IdSet(rows') ensures x in IdSet(rows) {
      var i :| 0 <= i < |rows'| && rows'[i].id == x;
      assert rows[i] in rows;
    }
    forall x | x in IdSet(rows) ensures x in IdSet(rows') {
      var i :| 0 <= i < |rows| && rows[i].id == x;
      assert rows'[i] in rows';
    }
  }

  /** What a raise call returns, and the store afterwards. */
  datatype Raise = Raise(count: nat, db: Db)

  /** A raise pass by a positive factor keeps the store valid, keeps its keys, and
      raises exactly the eligible records. */
  lemma RaisePassKeepsStore(db: Db, eligible: Employee -> bool, factor: real)
    requires factor > 0.0
    ensures var rows' := RaiseRows(db.rows, eligible, factor).rows;
            && Valid(Store(rows'))
            && IdSet(rows') == IdSet(db.rows)
  {
    var rows' := RaiseRows(db.rows, eligible, factor).rows;
    SameIdsPointwise(db.rows, rows');
    forall i | 0 <= i < |rows'| ensures WellFormed(rows'[i]) {
      RaisedWellFormed(db.rows[i], eligible, factor);
    }
  }

  lemma RaisedWellFormed(e: Employee, eligible: Employee -> bool, factor: real)
    requires WellFormed(e) && factor > 0.0
    ensures WellFormed(Raised(e, eligible, factor))
  {
    if eligible(e) {
      assert e.salary * factor >= 0.0;
    }
  }

  lemma RaisePassFinds(db: Db, eligible: Employee -> bool, factor: real)
    ensures forall e :: e in GetAllEmployees(db) ==>
              Find(RaiseRows(db.rows, eligible, factor).rows, e.id)
              == Some(Raised(e, eligible, factor))
  {
    forall e | e in GetAllEmployees(db)
      ensures Find(RaiseRows(db.rows, eligible, factor).rows, e.id)
              == Some(Raised(e, eligible, factor))
    {
      FindUnique(db.rows, e);
      RaiseRowsFind(db.rows, eligible, factor, e.id);
    }
  }

  /** With unique ids, the number of rows a filter keeps is the number of stored
      employees that qualify. */
  lemma CountQualifying(db: Db, p: Employee -> bool, qualifying: set<Employee>)
    requires forall e :: e in qualifying <==> e in GetAllEmployees(db) && p(e)
    ensures |Filter(GetAllEmployees(db), p)| == |qualifying|
  {
    DistinctIdsDistinct(db.rows);
    FilterCardinality(db.rows, p, qualifying);
  }

  /** The shared body of the three giveSalaryRaiseBy* methods: a non-positive percentage
      throws IllegalArgumentException before anything changes; otherwise every eligible
      employee's salary is multiplied by the factor, and their number is returned. */
  function GiveRaise(db: Db, percentage: real, eligible: Employee -> bool): (r: Result<Raise>)
    ensures r.Failure? <==> percentage <= 0.0
    ensures r.Failure? ==> r.error == IllegalArgument
    ensures r.Success? ==>
              && r.value.count == |Filter(GetAllEmployees(db), eligible)|
              && Ids(r.value.db) == Ids(db)
              && GetEmployeeCount(r.value.db) == GetEmployeeCount(db)
    ensures r.Success? ==> forall e :: e in GetAllEmployees(db) ==>
              GetEmployeeById(r.value.db, e.id) == Some(Raised(e, eligible, RaiseFactor(percentage)))
  {
    if percentage <= 0.0 then Failure(IllegalArgument)
    else
      var factor := RaiseFactor(percentage);
      var pass := RaiseRows(db.rows, eligible, factor);
      RaisePassKeepsStore(db, eligible, factor);
      RaisePassFinds(db, eligible, factor);
      var after: Db := Store(pass.rows);
      Success(Raise(pass.count, after))
  }

  /** Raised salaries only grow, and setSalary never refuses them: a positive factor
      keeps a non-negative salary non-negative, and a positive salary strictly grows. */
  lemma RaiseNeverLowers(e: Employee, eligible: Employee -> bool, percentage: real)
    requires percentage > 0.0 && e.salary >= 0.0
    ensures Raised(e, eligible, RaiseFactor(percentage)).salary >= e.salary
    ensures eligible(e) && e.salary > 0.0 ==>
              Raised(e, eligible, RaiseFactor(percentage)).salary > e.salary
  {
    var f := RaiseFactor(percentage);
    assert f > 1.0;
    if eligible(e) {
      assert e.salary * f - e.salary == e.salary * (f - 1.0);
    }
  }

  /** The stored employees each raise is meant for. */
  function RatedAtLeast(db: Db, minimumRating: real): set<Employee>
  {
    set e | e in GetAllEmployees(db) && e.active && e.rating >= minimumRating
  }

  function ExperiencedAtLeast(db: Db, yearsThreshold: Int32): set<Employee>
  {
    set e | e in GetAllEmployees(db) && e.active && e.years >= yearsThreshold
  }

  function InDepartmentIgnoringCase(db: Db, department: string): set<Employee>
  {
    set e | e in GetAllEmployees(db) && e.active && EqualsIgnoreCase(e.department, department)
  }

  function ByPerformance(minimumRating: real): Employee -> bool
  {
    (e: Employee) => e.rating >= minimumRating && e.active
  }

  function ByExperience(yearsThreshold: Int32): Employee -> bool
  {
    (e: Employee) => e.years >= yearsThreshold && e.active
  }

  function ByDepartment(department: string): Employee -> bool
  {
    (e: Employee) => EqualsIgnoreCase(e.department, department) && e.active
  }

  /** giveSalaryRaiseByPerformance: active employees rated at least `minimumRating`. */
  function GiveSalaryRaiseByPerformance(db: Db, minimumRating: real, percentage: real)
    : (r: Result<Raise>)
    ensures r.Failure? <==> percentage <= 0.0
    ensures r.Failure? ==> r.error == IllegalArgument
    ensures r.Success? ==> Ids(r.value.db) == Ids(db)
    ensures r.Success? ==> forall e :: e in GetAllEmployees(db) ==>
              GetEmployeeById(r.value.db, e.id)
              == Some(if e.active && e.rating >= minimumRating
                      then e.(salary := e.salary * (1.0 + percentage / 100.0)) else e)
    ensures r.Success? ==>
              r.value.count
              == |RatedAtLeast(db, minimumRating)|
  {
    var p := ByPerformance(minimumRating);
    CountQualifying(db, p, RatedAtLeast(db, minimumRating));
    var r := GiveRaise(db, percentage, p);
    if r.Success? then PerformanceRaiseRecords(db, minimumRating, percentage, r.value.db); r else r
  }

  /** Each stored record after a raise by performance, written out. */
  lemma PerformanceRaiseRecords(db: Db, minimumRating: real, percentage: real, after: Db)
    requires forall e :: e in GetAllEmployees(db) ==>
               GetEmployeeById(after, e.id)
               == Some(Raised(e, ByPerformance(minimumRating), RaiseFactor(percentage)))
    ensures forall e :: e in GetAllEmployees(db) ==>
              GetEmployeeById(after, e.id)
              == Some(if e.active && e.rating >= minimumRating
                      then e.(salary := e.salary * (1.0 + percentage / 100.0)) else e)
  {
    forall e | e in GetAllEmployees(db)
      ensures GetEmployeeById(after, e.id)
              == Some(if e.active && e.rating >= minimumRating
                      then e.(salary := e.salary * (1.0 + percentage / 100.0)) else e)
    {
      RaisedByPerformance(e, minimumRating, percentage);
    }
  }

  lemma RaisedByPerformance(e: Employee, minimumRating: real, percentage: real)
    ensures Raised(e, ByPerformance(minimumRating), RaiseFactor(percentage))
            == if e.active && e.rating >= minimumRating then e.(salary := e.salary * (1.0 + percentage / 100.0)) else e
  {
  }

  /** giveSalaryRaiseByExperience: active employees with at least `yearsThreshold` years. */
  function GiveSalaryRaiseByExperience(db: Db, yearsThreshold: Int32, percentage: real)
    : (r: Result<Raise>)
    ensures r.Failure? <==> percentage <= 0.0
    ensures r.Failure? ==> r.error == IllegalArgument
    ensures r.Success? ==> Ids(r.value.db) == Ids(db)
    ensures r.Success? ==> forall e :: e in GetAllEmployees(db) ==>
              GetEmployeeById(r.value.db, e.id)
              == Some(if e.active && e.years >= yearsThreshold
                      then e.(salary := e.salary * (1.0 + percentage / 100.0)) else e)
    ensures r.Success? ==>
              r.value.count
              == |ExperiencedAtLeast(db, yearsThreshold)|
  {
    var p := ByExperience(yearsThreshold);
    CountQualifying(db, p, ExperiencedAtLeast(db, yearsThreshold));
    var r := GiveRaise(db, percentage, p);
    if r.Success? then ExperienceRaiseRecords(db, yearsThreshold, percentage, r.value.db); r else r
  }

  /** Each stored record after a raise by experience, written out. */
  lemma ExperienceRaiseRecords(db: Db, yearsThreshold: Int32, percentage: real, after: Db)
    requires forall e :: e in GetAllEmployees(db) ==>
               GetEmployeeById(after, e.id)
               == Some(Raised(e, ByExperience(yearsThreshold), RaiseFactor(percentage)))
    ensures forall e :: e in GetAllEmployees(db) ==>
              GetEmployeeById(after, e.id)
              == Some(if e.active && e.years >= yearsThreshold
                      then e.(salary := e.salary * (1.0 + percentage / 100.0)) else e)
  {
    forall e | e in GetAllEmployees(db)
      ensures GetEmployeeById(after, e.id)
              == Some(if e.active && e.years >= yearsThreshold
                      then e.(salary := e.salary * (1.0 + percentage / 100.0)) else e)
    {
      RaisedByExperience(e, yearsThreshold, percentage);
    }
  }

  lemma RaisedByExperience(e: Employee, yearsThreshold: Int32, percentage: real)
    ensures Raised(e, ByExperience(yearsThreshold), RaiseFactor(percentage))
            == if e.active && e.years >= yearsThreshold then e.(salary := e.salary * (1.0 + percentage / 100.0)) else e
  {
  }

  /** giveSalaryRaiseByDepartment: active employees of the department, ignoring case. */
  function GiveSalaryRaiseByDepartment(db: Db, department: string, percentage: real)
    : (r: Result<Raise>)
    ensures r.Failure? <==> percentage <= 0.0
    ensures r.Failure? ==> r.error == IllegalArgument
    ensures r.Success? ==> Ids(r.value.db) == Ids(db)
    ensures r.Success? ==> forall e :: e in GetAllEmployees(db) ==>
              GetEmployeeById(r.value.db, e.id)
              == Some(if e.active && EqualsIgnoreCase(e.department, department)
                      then e.(salary := e.salary * (1.0 + percentage / 100.0)) else e)
    ensures r.Success? ==>
              r.value.count
              == |InDepartmentIgnoringCase(db, department)|
  {
    var p := ByDepartment(department);
    CountQualifying(db, p, InDepartmentIgnoringCase(db, department));
    var r := GiveRaise(db, percentage, p);
    if r.Success? then DepartmentRaiseRecords(db, department, percentage, r.value.db); r else r
  }

  /** Each stored record after a raise by department, written out. */
  lemma DepartmentRaiseRecords(db: Db, department: string, percentage: real, after: Db)
    requires forall e :: e in GetAllEmployees(db) ==>
               GetEmployeeById(after, e.id)
               == Some(Raised(e, ByDepartment(department), RaiseFactor(percentage)))
    ensures forall e :: e in GetAllEmployees(db) ==>
              GetEmployeeById(after, e.id)
              == Some(if e.active && EqualsIgnoreCase(e.department, department)
                      then e.(salary := e.salary * (1.0 + percentage / 100.0)) else e)
  {
    forall e | e in GetAllEmployees(db)
      ensures GetEmployeeById(after, e.id)
              == Some(if e.active && EqualsIgnoreCase(e.department, department)
                      then e.(salary := e.salary * (1.0 + percentage / 100.0)) else e)
    {
      RaisedByDepartment(e, department, percentage);
    }
  }

  lemma RaisedByDepartment(e: Employee, department: string, percentage: real)
    ensures Raised(e, ByDepartment(department), RaiseFactor(percentage))
            == if e.active && EqualsIgnoreCase(e.department, department) then e.(salary := e.salary * (1.0 + percentage / 100.0)) else e
  {
  }


  // ---- top N ----

  /** getTopPaidEmployees as written: the first `n` of the natural order, which is years
      of experience ascending, not salary. */
  function GetTopPaidEmployees(db: Db, n: int): (r: Result<seq<Employee>>)
    ensures r.Failure? <==> n <= 0
    ensures r.Failure? ==> r.error == IllegalArgument
    ensures r.Success? ==>
              && |r.value| == (if n < GetEmployeeCount(db) then n else GetEmployeeCount(db))
              && multiset(r.value) <= multiset(GetAllEmployees(db))
              && (forall i, j :: 0 <= i < j < |r.value| ==> r.value[i].years <= r.value[j].years)
              && (forall e, i :: e in GetAllEmployees(db) && e !in r.value && 0 <= i < |r.value|
                                 ==> e.years >= r.value[i].years)
  {
    if n <= 0 then Failure(IllegalArgument)
    else
      var sorted := GetAllEmployeesSorted(db);
      var k := if n < GetEmployeeCount(db) then n else GetEmployeeCount(db);
      PrefixByYears(db, k);
      Success(sorted[..k])
  }

  /** The first `k` of the natural order: a sub-multiset of the store, and every
      employee left out has at least the years of everyone taken. */
  lemma PrefixByYears(db: Db, k: nat)
    requires k <= GetEmployeeCount(db)
    ensures var sorted := GetAllEmployeesSorted(db);
            && k <= |sorted|
            && multiset(sorted[..k]) <= multiset(GetAllEmployees(db))
            && (forall i, j :: 0 <= i < j < k ==> sorted[..k][i].years <= sorted[..k][j].years)
            && forall e, i :: e in GetAllEmployees(db) && e !in sorted[..k] && 0 <= i < k
                              ==> e.years >= sorted[i].years
  {
    var sorted := GetAllEmployeesSorted(db);
    var s := GetAllEmployees(db);
    assert |sorted| == |multiset(sorted)| == |multiset(s)| == |s|;
    PrefixOfSorted(sorted, s, k, (a: Employee, b: Employee) => a.years <= b.years);
  }

  /** The first `k` of a permutation of `s` ordered by `before`: a sub-multiset of `s`,
      and everything of `s` left out comes after everything taken. */
  lemma PrefixOfSorted(sorted: seq<Employee>, s: seq<Employee>, k: nat,
                       before: (Employee, Employee) -> bool)
    requires multiset(sorted) == multiset(s) && k <= |sorted|
    requires forall i, j :: 0 <= i < j < |sorted| ==> before(sorted[i], sorted[j])
    ensures multiset(sorted[..k]) <= multiset(s)
    ensures forall i, j :: 0 <= i < j < k ==> before(sorted[..k][i], sorted[..k][j])
    ensures forall e, i :: e in s && e !in sorted[..k] && 0 <= i < k ==> before(sorted[i], e)
  {
    assert sorted == sorted[..k] + sorted[k..];
    forall e, i | e in s && e !in sorted[..k] && 0 <= i < k
      ensures before(sorted[i], e)
    {
      assert e in multiset(sorted);
      var j :| 0 <= j < |sorted| && sorted[j] == e;
      assert j >= k;
    }
  }

  /** getTopPaidEmployees as its documentation describes it: the `n` highest salaries,
      highest first. */
  function GetTopPaidEmployeesIntended(db: Db, n: int): (r: Result<seq<Employee>>)
    ensures r.Failure? <==> n <= 0
    ensures r.Failure? ==> r.error == IllegalArgument
    ensures r.Success? ==>
              && |r.value| == (if n < GetEmployeeCount(db) then n else GetEmployeeCount(db))
              && multiset(r.value) <= multiset(GetAllEmployees(db))
              && (forall i, j :: 0 <= i < j < |r.value| ==> r.value[i].salary >= r.value[j].salary)
              && (forall e, i :: e in GetAllEmployees(db) && e !in r.value && 0 <= i < |r.value|
                                 ==> e.salary <= r.value[i].salary)
  {
    if n <= 0 then Failure(IllegalArgument)
    else
      var sorted := AllEmployeesBySalary(db);
      var k := if n < GetEmployeeCount(db) then n else GetEmployeeCount(db);
      PrefixBySalary(db, k);
      Success(sorted[..k])
  }

  /** The first `k` by salary: a sub-multiset of the store, and every employee left out
      earns at most what everyone taken earns. */
  lemma PrefixBySalary(db: Db, k: nat)
    requires k <= GetEmployeeCount(db)
    ensures var sorted := AllEmployeesBySalary(db);
            && k <= |sorted|
            && multiset(sorted[..k]) <= multiset(GetAllEmployees(db))
            && (forall i, j :: 0 <= i < j < k ==> sorted[..k][i].salary >= sorted[..k][j].salary)
            && forall e, i :: e in GetAllEmployees(db) && e !in sorted[..k] && 0 <= i < k
                              ==> e.salary <= sorted[i].salary
  {
    var sorted := AllEmployeesBySalary(db);
    var s := GetAllEmployees(db);
    assert |sorted| == |multiset(sorted)| == |multiset(s)| == |s|;
    PrefixOfSorted(sorted, s, k, (a: Employee, b: Employee) => a.salary >= b.salary);
  }

  /** The listing as written can leave out the best-paid employee: in a store of a
      junior and a better-paid senior, the "top 1" is the junior. */
  lemma TopPaidCanOmitHighestPaid(db: Db, junior: Employee, senior: Employee)
    requires db.rows == [junior, senior]
    requires junior.years < senior.years && junior.salary < senior.salary
    ensures GetTopPaidEmployees(db, 1) == Success([junior])
    ensures GetTopPaidEmployeesIntended(db, 1) == Success([senior])
  {
    TopOneAsWritten(db, junior, senior);
    TopOneIntended(db, junior, senior);
  }

  lemma TopOneAsWritten(db: Db, junior: Employee, senior: Employee)
    requires db.rows == [junior, senior] && junior.years < senior.years
    ensures GetTopPaidEmployees(db, 1) == Success([junior])
  {
    var all := GetAllEmployees(db);
    assert all == [junior, senior];
    var top := GetTopPaidEmployees(db, 1).value;
    assert top[0] in multiset(all);
  }

  lemma TopOneIntended(db: Db, junior: Employee, senior: Employee)
    requires db.rows == [junior, senior] && junior.salary < senior.salary
    ensures GetTopPaidEmployeesIntended(db, 1) == Success([senior])
  {
    var all := GetAllEmployees(db);
    assert all == [junior, senior];
    var top := GetTopPaidEmployeesIntended(db, 1).value;
    assert top[0] in multiset(all);
  }

  // ---- aggregates ----

  /** Every stored salary is non-negative: the setters and the constructor refuse
      anything else. */
  lemma StoredSalariesNonNegative(db: Db, rows: seq<Employee>)
    requires forall e :: e in rows ==> e in GetAllEmployees(db)
    ensures forall i :: 0 <= i < |rows| ==> rows[i].salary >= 0.0
  {
    forall i | 0 <= i < |rows| ensures rows[i].salary >= 0.0 {
      assert rows[i] in GetAllEmployees(db);
      var j :| 0 <= j < |db.rows| && db.rows[j] == rows[i];
    }
  }

  /** calculateAverageSalary: the mean salary over every stored employee, 0 for an
      empty store; never negative, since no stored salary is. */
  function CalculateAverageSalary(db: Db): (r: real)
    ensures IsMean(r, GetAllEmployees(db), Pay)
    ensures r >= 0.0
  {
    var rows := GetAllEmployees(db);
    StoredSalariesNonNegative(db, rows);
    MeanNonNegative(rows, Pay, Mean(rows, Pay));
    Mean(rows, Pay)
  }

  /** calculateAverageSalaryByDepartment: the mean salary of the employees whose
      department equals the argument ignoring case, 0 when there are none. */
  function AverageSalaryByDepartment(db: Db, department: string): (r: real)
    ensures IsMean(r, FindByDepartment(db, department), Pay)
    ensures (forall e :: e in GetAllEmployees(db) ==> !EqualsIgnoreCase(e.department, department))
            ==> r == 0.0
    ensures r >= 0.0
  {
    var group := FindByDepartment(db, department);
    StoredSalariesNonNegative(db, group);
    MeanNonNegative(group, Pay, Mean(group, Pay));
    NoMatchEmptyGroup(db, department);
    Mean(group, Pay)
  }

  lemma NoMatchEmptyGroup(db: Db, department: string)
    ensures (forall e :: e in GetAllEmployees(db) ==> !EqualsIgnoreCase(e.department, department))
            ==> |FindByDepartment(db, department)| == 0
  {
    var group := FindByDepartment(db, department);
    if |group| > 0 {
      assert group[0] in group;
    }
  }

  /** calculateAverageSalaryPerDepartment: one key per department string present
      (case-sensitive), mapped to the mean salary of exactly that group, which is never
      empty. */
  function AverageSalaryPerDepartment(db: Db): (m: map<string, real>)
    ensures forall d :: d in m <==> HasDepartment(GetAllEmployees(db), d)
    ensures forall d :: d in m ==>
              |Members(GetAllEmployees(db), d)| > 0 && IsMean(m[d], Members(GetAllEmployees(db), d), Pay)
  {
    var rows := GetAllEmployees(db);
    GroupsNonEmpty(rows);
    map d | d in Departments(rows) :: Mean(Members(rows, d), Pay)
  }

  /** Every key of the grouping has a non-empty group. */
  lemma GroupsNonEmpty(rows: seq<Employee>)
    ensures forall d :: d in Departments(rows) ==> |Members(rows, d)| > 0
  {
    forall d | d in Departments(rows) ensures |Members(rows, d)| > 0 {
      MembersNonEmpty(rows, d);
    }
  }

  /** Each department's average lies within the salaries of that department. */
  lemma AveragePerDepartmentBounds(db: Db, d: string, lo: real, hi: real)
    requires HasDepartment(GetAllEmployees(db), d)
    requires forall e :: e in GetAllEmployees(db) && e.department == d ==> lo <= e.salary <= hi
    ensures d in AverageSalaryPerDepartment(db)
    ensures lo <= AverageSalaryPerDepartment(db)[d] <= hi
  {
    var group := Members(GetAllEmployees(db), d);
    var m := AverageSalaryPerDepartment(db);
    assert |group| > 0 && IsMean(m[d], group, Pay);
    forall i | 0 <= i < |group| ensures lo <= Pay(group[i]) <= hi {
      assert group[i] in group;
    }
    MeanBounds(group, Pay, m[d], lo, hi);
  }

  /** calculateTotalSalaryCost: the salaries of the active employees, summed. */
  function TotalSalaryCost(db: Db): (r: real)
    ensures r == Sum(GetAllEmployees(db), ActivePay)
    ensures r >= 0.0
  {
    var rows := GetAllEmployees(db);
    SumActive(rows);
    var active := Filter(rows, IsActive);
    StoredSalariesNonNegative(db, active);
    SumNonNegative(active, Pay);
    Sum(active, Pay)
  }

  /** Some active employee works in department `d` (exactly that string). */
  predicate HasActiveIn(db: Db, d: string)
  {
    exists e :: e in GetAllEmployees(db) && e.active && e.department == d
  }

  /** calculateTotalSalaryCostPerDepartment: one key per department string some active
      employee has, mapped to the salaries of that department's active employees. */
  function TotalSalaryCostPerDepartment(db: Db): (m: map<string, real>)
    ensures forall d :: d in m <==> HasActiveIn(db, d)
    ensures forall d :: d in m ==>
              m[d] == Sum(Members(Filter(GetAllEmployees(db), IsActive), d), Pay)
  {
    var active := Filter(GetAllEmployees(db), IsActive);
    ActiveDepartments(db);
    map d | d in Departments(active) :: Sum(Members(active, d), Pay)
  }

  /** The departments among the active rows are those some active employee has. */
  lemma ActiveDepartments(db: Db)
    ensures forall d :: d in Departments(Filter(GetAllEmployees(db), IsActive)) <==> HasActiveIn(db, d)
  {
    forall d ensures HasDepartment(Filter(GetAllEmployees(db), IsActive), d) <==> HasActiveIn(db, d) {
      ActiveDepartment(db, d);
    }
  }

  lemma ActiveDepartment(db: Db, d: string)
    ensures HasDepartment(Filter(GetAllEmployees(db), IsActive), d) <==> HasActiveIn(db, d)
  {
    var active := Filter(GetAllEmployees(db), IsActive);
    if HasDepartment(active, d) {
      var i :| 0 <= i < |active| && active[i].department == d;
      assert active[i] in active;
    }
    if HasActiveIn(db, d) {
      var e :| e in GetAllEmployees(db) && e.active && e.department == d;
      assert e in active;
      InHasDepartment(active, e);
    }
  }

  /** The sum of `m`'s values over the keys `ks`. */
  function SumValues(ks: seq<string>, m: map<string, real>): real
    requires forall i :: 0 <= i < |ks| ==> ks[i] in m
  {
    if |ks| == 0 then 0.0 else m[ks[0]] + SumValues(ks[1..], m)
  }

  lemma {:induction false} SumValuesIsGroupTotal(ks: seq<string>, m: map<string, real>,
                                                 rows: seq<Employee>)
    requires forall i :: 0 <= i < |ks| ==> ks[i] in m && m[ks[i]] == Sum(Members(rows, ks[i]), Pay)
    ensures SumValues(ks, m) == GroupTotal(ks, rows, Pay)
    decreases |ks|
  {
    if |ks| > 0 {
      SumValuesIsGroupTotal(ks[1..], m, rows);
    }
  }

  /** The departments' costs add up to the company's total cost. */
  lemma TotalCostPerDepartmentSums(db: Db)
    ensures var ks := Departments(Filter(GetAllEmployees(db), IsActive));
            && (forall d :: d in ks <==> d in TotalSalaryCostPerDepartment(db))
            && SumValues(ks, TotalSalaryCostPerDepartment(db)) == TotalSalaryCost(db)
  {
    var active := Filter(GetAllEmployees(db), IsActive);
    var ks := Departments(active);
    var m := TotalSalaryCostPerDepartment(db);
    ActiveDepartments(db);
    assert forall d :: d in ks <==> d in m;
    forall i | 0 <= i < |ks| ensures ks[i] in m && m[ks[i]] == Sum(Members(active, ks[i]), Pay) {
      assert ks[i] in ks;
    }
    SumValuesIsGroupTotal(ks, m, active);
    GroupsPartition(active, Pay);
    SumActive(GetAllEmployees(db));
  }

  /** A double that may be negative infinity, the one non-finite value the gap takes. */
  datatype Extended = NegativeInfinity | Finite(value: real)

  /** The highest salary in a non-empty listing. */
  function MaxSalary(rows: seq<Employee>): (r: real)
    requires |rows| > 0
    ensures exists e :: e in rows && e.salary == r
    ensures forall e :: e in rows ==> e.salary <= r
  {
    if |rows| == 1 then
      assert rows[0] in rows;
      rows[0].salary
    else
      var rest := MaxSalary(rows[1..]);
      assert forall e :: e in rows ==> e == rows[0] || e in rows[1..];
      assert rows[0] in rows;
      if rows[0].salary >= rest then rows[0].salary else rest
  }

  /** The lowest salary in a non-empty listing. */
  function MinSalary(rows: seq<Employee>): (r: real)
    requires |rows| > 0
    ensures exists e :: e in rows && e.salary == r
    ensures forall e :: e in rows ==> r <= e.salary
  {
    if |rows| == 1 then
      assert rows[0] in rows;
      rows[0].salary
    else
      var rest := MinSalary(rows[1..]);
      assert forall e :: e in rows ==> e == rows[0] || e in rows[1..];
      assert rows[0] in rows;
      if rows[0].salary <= rest then rows[0].salary else rest
  }

  /** calculateSalaryGap: highest minus lowest salary. The summary statistics of no
      values have maximum negative infinity and minimum positive infinity, so an empty
      store gives negative infinity. */
  function SalaryGap(db: Db): (r: Extended)
    ensures r.NegativeInfinity? <==> GetEmployeeCount(db) == 0
    ensures r.Finite? ==> r.value >= 0.0
    ensures r.Finite? ==> exists hi, lo :: hi in GetAllEmployees(db) && lo in GetAllEmployees(db)
                                        && r.value == hi.salary - lo.salary
    ensures r.Finite? ==> forall a, b :: a in GetAllEmployees(db) && b in GetAllEmployees(db)
                                      ==> a.salary - b.salary <= r.value
  {
    var rows := GetAllEmployees(db);
    if |rows| == 0 then NegativeInfinity
    else
      assert rows[0] in rows;
      Finite(MaxSalary(rows) - MinSalary(rows))
  }

  /** anyEmployeesAboveSalary: some employee of the department (ignoring case) earns
      strictly more than the threshold. */
  function AnyEmployeesAboveSalary(db: Db, department: string, threshold: real): (r: bool)
    ensures r <==> exists e :: e in GetAllEmployees(db)
                              && EqualsIgnoreCase(e.department, department)
                              && e.salary > threshold
  {
    AnyAbove(FindByDepartment(db, department), threshold)
  }

  /** Stream.anyMatch(salary > threshold), one element at a time. */
  function AnyAbove(rows: seq<Employee>, threshold: real): (r: bool)
    ensures r <==> exists e :: e in rows && e.salary > threshold
  {
    if |rows| == 0 then false
    else
      assert forall e :: e in rows ==> e == rows[0] || e in rows[1..];
      assert rows[0] in rows;
      rows[0].salary > threshold || AnyAbove(rows[1..], threshold)
  }
}
