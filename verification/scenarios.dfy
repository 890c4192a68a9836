/** The scenarios of EmployeeManagementSystemTest, replayed on the model: the four
    employees of its setup, and what each test asserts about them. */
module Scenarios {
  import opened Results
  import opened Text
  import opened Entity
  import opened Seqs
  import opened EmployeeDB
  import opened SearchEngine
  import opened SalaryManager
  import opened Reports

  const John := Employee(1, "John Doe", "IT", 50000.0, 4.2, 5, true)
  const Jane := Employee(2, "Jane Smith", "HR", 42000.0, 3.8, 3, true)
  const Bob := Employee(3, "Bob Johnson", "IT", 65000.0, 4.5, 7, true)
  const Alice := Employee(4, "Alice Brown", "Sales", 38000.0, 3.2, 2, false)
  const Chris := Employee(5, "Chris Evans", "Marketing", 48000.0, 4.0, 4, true)

  /** A string whose first character survives trimming is not blank. */
  lemma NotBlank(s: string)
    requires |s| > 0 && !IsTrimmable(s[0])
    ensures !IsBlank(s)
  {
    BlankIffAllTrimmable(s);
  }

  /** The constructor accepts each employee of the setup, as given. */
  lemma StaffConstructed()
    ensures NewEmployee(Some(1), true, 5, 50000.0, 4.2, Some("IT"), Some("John Doe")) == Success(John)
    ensures NewEmployee(Some(2), true, 3, 42000.0, 3.8, Some("HR"), Some("Jane Smith")) == Success(Jane)
    ensures NewEmployee(Some(3), true, 7, 65000.0, 4.5, Some("IT"), Some("Bob Johnson")) == Success(Bob)
    ensures NewEmployee(Some(4), false, 2, 38000.0, 3.2, Some("Sales"), Some("Alice Brown"))
            == Success(Alice)
    ensures NewEmployee(Some(5), true, 4, 48000.0, 4.0, Some("Marketing"), Some("Chris Evans"))
            == Success(Chris)
  {
    NotBlank("John Doe");
    NotBlank("Jane Smith");
    NotBlank("Bob Johnson");
    NotBlank("Alice Brown");
    NotBlank("Chris Evans");
    NotBlank("IT");
    NotBlank("HR");
    NotBlank("Sales");
    NotBlank("Marketing");
  }

  lemma StaffWellFormed()
    ensures WellFormed(John) && WellFormed(Jane) && WellFormed(Bob) && WellFormed(Alice)
    ensures WellFormed(Chris)
  {
    StaffConstructed();
  }

  /** The listing the setup builds. */
  const Staff: seq<Employee> := [John, Jane, Bob, Alice]

  /** Adding a well-formed employee under a new id succeeds and appends it. */
  lemma AddAppends(db: Db, e: Employee)
    requires WellFormed(e) && e.id !in Ids(db)
    ensures AddEmployee(db, e).success
    ensures AddEmployee(db, e).db.rows == db.rows + [e]
    ensures Ids(AddEmployee(db, e).db) == Ids(db) + {e.id}
  {
  }

  /** Adding each employee of `es` in turn; success when every addition succeeds. */
  function AddAll(db: Db, es: seq<Employee>): (r: Mutation)
    requires forall i :: 0 <= i < |es| ==> WellFormed(es[i])
    decreases |es|
  {
    if |es| == 0 then Mutation(true, db)
    else
      var m := AddEmployee(db, es[0]);
      var rest := AddAll(m.db, es[1..]);
      Mutation(m.success && rest.success, rest.db)
  }

  /** Adding employees with fresh, distinct ids succeeds and lists them in the order
      added, after the rows already there. */
  lemma {:induction false} AddAllAppends(db: Db, es: seq<Employee>)
    requires forall i :: 0 <= i < |es| ==> WellFormed(es[i])
    requires DistinctIds(es)
    requires forall j :: 0 <= j < |es| ==> es[j].id !in Ids(db)
    ensures AddAll(db, es).success
    ensures AddAll(db, es).db.rows == db.rows + es
    decreases |es|
  {
    if |es| > 0 {
      var m := AddEmployee(db, es[0]);
      AddAppends(db, es[0]);
      var rest := es[1..];
      assert forall j :: 0 <= j < |rest| ==> rest[j].id !in Ids(m.db) by {
        forall j | 0 <= j < |rest| ensures rest[j].id !in Ids(m.db) {
          assert rest[j] == es[j + 1];
        }
      }
      assert DistinctIds(rest);
      AddAllAppends(m.db, rest);
      AddAllStep(db, es);
      AppendShift(db.rows, es);
    }
  }

  lemma AddAllStep(db: Db, es: seq<Employee>)
    requires |es| > 0 && forall i :: 0 <= i < |es| ==> WellFormed(es[i])
    ensures var m := AddEmployee(db, es[0]);
            var after := AddAll(m.db, es[1..]);
            && AddAll(db, es).db.rows == after.db.rows
            && AddAll(db, es).success == (m.success && after.success)
  {
  }

  lemma AppendShift(a: seq<Employee>, es: seq<Employee>)
    requires |es| > 0
    ensures (a + [es[0]]) + es[1..] == a + es
  {
    assert es == [es[0]] + es[1..];
  }

  /** setUp: the four additions to an empty store all succeed and list the staff in
      the order added. */
  lemma SetupReached(empty: Db)
    requires |empty.rows| == 0
    ensures forall i :: 0 <= i < |Staff| ==> WellFormed(Staff[i])
    ensures AddAll(empty, Staff).success
    ensures AddAll(empty, Staff).db.rows == Staff
  {
    StaffWellFormed();
    AddAllAppends(empty, Staff);
  }

  /** The department comparisons the scenarios make. */
  lemma StaffDepartments()
    ensures EqualsIgnoreCase("IT", "IT")
    ensures !EqualsIgnoreCase("HR", "IT") && !EqualsIgnoreCase("Sales", "IT")
    ensures !EqualsIgnoreCase("IT", "Finance") && !EqualsIgnoreCase("HR", "Finance")
    ensures !EqualsIgnoreCase("Sales", "Finance")
  {
    assert ToLower("HR")[0] != ToLower("IT")[0];
    assert |ToLower("Sales")| != |ToLower("IT")|;
  }

  /** testAddEmployee: a fifth employee is added, and adding it again is refused. */
  lemma AddScenario(db: Db)
    requires db.rows == Staff
    ensures WellFormed(Chris)
    ensures var r := AddEmployee(db, Chris);
            && r.success
            && GetEmployeeCount(r.db) == 5
            && !AddEmployee(r.db, Chris).success
  {
    StaffWellFormed();
    assert Chris.id !in Ids(db);
  }

  /** testSearchByDepartment: two employees in "IT", none in "Finance". */
  lemma SearchScenario(db: Db)
    requires db.rows == Staff
    ensures |FindByDepartment(db, "IT")| == 2
    ensures FindByDepartment(db, "Finance") == []
  {
    ItMembers();
    FilterCardinality(Staff, SameDepartment("IT"), {John, Bob});
    TwoStaff();
    FinanceEmpty(db);
  }

  /** John and Bob are exactly the staff in "IT". */
  lemma ItMembers()
    ensures Distinct(Staff)
    ensures forall e :: e in {John, Bob} <==> e in Staff && SameDepartment("IT")(e)
  {
    StaffDepartments();
  }

  lemma TwoStaff()
    ensures |{John, Bob}| == 2
  {
  }

  lemma FinanceEmpty(db: Db)
    requires db.rows == Staff
    ensures FindByDepartment(db, "Finance") == []
  {
    StaffDepartments();
    assert |FindByDepartment(db, "Finance")| == 0;
  }

  /** testDeleteEmployee: removing id 2 succeeds, leaves three, and id 2 is then absent. */
  lemma DeleteScenario(db: Db)
    requires db.rows == Staff
    ensures var r := RemoveEmployee(db, 2);
            && r.success
            && GetEmployeeCount(r.db) == 3
            && GetEmployeeById(r.db, 2) == None
  {
    assert Jane in db.rows;
  }

  /** testInvalidSalaryException: a negative salary is refused with InvalidSalary. */
  lemma InvalidSalaryScenario()
    ensures NewEmployee(Some(6), true, 3, -5000.0, 3.5, Some("Finance"), Some("Test User"))
            == Failure(InvalidSalary)
  {
    NotBlank("Finance");
    NotBlank("Test User");
  }

  /** testSalaryRaiseByDepartment: a 10% raise for "IT" raises John and Bob by a
      factor of 1.1 and leaves the others as they were. */
  lemma RaiseScenario(db: Db)
    requires db.rows == Staff
    ensures var r := GiveSalaryRaiseByDepartment(db, "IT", 10.0);
            && r.Success?
            && r.value.count == 2
            && GetEmployeeById(r.value.db, 1) == Some(John.(salary := 55000.0))
            && GetEmployeeById(r.value.db, 3) == Some(Bob.(salary := 71500.0))
            && GetEmployeeById(r.value.db, 2) == Some(Jane)
            && GetEmployeeById(r.value.db, 4) == Some(Alice)
  {
    var r := GiveSalaryRaiseByDepartment(db, "IT", 10.0);
    ActiveInIt(db);
    TwoStaff();
    StaffDepartments();
    assert John in GetAllEmployees(db) && Bob in GetAllEmployees(db);
    assert Jane in GetAllEmployees(db) && Alice in GetAllEmployees(db);
  }

  /** The active staff of "IT" are John and Bob. */
  lemma ActiveInIt(db: Db)
    requires db.rows == Staff
    ensures InDepartmentIgnoringCase(db, "IT") == {John, Bob}
  {
    var s := InDepartmentIgnoringCase(db, "IT");
    forall e ensures e in s <==> e in {John, Bob} {
      if e in Staff {
        ActiveInItMember(e);
      }
    }
  }

  lemma ActiveInItMember(e: Employee)
    requires e in Staff
    ensures e.active && EqualsIgnoreCase(e.department, "IT") <==> e == John || e == Bob
  {
    StaffDepartments();
    InStaff(e);
  }

  /** The staff are the four employees of the setup. */
  lemma InStaff(e: Employee)
    requires e in Staff
    ensures e == John || e == Jane || e == Bob || e == Alice
  {
  }

  /** getTopPaidEmployees(1) on the setup returns the least experienced employee, who
      is also the lowest paid, where the highest paid was meant. */
  lemma TopPaidScenario(db: Db)
    requires db.rows == Staff
    ensures GetTopPaidEmployees(db, 1) == Success([Alice])
    ensures GetTopPaidEmployeesIntended(db, 1) == Success([Bob])
  {
    TopPaidStaff(db);
    TopPaidStaffIntended(db);
  }

  lemma TopPaidStaff(db: Db)
    requires db.rows == Staff
    ensures GetTopPaidEmployees(db, 1) == Success([Alice])
  {
    var top := GetTopPaidEmployees(db, 1).value;
    assert top[0] in multiset(GetAllEmployees(db));
    InStaff(top[0]);
    assert Alice in GetAllEmployees(db);
  }

  lemma TopPaidStaffIntended(db: Db)
    requires db.rows == Staff
    ensures GetTopPaidEmployeesIntended(db, 1) == Success([Bob])
  {
    var top := GetTopPaidEmployeesIntended(db, 1).value;
    assert top[0] in multiset(GetAllEmployees(db));
    HighestPaidOfStaff(top);
  }

  /** Bob is the only one of the staff nobody outside a one-element selection outearns. */
  lemma HighestPaidOfStaff(top: seq<Employee>)
    requires |top| == 1 && top[0] in Staff
    requires forall e :: e in Staff && e !in top ==> e.salary <= top[0].salary
    ensures top == [Bob]
  {
    InStaff(top[0]);
    assert Bob in Staff;
  }

  /** The salary distribution of the setup: two employees below $50,000, two from
      $50,000 to $74,999, and the three higher bands listed with 0. */
  lemma SalaryDistributionScenario(db: Db)
    requires db.rows == Staff
    ensures var r := SalaryDistribution(db);
            && r.SalaryLines?
            && r.lines[0].count == 2 && r.lines[1].count == 2
            && r.lines[2].count == 0 && r.lines[3].count == 0 && r.lines[4].count == 0
  {
    StaffBandCounts();
    LineCount(db, 0);
    LineCount(db, 1);
    LineCount(db, 2);
    LineCount(db, 3);
    LineCount(db, 4);
  }

  /** On the setup, line `i` of the distribution counts the staff in band `i`. */
  lemma LineCount(db: Db, i: nat)
    requires db.rows == Staff && i < 5
    ensures SalaryDistribution(db).SalaryLines?
    ensures SalaryDistribution(db).lines[i].count == |Filter(Staff, InBand(SalaryBands[i]))|
  {
    assert GetAllEmployees(db) == Staff;
  }

  /** How many of the staff fall in each salary band. */
  lemma StaffBandCounts()
    ensures |Filter(Staff, InBand(Below50k))| == 2
    ensures |Filter(Staff, InBand(From50k))| == 2
    ensures |Filter(Staff, InBand(From75k))| == 0
    ensures |Filter(Staff, InBand(From100k))| == 0
    ensures |Filter(Staff, InBand(From125k))| == 0
  {
    LowBandCount();
    MiddleBandCount();
    BandMembers();
    NobodyInBand(From75k);
    NobodyInBand(From100k);
    NobodyInBand(From125k);
  }

  lemma LowBandCount()
    ensures |Filter(Staff, InBand(Below50k))| == 2
  {
    StaffDistinct();
    BandMembers();
    FilterCardinality(Staff, InBand(Below50k), {Jane, Alice});
    TwoLowPaid();
  }

  lemma TwoLowPaid()
    ensures |{Jane, Alice}| == 2
  {
  }

  lemma StaffDistinct()
    ensures Distinct(Staff)
  {
  }

  lemma MiddleBandCount()
    ensures |Filter(Staff, InBand(From50k))| == 2
  {
    StaffDistinct();
    BandMembers();
    FilterCardinality(Staff, InBand(From50k), {John, Bob});
    TwoStaff();
  }

  lemma NobodyInBand(b: SalaryBand)
    requires forall e :: e !in Staff || !InBand(b)(e)
    ensures |Filter(Staff, InBand(b))| == 0
  {
    assert |Filter(Staff, InBand(b))| == 0;
  }

  /** The band of each of the staff. */
  lemma BandMembers()
    ensures forall e :: e in {Jane, Alice} <==> e in Staff && InBand(Below50k)(e)
    ensures forall e :: e in {John, Bob} <==> e in Staff && InBand(From50k)(e)
    ensures forall e :: e !in Staff || !InBand(From75k)(e)
    ensures forall e :: e !in Staff || !InBand(From100k)(e)
    ensures forall e :: e !in Staff || !InBand(From125k)(e)
  {
    forall e | e in Staff
      ensures InBand(SalaryBandOf(e.salary))(e)
      ensures e == Jane || e == Alice <==> SalaryBandOf(e.salary) == Below50k
      ensures e == John || e == Bob <==> SalaryBandOf(e.salary) == From50k
    {
      InStaff(e);
    }
  }
}
