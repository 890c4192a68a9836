/** The Employee entity: its fields, the constructor's validation, the setters, and the
    relation "only this field changed" that the setters and the store's update keep. */
module Entity {
  import opened Results
  import opened Text

  /** The store is generic in the id type; only equality of ids is ever used. */
  type EmployeeId = int

  /** Java's 32-bit `int`, the type of the years-of-experience field. */
  type Int32 = x: int | -0x8000_0000 <= x < 0x8000_0000

  datatype Employee = Employee(
    id: EmployeeId,
    name: string,
    department: string,
    salary: real,
    rating: real,
    years: Int32,
    active: bool)

  /** The mutable fields, as named by the setters. */
  datatype Field = Name | Department | Salary | Rating | Years | Active

  /** `b` has the id of `a` and every field of `a` other than `f`. */
  predicate AgreeExcept(a: Employee, b: Employee, f: Field)
  {
    && a.id == b.id
    && (f == Name || a.name == b.name)
    && (f == Department || a.department == b.department)
    && (f == Salary || a.salary == b.salary)
    && (f == Rating || a.rating == b.rating)
    && (f == Years || a.years == b.years)
    && (f == Active || a.active == b.active)
  }

  /** What the constructor and the checking setters guarantee of every employee object.
      Rating and years carry no guarantee: nothing ever checks them (see NewEmployee). */
  predicate WellFormed(e: Employee)
  {
    !IsBlank(e.name) && !IsBlank(e.department) && e.salary >= 0.0
  }

  /** A `null` reference or a string that trims to the empty string. */
  predicate NullOrBlank(s: Option<string>)
  {
    s.None? || IsBlank(s.value)
  }

  /** The values the rating and years fields hold while the constructor runs its checks:
      Java's defaults, since the assignments come after the checks. */
  const UnassignedRating: real := 0.0
  const UnassignedYears: int := 0

  /** The constructor as written. Its rating and years checks read the still-unassigned
      fields rather than the parameters, so they never reject anything. */
  function NewEmployee(id: Option<EmployeeId>, active: bool, years: Int32, salary: real,
                       rating: real, department: Option<string>, name: Option<string>)
    : (r: Result<Employee>)
    ensures r.Success? <==>
              id.Some? && !NullOrBlank(name) && !NullOrBlank(department) && salary >= 0.0
    ensures r.Success? ==>
              && WellFormed(r.value)
              && r.value == Employee(id.value, name.value, department.value,
                                     salary, rating, years, active)
    ensures id.None? ==> r == Failure(IllegalArgument)
    ensures id.Some? && NullOrBlank(name) ==> r == Failure(EmployeeNotFound)
    ensures id.Some? && !NullOrBlank(name) && NullOrBlank(department) ==>
              r == Failure(InvalidDepartment)
    ensures id.Some? && !NullOrBlank(name) && !NullOrBlank(department) && salary < 0.0 ==>
              r == Failure(InvalidSalary)
  {
    if id.None? then Failure(IllegalArgument)
    else if NullOrBlank(name) then Failure(EmployeeNotFound)
    else if NullOrBlank(department) then Failure(InvalidDepartment)
    else if salary < 0.0 then Failure(InvalidSalary)
    else if UnassignedRating < 0.0 || UnassignedRating > 5.0 then Failure(IllegalArgument)
    else if UnassignedYears < 0 then Failure(IllegalArgument)
    else Success(Employee(id.value, name.value, department.value, salary, rating, years, active))
  }

  /** The as-written constructor stores an out-of-range rating and a negative years value. */
  lemma NewEmployeeAcceptsOutOfRange()
    ensures NewEmployee(Some(6), true, -3, 1000.0, 7.5, Some("IT"), Some("Ann")).Success?
    ensures NewEmployee(Some(6), true, -3, 1000.0, 7.5, Some("IT"), Some("Ann")).value.rating
            == 7.5
  {
    assert !IsTrimmable('A');
    assert !IsTrimmable('I');
    BlankIffAllTrimmable("Ann");
    BlankIffAllTrimmable("IT");
  }

  /** The constructor with its rating and years checks applied to the parameters, as the
      messages "Performance rating must be between 0 and 5" and "Years of experience cannot
      be negative" intend. */
  function NewEmployeeIntended(id: Option<EmployeeId>, active: bool, years: Int32, salary: real,
                               rating: real, department: Option<string>, name: Option<string>)
    : (r: Result<Employee>)
    ensures r.Success? ==>
              WellFormed(r.value) && 0.0 <= r.value.rating <= 5.0 && r.value.years >= 0
    ensures r.Success? <==>
              NewEmployee(id, active, years, salary, rating, department, name).Success?
              && 0.0 <= rating <= 5.0 && years >= 0
    ensures r.Success? ==>
              r == NewEmployee(id, active, years, salary, rating, department, name)
  {
    if id.None? then Failure(IllegalArgument)
    else if NullOrBlank(name) then Failure(EmployeeNotFound)
    else if NullOrBlank(department) then Failure(InvalidDepartment)
    else if salary < 0.0 then Failure(InvalidSalary)
    else if rating < 0.0 || rating > 5.0 then Failure(IllegalArgument)
    else if years < 0 then Failure(IllegalArgument)
    else Success(Employee(id.value, name.value, department.value, salary, rating, years, active))
  }

  function SetName(e: Employee, name: string): (r: Result<Employee>)
    ensures r.Success? <==> !IsBlank(name)
    ensures r.Failure? ==> r.error == IllegalArgument
    ensures r.Success? ==> r.value.name == name && AgreeExcept(e, r.value, Name)
    ensures r.Success? && WellFormed(e) ==> WellFormed(r.value)
  {
    if IsBlank(name) then Failure(IllegalArgument) else Success(e.(name := name))
  }

  function SetDepartment(e: Employee, department: string): (r: Result<Employee>)
    ensures r.Success? <==> !IsBlank(department)
    ensures r.Failure? ==> r.error == InvalidDepartment
    ensures r.Success? ==> r.value.department == department && AgreeExcept(e, r.value, Department)
    ensures r.Success? && WellFormed(e) ==> WellFormed(r.value)
  {
    if IsBlank(department) then Failure(InvalidDepartment)
    else Success(e.(department := department))
  }

  function SetSalary(e: Employee, salary: real): (r: Result<Employee>)
    ensures r.Success? <==> salary >= 0.0
    ensures r.Failure? ==> r.error == InvalidSalary
    ensures r.Success? ==> r.value.salary == salary && AgreeExcept(e, r.value, Salary)
    ensures r.Success? && WellFormed(e) ==> WellFormed(r.value)
  {
    if salary < 0.0 then Failure(InvalidSalary) else Success(e.(salary := salary))
  }

  /** Unconditional: any rating is stored, whatever its range. */
  function SetRating(e: Employee, rating: real): (r: Employee)
    ensures r.rating == rating && AgreeExcept(e, r, Rating)
    ensures WellFormed(e) ==> WellFormed(r)
  {
    e.(rating := rating)
  }

  /** Unconditional: a negative value is stored as given. */
  function SetYears(e: Employee, years: Int32): (r: Employee)
    ensures r.years == years && AgreeExcept(e, r, Years)
    ensures WellFormed(e) ==> WellFormed(r)
  {
    e.(years := years)
  }

  function SetActive(e: Employee, active: bool): (r: Employee)
    ensures r.active == active && AgreeExcept(e, r, Active)
    ensures WellFormed(e) ==> WellFormed(r)
  {
    e.(active := active)
  }
}
