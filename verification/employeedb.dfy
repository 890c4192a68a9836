/** EmployeeDB: the keyed store of employees, with add, remove, lookup, count,
    listing, sorted listing, and the string-keyed field update. */
module EmployeeDB {
  import opened Results
  import opened Text
  import opened Entity
  import opened Comparators
  import opened Sorting
  import opened Seqs

  /** The store's HashMap entries, in its iteration order. Adding puts the new entry
      last, removing keeps the order of the rest, and updates and raises change
      records in place. */
  datatype Store = Store(rows: seq<Employee>)

  /** No two records share an id. */
  predicate DistinctIds(rows: seq<Employee>)
  {
    forall i, j :: 0 <= i < j < |rows| ==> rows[i].id != rows[j].id
  }

  /** The map's keys are unique, and every stored object passed the entity's checks. */
  predicate Valid(s: Store)
  {
    DistinctIds(s.rows) && forall i :: 0 <= i < |s.rows| ==> WellFormed(s.rows[i])
  }

  /** A store in a state the Java object can reach. */
  type Db = s: Store | Valid(s) witness Store([])

  /** The outcome of a mutating call: its boolean result and the store afterwards. */
  datatype Mutation = Mutation(success: bool, db: Db)

  function IdSet(rows: seq<Employee>): set<EmployeeId>
  {
    set e | e in rows :: e.id
  }

  /** The map's key set. */
  function Ids(db: Db): set<EmployeeId>
  {
    IdSet(db.rows)
  }

  /** The record stored under `id`, scanning in iteration order. */
  function Find(rows: seq<Employee>, id: EmployeeId): (r: Option<Employee>)
    ensures r.None? <==> id !in IdSet(rows)
    ensures r.Some? ==> r.value in rows && r.value.id == id
  {
    if |rows| == 0 then None
    else if rows[0].id == id then Some(rows[0])
    else
      assert rows == [rows[0]] + rows[1..];
      Find(rows[1..], id)
  }

  /** With unique keys, the record found under an id is the one stored with it. */
  lemma FindUnique(rows: seq<Employee>, e: Employee)
    requires DistinctIds(rows) && e in rows
    ensures Find(rows, e.id) == Some(e)
  {
    var f := Find(rows, e.id).value;
    var i :| 0 <= i < |rows| && rows[i] == e;
    var j :| 0 <= j < |rows| && rows[j] == f;
    assert i == j;
  }

  lemma {:induction false} IdSetSize(rows: seq<Employee>)
    requires DistinctIds(rows)
    ensures |IdSet(rows)| == |rows|
    decreases |rows|
  {
    if |rows| > 0 {
      var init := rows[..|rows| - 1];
      var last := rows[|rows| - 1];
      assert rows == init + [last];
      IdSetSize(init);
      assert IdSet(rows) == IdSet(init) + {last.id};
      assert last.id !in IdSet(init);
    }
  }

  /** Rows with distinct ids are distinct rows. */
  lemma DistinctIdsDistinct(rows: seq<Employee>)
    requires DistinctIds(rows)
    ensures Distinct(rows)
  {
  }

  /** The constructor: a database holding no employee, into which any id can be added. */
  function Empty(): (r: Db)
    ensures Ids(r) == {} && GetEmployeeCount(r) == 0
    ensures forall id :: GetEmployeeById(r, id) == None
    ensures forall e :: WellFormed(e) ==> AddEmployee(r, e).success
  {
    Store([])
  }

  /** getEmployeeById: the record under `id`, or `null`. */
  function GetEmployeeById(db: Db, id: EmployeeId): (r: Option<Employee>)
    ensures r.Some? <==> id in Ids(db)
    ensures r.Some? ==> r.value.id == id && r.value in db.rows
  {
    Find(db.rows, id)
  }

  /** getEmployeeCount: the map's size, which is the number of distinct keys. */
  function GetEmployeeCount(db: Db): (n: nat)
    ensures n == |Ids(db)|
  {
    IdSetSize(db.rows);
    |db.rows|
  }

  /** addEmployee. */
  function AddEmployee(db: Db, e: Employee): (r: Mutation)
    requires WellFormed(e)
    ensures r.success <==> e.id !in Ids(db)
    ensures !r.success ==> r.db == db
    ensures r.success ==>
              && GetEmployeeById(r.db, e.id) == Some(e)
              && GetEmployeeCount(r.db) == GetEmployeeCount(db) + 1
              && Ids(r.db) == Ids(db) + {e.id}
              && r.db.rows == db.rows + [e]
    ensures forall id :: id != e.id ==> GetEmployeeById(r.db, id) == GetEmployeeById(db, id)
  {
    if e.id in Ids(db) then Mutation(false, db)
    else
      var rows := db.rows + [e];
      assert IdSet(rows) == Ids(db) + {e.id};
      var after: Db := Store(rows);
      FindUnique(rows, e);
      assert forall id :: id != e.id ==> Find(rows, id) == Find(db.rows, id) by {
        forall id | id != e.id ensures Find(rows, id) == Find(db.rows, id) {
          if id in IdSet(rows) {
            FindUnique(rows, Find(rows, id).value);
            FindUnique(db.rows, Find(rows, id).value);
          }
        }
      }
      Mutation(true, after)
  }

  /** The rows other than the one stored under `id`, in their order. */
  function Without(rows: seq<Employee>, id: EmployeeId): (r: seq<Employee>)
    ensures forall e :: e in r <==> e in rows && e.id != id
    ensures DistinctIds(rows) ==> DistinctIds(r)
    ensures DistinctIds(rows) && id in IdSet(rows) ==> |r| == |rows| - 1
    ensures id !in IdSet(rows) ==> r == rows
  {
    if |rows| == 0 then []
    else
      assert rows == [rows[0]] + rows[1..];
      var rest := Without(rows[1..], id);
      if rows[0].id == id then rest else [rows[0]] + rest
  }

  /** removeEmployee. */
  function RemoveEmployee(db: Db, id: EmployeeId): (r: Mutation)
    ensures r.success <==> id in Ids(db)
    ensures !r.success ==> r.db == db
    ensures r.success ==>
              && GetEmployeeById(r.db, id) == None
              && GetEmployeeCount(r.db) == GetEmployeeCount(db) - 1
              && Ids(r.db) == Ids(db) - {id}
    ensures forall x :: x != id ==> GetEmployeeById(r.db, x) == GetEmployeeById(db, x)
  {
    if id !in Ids(db) then Mutation(false, db)
    else
      var rows := Without(db.rows, id);
      var after: Db := Store(rows);
      assert forall x :: x != id ==> Find(rows, x) == Find(db.rows, x) by {
        forall x | x != id ensures Find(rows, x) == Find(db.rows, x) {
          if x in IdSet(db.rows) {
            FindUnique(rows, Find(db.rows, x).value);
          }
        }
      }
      Mutation(true, after)
  }

  /** getAllEmployees: each stored record exactly once; an empty list for an empty store. */
  function GetAllEmployees(db: Db): (r: seq<Employee>)
    ensures |r| == GetEmployeeCount(db)
    ensures GetEmployeeCount(db) == 0 ==> r == []
    ensures DistinctIds(r)
    ensures forall e :: e in r <==> GetEmployeeById(db, e.id) == Some(e)
  {
    forall e: Employee | GetEmployeeById(db, e.id) == Some(e) ensures e in db.rows { }
    forall e: Employee | e in db.rows ensures GetEmployeeById(db, e.id) == Some(e) {
      FindUnique(db.rows, e);
    }
    db.rows
  }

  /** getAllEmployeesSorted: the listing in natural order, years of experience ascending. */
  function GetAllEmployeesSorted(db: Db): (r: seq<Employee>)
    ensures multiset(r) == multiset(GetAllEmployees(db))
    ensures forall i, j :: 0 <= i < j < |r| ==> r[i].years <= r[j].years
  {
    CompareToIsComparator();
    Sort(GetAllEmployees(db), CompareTo)
  }

  /** Employees with equal years keep their listing order in the sorted listing. */
  lemma GetAllEmployeesSortedIsStable(db: Db, x: Employee)
    ensures TiesWith(GetAllEmployeesSorted(db), x, CompareTo)
            == TiesWith(GetAllEmployees(db), x, CompareTo)
  {
    CompareToIsComparator();
    SortIsStable(GetAllEmployees(db), x, CompareTo);
  }

  // ---- updateEmployeeDetails ----

  /** The dynamic type of the `Object newValue` argument. */
  datatype Value =
    | StringValue(s: string)
    | DoubleValue(d: real)
    | IntegerValue(i: Int32)
    | BooleanValue(b: bool)
    | OtherValue              // any other class, e.g. a Long

  /** One field assignment, once the field name and the value's type are resolved. */
  datatype FieldUpdate =
    | NewName(name: string)
    | NewDepartment(department: string)
    | NewSalary(salary: real)
    | NewRating(rating: real)
    | NewYears(years: Int32)
    | NewActive(active: bool)

  /** The field each assignment writes. */
  function Target(u: FieldUpdate): Field
  {
    match u
    case NewName(_) => Name
    case NewDepartment(_) => Department
    case NewSalary(_) => Salary
    case NewRating(_) => Rating
    case NewYears(_) => Years
    case NewActive(_) => Active
  }

  /** The switch labels, matched against the lower-cased field name. */
  function FieldNamed(field: string): (r: Option<Field>)
    ensures r.Some? ==> Label(r.value) == ToLower(field)
    ensures r.None? ==> forall f: Field :: Label(f) != ToLower(field)
  {
    var key := ToLower(field);
    if key == "name" then Some(Name)
    else if key == "department" then Some(Department)
    else if key == "salary" then Some(Salary)
    else if key == "performancerating" then Some(Rating)
    else if key == "yearsofexperience" then Some(Years)
    else if key == "isactive" then Some(Active)
    else None
  }

  /** The lower-case `case` label under which updateEmployeeDetails handles `f`. */
  function Label(f: Field): string
  {
    match f
    case Name => "name"
    case Department => "department"
    case Salary => "salary"
    case Rating => "performancerating"
    case Years => "yearsofexperience"
    case Active => "isactive"
  }

  /** Java's narrowing cast `(int) d`: truncation toward zero, saturating at the int range. */
  function DoubleToInt(d: real): (r: Int32)
    ensures d >= 2147483647.0 ==> r == 0x7fff_ffff
    ensures d <= -2147483648.0 ==> r == -0x8000_0000
    ensures 0.0 <= d < 2147483647.0 ==> r as real <= d < r as real + 1.0
    ensures -2147483648.0 < d < 0.0 ==> r as real - 1.0 < d <= r as real
  {
    if d >= 2147483647.0 then 0x7fff_ffff
    else if d <= -2147483648.0 then -0x8000_0000
    else if d >= 0.0 then d.Floor
    else -((-d).Floor)
  }

  /** The type tests and the rating range check of the switch. `None` is the
      IllegalArgumentException those branches throw, and the unknown-field default. */
  function DecodeUpdate(field: string, value: Value): (r: Option<FieldUpdate>)
    ensures r.Some? ==> FieldNamed(field) == Some(Target(r.value))
  {
    match FieldNamed(field)
    case None => None
    case Some(Name) =>
      if value.StringValue? then Some(NewName(value.s)) else None
    case Some(Department) =>
      if value.StringValue? then Some(NewDepartment(value.s)) else None
    case Some(Salary) =>
      if value.DoubleValue? then Some(NewSalary(value.d))
      else if value.IntegerValue? then Some(NewSalary(value.i as real))
      else None
    case Some(Rating) =>
      if value.DoubleValue? then
        if value.d < 0.0 || value.d > 5.0 then None else Some(NewRating(value.d))
      else if value.IntegerValue? then
        if value.i < 0 || value.i > 5 then None else Some(NewRating(value.i as real))
      else None
    case Some(Years) =>
      if value.IntegerValue? then Some(NewYears(value.i))
      else if value.DoubleValue? then Some(NewYears(DoubleToInt(value.d)))
      else None
    case Some(Active) =>
      if value.BooleanValue? then Some(NewActive(value.b))
      else if value.StringValue? then Some(NewActive(ParseBoolean(value.s)))
      else None
  }

  /** The setter call of the switch branch; the checking setters may still refuse. */
  function ApplyUpdate(e: Employee, u: FieldUpdate): (r: Result<Employee>)
    ensures r.Success? ==> AgreeExcept(e, r.value, Target(u))
    ensures r.Success? && WellFormed(e) ==> WellFormed(r.value)
  {
    match u
    case NewName(n) => SetName(e, n)
    case NewDepartment(d) => SetDepartment(e, d)
    case NewSalary(s) => SetSalary(e, s)
    case NewRating(x) => var e' := SetRating(e, x); Success(e')
    case NewYears(y) => var e' := SetYears(e, y); Success(e')
    case NewActive(a) => var e' := SetActive(e, a); Success(e')
  }

  /** What a call would make of the record `e`, or `None` when the call returns false. */
  function UpdatedRecord(e: Employee, field: string, value: Value): (r: Option<Employee>)
    ensures r.Some? ==> FieldNamed(field).Some? && AgreeExcept(e, r.value, FieldNamed(field).value)
    ensures r.Some? && WellFormed(e) ==> WellFormed(r.value)
  {
    match DecodeUpdate(field, value)
    case None => None
    case Some(u) =>
      match ApplyUpdate(e, u)
      case Failure(_) => None
      case Success(e') => Some(e')
  }

  /** `rows` with the record stored under `id` replaced by `e`. */
  function Replace(rows: seq<Employee>, id: EmployeeId, e: Employee): (r: seq<Employee>)
    requires e.id == id
    ensures |r| == |rows|
    ensures forall i :: 0 <= i < |r| ==> r[i] == if rows[i].id == id then e else rows[i]
  {
    if |rows| == 0 then []
    else [if rows[0].id == id then e else rows[0]] + Replace(rows[1..], id, e)
  }

  lemma ReplaceKeepsWellFormed(rows: seq<Employee>, id: EmployeeId, e': Employee)
    requires forall i :: 0 <= i < |rows| ==> WellFormed(rows[i])
    requires WellFormed(e') && e'.id == id
    ensures forall i :: 0 <= i < |rows| ==> WellFormed(Replace(rows, id, e')[i])
  {
  }

  /** Replacing a record by one with the same id leaves every position's key as it was. */
  lemma ReplaceKeepsIdSet(rows: seq<Employee>, id: EmployeeId, e': Employee)
    requires e'.id == id
    ensures DistinctIds(rows) ==> DistinctIds(Replace(rows, id, e'))
    ensures IdSet(Replace(rows, id, e')) == IdSet(rows)
  {
    var rows' := Replace(rows, id, e');
    assert forall i :: 0 <= i < |rows'| ==> rows'[i].id == rows[i].id;
    forall x | x in IdSet(rows') ensures x in IdSet(rows) {
      var i :| 0 <= i < |rows'| && rows'[i].id == x;
      assert rows[i] in rows;
    }
    forall x | x in IdSet(rows) ensures x in IdSet(rows') {
      var i :| 0 <= i < |rows| && rows[i].id == x;
      assert rows'[i] in rows';
    }
  }

  /** Replacing a stored record by one with the same id changes only what is found
      under that id. */
  lemma ReplaceKeepsKeys(rows: seq<Employee>, e: Employee, e': Employee)
    requires DistinctIds(rows) && e in rows && e'.id == e.id
    ensures DistinctIds(Replace(rows, e.id, e'))
    ensures IdSet(Replace(rows, e.id, e')) == IdSet(rows)
    ensures Find(Replace(rows, e.id, e'), e.id) == Some(e')
    ensures forall x :: x != e.id ==> Find(Replace(rows, e.id, e'), x) == Find(rows, x)
  {
    var rows' := Replace(rows, e.id, e');
    ReplaceKeepsIdSet(rows, e.id, e');
    var k :| 0 <= k < |rows| && rows[k] == e;
    assert rows'[k] == e';
    FindUnique(rows', e');
    forall x | x != e.id ensures Find(rows', x) == Find(rows, x) {
      if x in IdSet(rows) {
        var f := Find(rows, x).value;
        var i :| 0 <= i < |rows| && rows[i] == f;
        assert rows'[i] == f;
        FindUnique(rows', f);
      }
    }
  }

  /** updateEmployeeDetails. A refused value, an unknown field and an absent id all
      return false and leave every record as it was. */
  function UpdateEmployeeDetails(db: Db, id: EmployeeId, field: string, value: Value)
    : (r: Mutation)
    ensures id !in Ids(db) ==> r == Mutation(false, db)
    ensures FieldNamed(field).None? ==> r == Mutation(false, db)
    ensures !r.success ==> r.db == db
    ensures r.success <==>
              id in Ids(db) && UpdatedRecord(GetEmployeeById(db, id).value, field, value).Some?
    ensures r.success ==>
              && Ids(r.db) == Ids(db)
              && GetEmployeeCount(r.db) == GetEmployeeCount(db)
              && GetEmployeeById(r.db, id)
                 == UpdatedRecord(GetEmployeeById(db, id).value, field, value)
              && AgreeExcept(GetEmployeeById(db, id).value, GetEmployeeById(r.db, id).value,
                             FieldNamed(field).value)
    ensures forall x :: x != id ==> GetEmployeeById(r.db, x) == GetEmployeeById(db, x)
  {
    match GetEmployeeById(db, id)
    case None => Mutation(false, db)
    case Some(e) =>
      match UpdatedRecord(e, field, value)
      case None => Mutation(false, db)
      case Some(e') =>
        FindUnique(db.rows, e);
        assert WellFormed(e) by {
          var k :| 0 <= k < |db.rows| && db.rows[k] == e;
        }
        assert WellFormed(e');
        ReplaceKeepsKeys(db.rows, e, e');
        ReplaceKeepsWellFormed(db.rows, id, e');
        var after: Db := Store(Replace(db.rows, id, e'));
        Mutation(true, after)
  }
}

/** What updateEmployeeDetails does field by field, stated against the record it starts
    from. */
module UpdateLaws {
  import opened Results
  import opened Text
  import opened Entity
  import opened EmployeeDB

  /** The field name is matched without regard to ASCII case. */
  lemma {:induction false} UpdateIgnoresCase(db: Db, id: EmployeeId, f: string, g: string,
                                             value: Value)
    requires EqualsIgnoreCase(f, g)
    ensures UpdateEmployeeDetails(db, id, f, value) == UpdateEmployeeDetails(db, id, g, value)
  {
    if id in Ids(db) {
      UpdatedRecordIgnoresCase(GetEmployeeById(db, id).value, f, g, value);
    }
  }

  lemma UpdatedRecordIgnoresCase(e: Employee, f: string, g: string, value: Value)
    requires EqualsIgnoreCase(f, g)
    ensures UpdatedRecord(e, f, value) == UpdatedRecord(e, g, value)
  {
    assert FieldNamed(f) == FieldNamed(g);
    assert DecodeUpdate(f, value) == DecodeUpdate(g, value);
  }

  /** A value of a class no branch accepts never changes anything. */
  lemma UpdateRejectsOtherTypes(db: Db, id: EmployeeId, field: string)
    ensures UpdateEmployeeDetails(db, id, field, OtherValue) == Mutation(false, db)
  {
    assert DecodeUpdate(field, OtherValue) == None;
    if id in Ids(db) {
      assert UpdatedRecord(GetEmployeeById(db, id).value, field, OtherValue) == None;
    }
  }

  /** "name" takes a String, and only one that is not blank. */
  lemma UpdateName(e: Employee, field: string, value: Value)
    requires FieldNamed(field) == Some(Name)
    ensures UpdatedRecord(e, field, value).Some? <==> value.StringValue? && !IsBlank(value.s)
    ensures UpdatedRecord(e, field, value).Some? ==>
              UpdatedRecord(e, field, value).value == e.(name := value.s)
  {
  }

  /** "department" takes a String, and only one that is not blank. */
  lemma UpdateDepartment(e: Employee, field: string, value: Value)
    requires FieldNamed(field) == Some(Department)
    ensures UpdatedRecord(e, field, value).Some? <==> value.StringValue? && !IsBlank(value.s)
    ensures UpdatedRecord(e, field, value).Some? ==>
              UpdatedRecord(e, field, value).value == e.(department := value.s)
  {
  }

  /** "salary" takes a Double or an Integer, widened, and only a non-negative amount. */
  lemma UpdateSalary(e: Employee, field: string, value: Value)
    requires FieldNamed(field) == Some(Salary)
    ensures UpdatedRecord(e, field, value).Some? <==>
              (value.DoubleValue? && value.d >= 0.0) || (value.IntegerValue? && value.i >= 0)
    ensures value.DoubleValue? && value.d >= 0.0 ==>
              UpdatedRecord(e, field, value) == Some(e.(salary := value.d))
    ensures value.IntegerValue? && value.i >= 0 ==>
              UpdatedRecord(e, field, value) == Some(e.(salary := value.i as real))
  {
  }

  /** "performancerating" is the only field whose range the update checks: 0 to 5
      inclusive, for a Double or an Integer. */
  lemma UpdateRating(e: Employee, field: string, value: Value)
    requires FieldNamed(field) == Some(Rating)
    ensures UpdatedRecord(e, field, value).Some? <==>
              || (value.DoubleValue? && 0.0 <= value.d <= 5.0)
              || (value.IntegerValue? && 0 <= value.i <= 5)
    ensures UpdatedRecord(e, field, value).Some? ==>
              && 0.0 <= UpdatedRecord(e, field, value).value.rating <= 5.0
              && UpdatedRecord(e, field, value).value
                 == e.(rating := if value.DoubleValue? then value.d else value.i as real)
  {
  }

  /** "yearsofexperience" takes any Integer, negative ones included, and a Double cut
      to an int. */
  lemma UpdateYears(e: Employee, field: string, value: Value)
    requires FieldNamed(field) == Some(Years)
    ensures UpdatedRecord(e, field, value).Some? <==> value.IntegerValue? || value.DoubleValue?
    ensures value.IntegerValue? ==> UpdatedRecord(e, field, value) == Some(e.(years := value.i))
    ensures value.DoubleValue? ==>
              UpdatedRecord(e, field, value) == Some(e.(years := DoubleToInt(value.d)))
  {
  }

  /** "isactive" takes a Boolean, or a String read as true exactly when it spells "true"
      in any case; it never refuses a String. */
  lemma UpdateActive(e: Employee, field: string, value: Value)
    requires FieldNamed(field) == Some(Active)
    ensures UpdatedRecord(e, field, value).Some? <==> value.BooleanValue? || value.StringValue?
    ensures value.BooleanValue? ==> UpdatedRecord(e, field, value) == Some(e.(active := value.b))
    ensures value.StringValue? ==>
              UpdatedRecord(e, field, value)
              == Some(e.(active := EqualsIgnoreCase(value.s, "true")))
  {
  }

  /** The six names the switch knows, in any case. */
  lemma FieldNames(field: string)
    ensures FieldNamed(field).Some? <==>
              ToLower(field) in {"name", "department", "salary", "performancerating",
                                 "yearsofexperience", "isactive"}
    ensures ToLower(field) == "performancerating" ==> FieldNamed(field) == Some(Rating)
    ensures ToLower(field) == "yearsofexperience" ==> FieldNamed(field) == Some(Years)
    ensures ToLower(field) == "isactive" ==> FieldNamed(field) == Some(Active)
  {
  }
}
