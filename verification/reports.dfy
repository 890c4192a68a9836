/** EmployeeDisplay's three generated reports, as the structured data they format:
    the fixed salary and rating bands every employee is classified into, the fixed
    order the bands are emitted in, and the per-department summaries. The text layout
    (padding, `%.2f`, separator lines) is not modelled. */
module Reports {
  import opened Entity
  import opened Seqs
  import opened Grouping
  import opened EmployeeDB

  // ---- grouping by a string key ----

  /** Some row has key `k`. */
  predicate HasKey(rows: seq<Employee>, key: Employee -> string, k: string)
  {
    exists i :: 0 <= i < |rows| && key(rows[i]) == k
  }

  function KeyIs(key: Employee -> string, k: string): Employee -> bool
  {
    (e: Employee) => key(e) == k
  }

  /** Collectors.groupingBy(key): every key some row has, mapped to the rows with that
      key in listing order. */
  function GroupBy(rows: seq<Employee>, key: Employee -> string): (m: map<string, seq<Employee>>)
    ensures forall k :: k in m <==> HasKey(rows, key, k)
    ensures forall k :: k in m ==> m[k] == Filter(rows, KeyIs(key, k))
    decreases |rows|
  {
    if |rows| == 0 then map[]
    else
      var m := GroupBy(rows[1..], key);
      var k := key(rows[0]);
      GroupByStep(rows, key, m);
      m[k := [rows[0]] + (if k in m then m[k] else [])]
  }

  /** The group under `k`, empty when there is none. */
  function GroupOf(groups: map<string, seq<Employee>>, k: string): seq<Employee>
  {
    if k in groups then groups[k] else []
  }

  /** The size of the group under `k`, 0 when there is none. */
  function GroupSize(groups: map<string, seq<Employee>>, k: string): nat
  {
    |GroupOf(groups, k)|
  }

  lemma GroupByStep(rows: seq<Employee>, key: Employee -> string, m: map<string, seq<Employee>>)
    requires |rows| > 0
    requires forall k :: k in m <==> HasKey(rows[1..], key, k)
    requires forall k :: k in m ==> m[k] == Filter(rows[1..], KeyIs(key, k))
    ensures var k := key(rows[0]);
            var m' := m[k := [rows[0]] + (if k in m then m[k] else [])];
            && (forall k' :: k' in m' <==> HasKey(rows, key, k'))
            && (forall k' :: k' in m' ==> m'[k'] == Filter(rows, KeyIs(key, k')))
  {
    var k := key(rows[0]);
    var m' := m[k := [rows[0]] + (if k in m then m[k] else [])];
    forall k' ensures k' in m' <==> HasKey(rows, key, k') {
      HasKeyCons(rows, key, k');
    }
    forall k' | k' in m' ensures m'[k'] == Filter(rows, KeyIs(key, k')) {
      FilterByKeyCons(rows, key, k');
      if k' == k && k !in m {
        NoKeyNoRows(rows[1..], key, k);
      }
    }
  }

  lemma HasKeyCons(rows: seq<Employee>, key: Employee -> string, k: string)
    requires |rows| > 0
    ensures HasKey(rows, key, k) <==> key(rows[0]) == k || HasKey(rows[1..], key, k)
  {
    if HasKey(rows, key, k) && key(rows[0]) != k {
      var i :| 0 <= i < |rows| && key(rows[i]) == k;
      assert key(rows[1..][i - 1]) == k;
    }
    if HasKey(rows[1..], key, k) {
      var i :| 0 <= i < |rows[1..]| && key(rows[1..][i]) == k;
      assert key(rows[i + 1]) == k;
    }
  }

  lemma FilterByKeyCons(rows: seq<Employee>, key: Employee -> string, k: string)
    requires |rows| > 0
    ensures Filter(rows, KeyIs(key, k))
            == (if key(rows[0]) == k then [rows[0]] else []) + Filter(rows[1..], KeyIs(key, k))
  {
    assert KeyIs(key, k)(rows[0]) == (key(rows[0]) == k);
  }

  lemma NoKeyNoRows(rows: seq<Employee>, key: Employee -> string, k: string)
    requires !HasKey(rows, key, k)
    ensures Filter(rows, KeyIs(key, k)) == []
  {
    assert |Filter(rows, KeyIs(key, k))| == 0;
  }

  // ---- salary distribution ----

  /** The five salary ranges of the distribution report. */
  datatype SalaryBand = Below50k | From50k | From75k | From100k | From125k

  /** The bands in the order the report emits them. */
  const SalaryBands: seq<SalaryBand> := [Below50k, From50k, From75k, From100k, From125k]

  /** The half-open range of salaries each band stands for. */
  predicate InSalaryBand(salary: real, b: SalaryBand)
  {
    match b
    case Below50k => salary < 50000.0
    case From50k => 50000.0 <= salary < 75000.0
    case From75k => 75000.0 <= salary < 100000.0
    case From100k => 100000.0 <= salary < 125000.0
    case From125k => 125000.0 <= salary
  }

  /** The classifier: the first band, in ascending order, whose upper limit the salary
      is below. */
  function SalaryBandOf(salary: real): (b: SalaryBand)
    ensures InSalaryBand(salary, b)
  {
    if salary < 50000.0 then Below50k
    else if salary < 75000.0 then From50k
    else if salary < 100000.0 then From75k
    else if salary < 125000.0 then From100k
    else From125k
  }

  /** The bands do not overlap, so the band a salary is classified into is the only one
      holding it. */
  lemma SalaryBandsDisjoint(salary: real, b: SalaryBand)
    requires InSalaryBand(salary, b)
    ensures SalaryBandOf(salary) == b
  {
  }

  function SalaryLabel(b: SalaryBand): string
  {
    match b
    case Below50k => "Below $50,000"
    case From50k => "$50,000 - $74,999"
    case From75k => "$75,000 - $99,999"
    case From100k => "$100,000 - $124,999"
    case From125k => "$125,000 and above"
  }

  /** No two bands share a label, so looking a label up finds that band's group. */
  lemma SalaryLabelInjective(a: SalaryBand, b: SalaryBand)
    ensures SalaryLabel(a) == SalaryLabel(b) ==> a == b
  {
    if SalaryLabel(a) == SalaryLabel(b) {
      var la, lb := SalaryLabel(a), SalaryLabel(b);
      assert la[0] == lb[0] && la[1] == lb[1] && la[2] == lb[2];
    }
  }

  function SalaryKey(e: Employee): string
  {
    SalaryLabel(SalaryBandOf(e.salary))
  }

  function InBand(b: SalaryBand): Employee -> bool
  {
    (e: Employee) => SalaryBandOf(e.salary) == b
  }

  /** One "label: count" line of a report. */
  datatype CountLine = CountLine(caption: string, count: nat)

  datatype SalaryReport = SalaryMessage(message: string) | SalaryLines(lines: seq<CountLine>)

  /** generateSalaryDistributionReport: the fixed message for an empty store, otherwise
      one line per band, in ascending order, counting the employees in that band; a band
      nobody falls in is listed with 0. */
  function SalaryDistribution(db: Db): (r: SalaryReport)
    ensures r.SalaryMessage? <==> GetEmployeeCount(db) == 0
    ensures r.SalaryMessage? ==> r.message == "No employees to generate salary distribution."
    ensures r.SalaryLines? ==>
              && |r.lines| == 5
              && forall i :: 0 <= i < 5 ==>
                   && r.lines[i].caption == SalaryLabel(SalaryBands[i])
                   && r.lines[i].count == |Filter(GetAllEmployees(db), InBand(SalaryBands[i]))|
  {
    var rows := GetAllEmployees(db);
    if |rows| == 0 then SalaryMessage("No employees to generate salary distribution.")
    else
      var groups := GroupBy(rows, SalaryKey);
      SalaryGroupsAreBands(rows, groups);
      SalaryLines(BandCounts(groups))
  }

  /** The report's lines for a grouping by salary label: each band's label with the size
      of the group under it, 0 for a label nobody has. */
  function BandCounts(groups: map<string, seq<Employee>>): (lines: seq<CountLine>)
    ensures |lines| == 5
    ensures forall i :: 0 <= i < 5 ==>
              && lines[i].caption == SalaryLabel(SalaryBands[i])
              && lines[i].count == GroupSize(groups, SalaryLabel(SalaryBands[i]))
  {
    seq(5, i requires 0 <= i < 5 =>
      var caption := SalaryLabel(SalaryBands[i]);
      CountLine(caption, GroupSize(groups, caption)))
  }

  /** Looking up a band's label in the grouping finds exactly the rows of that band. */
  lemma SalaryGroupsAreBands(rows: seq<Employee>, groups: map<string, seq<Employee>>)
    requires groups == GroupBy(rows, SalaryKey)
    ensures forall b :: GroupSize(groups, SalaryLabel(b)) == |Filter(rows, InBand(b))|
  {
    forall b ensures GroupSize(groups, SalaryLabel(b)) == |Filter(rows, InBand(b))| {
      SalaryGroupIsBand(rows, groups, b);
    }
  }

  lemma SalaryGroupIsBand(rows: seq<Employee>, groups: map<string, seq<Employee>>, b: SalaryBand)
    requires groups == GroupBy(rows, SalaryKey)
    ensures GroupSize(groups, SalaryLabel(b)) == |Filter(rows, InBand(b))|
  {
    forall e ensures KeyIs(SalaryKey, SalaryLabel(b))(e) == InBand(b)(e) {
      SalaryKeyMatches(e, b);
    }
    FilterAgree(rows, KeyIs(SalaryKey, SalaryLabel(b)), InBand(b));
    if SalaryLabel(b) !in groups {
      NoKeyNoRows(rows, SalaryKey, SalaryLabel(b));
    }
  }

  /** An employee has a band's label as key exactly when it falls in that band. */
  lemma SalaryKeyMatches(e: Employee, b: SalaryBand)
    ensures KeyIs(SalaryKey, SalaryLabel(b))(e) == InBand(b)(e)
  {
    SalaryLabelInjective(SalaryBandOf(e.salary), b);
    assert KeyIs(SalaryKey, SalaryLabel(b))(e) == (SalaryLabel(SalaryBandOf(e.salary)) == SalaryLabel(b));
    assert InBand(b)(e) == (SalaryBandOf(e.salary) == b);
  }

  /** The rows of the five bands, counted together, are all the rows. */
  lemma {:induction false} SalaryBandsPartition(rows: seq<Employee>)
    ensures |Filter(rows, InBand(Below50k))| + |Filter(rows, InBand(From50k))|
            + |Filter(rows, InBand(From75k))| + |Filter(rows, InBand(From100k))|
            + |Filter(rows, InBand(From125k))| == |rows|
    decreases |rows|
  {
    if |rows| > 0 {
      SalaryBandsPartition(rows[1..]);
    }
  }

  /** The counts of a distribution add up to the number of employees. */
  lemma SalaryDistributionSums(db: Db)
    requires GetEmployeeCount(db) > 0
    ensures var lines := SalaryDistribution(db).lines;
            lines[0].count + lines[1].count + lines[2].count + lines[3].count + lines[4].count
            == GetEmployeeCount(db)
  {
    SalaryBandsPartition(GetAllEmployees(db));
  }

  // ---- performance report ----

  /** The five rating ranges of the performance report. */
  datatype RatingBand = Poor | Fair | Good | Excellent | Outstanding

  /** The bands in the order the report emits them: best first. */
  const RatingBands: seq<RatingBand> := [Outstanding, Excellent, Good, Fair, Poor]

  predicate InRatingBand(rating: real, b: RatingBand)
  {
    match b
    case Poor => rating < 2.0
    case Fair => 2.0 <= rating < 3.0
    case Good => 3.0 <= rating < 4.0
    case Excellent => 4.0 <= rating < 4.5
    case Outstanding => 4.5 <= rating
  }

  function RatingBandOf(rating: real): (b: RatingBand)
    ensures InRatingBand(rating, b)
  {
    if rating < 2.0 then Poor
    else if rating < 3.0 then Fair
    else if rating < 4.0 then Good
    else if rating < 4.5 then Excellent
    else Outstanding
  }

  lemma RatingBandsDisjoint(rating: real, b: RatingBand)
    requires InRatingBand(rating, b)
    ensures RatingBandOf(rating) == b
  {
  }

  function RatingLabel(b: RatingBand): string
  {
    match b
    case Poor => "Poor (0-1.9)"
    case Fair => "Fair (2.0-2.9)"
    case Good => "Good (3.0-3.9)"
    case Excellent => "Excellent (4.0-4.4)"
    case Outstanding => "Outstanding (4.5-5.0)"
  }

  lemma RatingLabelInjective(a: RatingBand, b: RatingBand)
    ensures RatingLabel(a) == RatingLabel(b) ==> a == b
  {
    if RatingLabel(a) == RatingLabel(b) {
      assert RatingLabel(a)[0] == RatingLabel(b)[0];
    }
  }

  function RatingKey(e: Employee): string
  {
    RatingLabel(RatingBandOf(e.rating))
  }

  function InRatingGroup(b: RatingBand): Employee -> bool
  {
    (e: Employee) => RatingBandOf(e.rating) == b
  }

  /** One group of the performance report: its label, its size, and the employees
      listed under it (none when the group is empty). */
  datatype RatingSection = RatingSection(caption: string, count: nat, listed: seq<Employee>)

  datatype PerformanceReport =
    | PerformanceMessage(message: string)
    | PerformanceSections(sections: seq<RatingSection>)

  /** generatePerformanceReport: the fixed message for an empty store, otherwise one
      section per band from Outstanding down to Poor, each with its count and, in
      listing order, the employees in it. */
  function PerformanceSummary(db: Db): (r: PerformanceReport)
    ensures r.PerformanceMessage? <==> GetEmployeeCount(db) == 0
    ensures r.PerformanceMessage? ==> r.message == "No employees to generate performance report."
    ensures r.PerformanceSections? ==>
              && |r.sections| == 5
              && forall i :: 0 <= i < 5 ==>
                   && r.sections[i].caption == RatingLabel(RatingBands[i])
                   && r.sections[i].listed == Filter(GetAllEmployees(db), InRatingGroup(RatingBands[i]))
                   && r.sections[i].count == |r.sections[i].listed|
  {
    var rows := GetAllEmployees(db);
    if |rows| == 0 then PerformanceMessage("No employees to generate performance report.")
    else
      var groups := GroupBy(rows, RatingKey);
      RatingGroupsAreBands(rows, groups);
      PerformanceSections(RatingSections(groups))
  }

  /** The report's sections for a grouping by rating label: each band's label with the
      group under it, and nothing listed for a label nobody has. */
  function RatingSections(groups: map<string, seq<Employee>>): (sections: seq<RatingSection>)
    ensures |sections| == 5
    ensures forall i :: 0 <= i < 5 ==>
              && sections[i].caption == RatingLabel(RatingBands[i])
              && sections[i].listed == GroupOf(groups, RatingLabel(RatingBands[i]))
              && sections[i].count == |sections[i].listed|
  {
    seq(5, i requires 0 <= i < 5 =>
      var caption := RatingLabel(RatingBands[i]);
      var members := GroupOf(groups, caption);
      RatingSection(caption, |members|, members))
  }


  lemma RatingGroupsAreBands(rows: seq<Employee>, groups: map<string, seq<Employee>>)
    requires groups == GroupBy(rows, RatingKey)
    ensures forall b :: GroupOf(groups, RatingLabel(b)) == Filter(rows, InRatingGroup(b))
  {
    forall b ensures GroupOf(groups, RatingLabel(b)) == Filter(rows, InRatingGroup(b)) {
      RatingGroupIsBand(rows, groups, b);
    }
  }

  lemma RatingGroupIsBand(rows: seq<Employee>, groups: map<string, seq<Employee>>, b: RatingBand)
    requires groups == GroupBy(rows, RatingKey)
    ensures GroupOf(groups, RatingLabel(b)) == Filter(rows, InRatingGroup(b))
  {
    forall e ensures KeyIs(RatingKey, RatingLabel(b))(e) == InRatingGroup(b)(e) {
      RatingKeyMatches(e, b);
    }
    FilterAgree(rows, KeyIs(RatingKey, RatingLabel(b)), InRatingGroup(b));
    if RatingLabel(b) !in groups {
      NoKeyNoRows(rows, RatingKey, RatingLabel(b));
    }
  }

  /** An employee has a band's label as key exactly when it falls in that band. */
  lemma RatingKeyMatches(e: Employee, b: RatingBand)
    ensures KeyIs(RatingKey, RatingLabel(b))(e) == InRatingGroup(b)(e)
  {
    RatingLabelInjective(RatingBandOf(e.rating), b);
    assert KeyIs(RatingKey, RatingLabel(b))(e) == (RatingLabel(RatingBandOf(e.rating)) == RatingLabel(b));
    assert InRatingGroup(b)(e) == (RatingBandOf(e.rating) == b);
  }

  lemma {:induction false} RatingBandsPartition(rows: seq<Employee>)
    ensures |Filter(rows, InRatingGroup(Outstanding))| + |Filter(rows, InRatingGroup(Excellent))|
            + |Filter(rows, InRatingGroup(Good))| + |Filter(rows, InRatingGroup(Fair))|
            + |Filter(rows, InRatingGroup(Poor))| == |rows|
    decreases |rows|
  {
    if |rows| > 0 {
      RatingBandsPartition(rows[1..]);
    }
  }

  /** Every employee is listed in exactly one section: the counts add up to the number
      of employees. */
  lemma PerformanceSummarySums(db: Db)
    requires GetEmployeeCount(db) > 0
    ensures var s := PerformanceSummary(db).sections;
            s[0].count + s[1].count + s[2].count + s[3].count + s[4].count == GetEmployeeCount(db)
  {
    RatingBandsPartition(GetAllEmployees(db));
  }

  // ---- department report ----

  /** One department's block of the department report. */
  datatype DepartmentSection = DepartmentSection(
    department: string,
    size: nat,
    active: nat,
    averageSalary: real,
    averageRating: real,
    members: seq<Employee>)

  datatype DepartmentReport =
    | DepartmentMessage(message: string)
    | DepartmentSections(sections: seq<DepartmentSection>)

  function DepartmentOf(e: Employee): string { e.department }

  /** The block of one group, as the report's loop body computes it: the group's size,
      how many of it are active, and its mean salary and mean rating. */
  function Section(department: string, members: seq<Employee>): (s: DepartmentSection)
    ensures s.department == department && s.members == members
    ensures s.size == |members| && s.active <= s.size
    ensures s.active == |Filter(members, IsActive)|
    ensures IsMean(s.averageSalary, members, Pay)
    ensures IsMean(s.averageRating, members, RatingOf)
  {
    DepartmentSection(department, |members|, |Filter(members, IsActive)|,
                      Mean(members, Pay), Mean(members, RatingOf), members)
  }

  /** The block of each listed department, in the order of `ks`. */
  function SectionsOf(ks: seq<string>, groups: map<string, seq<Employee>>): (r: seq<DepartmentSection>)
    requires forall i :: 0 <= i < |ks| ==> ks[i] in groups
    ensures |r| == |ks|
    ensures forall i :: 0 <= i < |ks| ==> r[i] == Section(ks[i], groups[ks[i]])
  {
    seq(|ks|, i requires 0 <= i < |ks| => Section(ks[i], groups[ks[i]]))
  }

  /** A department's block is the group of that department, which is never empty. */
  predicate IsDepartmentSection(rows: seq<Employee>, d: string, s: DepartmentSection)
  {
    && s.department == d
    && s.members == Members(rows, d)
    && s.size == |s.members| > 0
    && s.active <= s.size
    && s.active == |Filter(s.members, IsActive)|
    && IsMean(s.averageSalary, s.members, Pay)
    && IsMean(s.averageRating, s.members, RatingOf)
  }

  /** generateDepartmentReport: the fixed message when the grouping is empty, otherwise
      one block per department string present (case-sensitive; HashMap order, taken
      here as first appearance) with the group's size, active count, mean salary, mean
      rating and members. */
  function DepartmentSummary(db: Db): (r: DepartmentReport)
    ensures r.DepartmentMessage? <==> GetEmployeeCount(db) == 0
    ensures r.DepartmentMessage? ==> r.message == "No employees in any department."
    ensures r.DepartmentSections? ==>
              var ks := Departments(GetAllEmployees(db));
              && |r.sections| == |ks|
              && forall i :: 0 <= i < |ks| ==>
                   IsDepartmentSection(GetAllEmployees(db), ks[i], r.sections[i])
  {
    DepartmentReportOf(GetAllEmployees(db))
  }

  /** The department report of a listing. */
  function DepartmentReportOf(rows: seq<Employee>): (r: DepartmentReport)
    ensures r.DepartmentMessage? <==> |rows| == 0
    ensures r.DepartmentMessage? ==> r.message == "No employees in any department."
    ensures r.DepartmentSections? ==>
              var ks := Departments(rows);
              && |r.sections| == |ks|
              && forall i :: 0 <= i < |ks| ==> IsDepartmentSection(rows, ks[i], r.sections[i])
  {
    var groups := GroupBy(rows, DepartmentOf);
    DepartmentGroupsEmpty(rows, groups);
    if groups == map[] then DepartmentMessage("No employees in any department.")
    else
      var ks := Departments(rows);
      DepartmentBlocks(rows, groups, ks);
      DepartmentSections(SectionsOf(ks, groups))
  }

  lemma DepartmentGroupsEmpty(rows: seq<Employee>, groups: map<string, seq<Employee>>)
    requires groups == GroupBy(rows, DepartmentOf)
    ensures groups == map[] <==> |rows| == 0
  {
    DepartmentGroups(rows, groups);
  }

  /** Every department present has a group, and its block is that department's block. */
  lemma DepartmentBlocks(rows: seq<Employee>, groups: map<string, seq<Employee>>, ks: seq<string>)
    requires groups == GroupBy(rows, DepartmentOf)
    requires ks == Departments(rows)
    ensures forall i :: 0 <= i < |ks| ==> ks[i] in groups
    ensures var sections := SectionsOf(ks, groups);
            forall i :: 0 <= i < |ks| ==> IsDepartmentSection(rows, ks[i], sections[i])
  {
    DepartmentGroups(rows, groups);
    SectionsAreDepartments(rows, groups, ks, SectionsOf(ks, groups));
  }

  lemma SectionsAreDepartments(rows: seq<Employee>, groups: map<string, seq<Employee>>,
                               ks: seq<string>, sections: seq<DepartmentSection>)
    requires forall d :: d in groups <==> d in Departments(rows)
    requires forall d :: d in groups ==> groups[d] == Members(rows, d) && |groups[d]| > 0
    requires ks == Departments(rows)
    requires |sections| == |ks|
    requires forall i :: 0 <= i < |ks| ==> ks[i] in groups && sections[i] == Section(ks[i], groups[ks[i]])
    ensures forall i :: 0 <= i < |ks| ==> IsDepartmentSection(rows, ks[i], sections[i])
  {
  }

  /** The department grouping is empty exactly for an empty listing, its keys are the
      departments present, and its groups are the department members. */
  lemma DepartmentGroups(rows: seq<Employee>, groups: map<string, seq<Employee>>)
    requires groups == GroupBy(rows, DepartmentOf)
    ensures groups == map[] <==> |rows| == 0
    ensures forall d :: d in groups <==> d in Departments(rows)
    ensures forall d :: d in groups ==> groups[d] == Members(rows, d) && |groups[d]| > 0
  {
    forall d ensures d in groups <==> d in Departments(rows) {
      DepartmentKey(rows, d);
    }
    forall d | d in groups ensures groups[d] == Members(rows, d) && |groups[d]| > 0 {
      DepartmentKey(rows, d);
      DepartmentGroup(rows, d);
    }
    if |rows| > 0 {
      DepartmentKey(rows, rows[0].department);
      assert rows[0].department in groups;
    }
  }

  /** Having a department as key is having that department. */
  lemma DepartmentKey(rows: seq<Employee>, d: string)
    ensures HasKey(rows, DepartmentOf, d) <==> HasDepartment(rows, d)
  {
    if HasKey(rows, DepartmentOf, d) {
      var i :| 0 <= i < |rows| && DepartmentOf(rows[i]) == d;
      assert rows[i].department == d;
    }
    if HasDepartment(rows, d) {
      var i :| 0 <= i < |rows| && rows[i].department == d;
      assert DepartmentOf(rows[i]) == d;
    }
  }

  /** The rows keyed by a present department are that department's members. */
  lemma DepartmentGroup(rows: seq<Employee>, d: string)
    requires HasDepartment(rows, d)
    ensures Filter(rows, KeyIs(DepartmentOf, d)) == Members(rows, d)
    ensures |Members(rows, d)| > 0
  {
    forall e ensures KeyIs(DepartmentOf, d)(e) == InDepartment(d)(e) {
      assert KeyIs(DepartmentOf, d)(e) == (DepartmentOf(e) == d);
    }
    FilterAgree(rows, KeyIs(DepartmentOf, d), InDepartment(d));
    MembersHasDepartment(rows, d);
  }

  /** The blocks' sizes add up to the number of employees. */
  function SectionSizes(sections: seq<DepartmentSection>): nat
  {
    if |sections| == 0 then 0 else sections[0].size + SectionSizes(sections[1..])
  }

  lemma {:induction false} SectionSizesAreGroupSizes(sections: seq<DepartmentSection>,
                                                     ks: seq<string>, rows: seq<Employee>)
    requires |sections| == |ks|
    requires forall i :: 0 <= i < |ks| ==> IsDepartmentSection(rows, ks[i], sections[i])
    ensures SectionSizes(sections) == GroupSizes(ks, rows)
    decreases |ks|
  {
    if |ks| > 0 {
      SectionSizesAreGroupSizes(sections[1..], ks[1..], rows);
    }
  }

  lemma DepartmentSummarySums(db: Db)
    requires GetEmployeeCount(db) > 0
    ensures SectionSizes(DepartmentSummary(db).sections) == GetEmployeeCount(db)
  {
    var rows := GetAllEmployees(db);
    SectionSizesAreGroupSizes(DepartmentSummary(db).sections, Departments(rows), rows);
    GroupSizesPartition(rows);
  }
}
