/** Collectors.groupingBy on the department string: the keys of the resulting map, the
    group of each key, and the partition law that the groups' totals add up to the
    total of the listing they were built from. */
module Grouping {
  import opened Entity
  import opened Seqs

  /** The weights the aggregates sum. */
  function Pay(e: Employee): real { e.salary }
  function RatingOf(e: Employee): real { e.rating }
  function One(e: Employee): real { 1.0 }
  function ActivePay(e: Employee): real { if e.active then e.salary else 0.0 }
  predicate IsActive(e: Employee) { e.active }

  function InDepartment(d: string): Employee -> bool
  {
    (e: Employee) => e.department == d
  }

  predicate HasDepartment(rows: seq<Employee>, d: string)
  {
    exists i :: 0 <= i < |rows| && rows[i].department == d
  }

  /** A row's department is among the listing's departments. */
  lemma InHasDepartment(rows: seq<Employee>, e: Employee)
    requires e in rows
    ensures HasDepartment(rows, e.department)
  {
    var i :| 0 <= i < |rows| && rows[i] == e;
  }

  /** The department of each row, in listing order. */
  function DepartmentsOf(rows: seq<Employee>): (r: seq<string>)
    ensures |r| == |rows|
    ensures forall i :: 0 <= i < |rows| ==> r[i] == rows[i].department
  {
    if |rows| == 0 then [] else [rows[0].department] + DepartmentsOf(rows[1..])
  }

  /** The map's keys: every department some row has, once each. The map is a HashMap,
      so its iteration order is unspecified; first appearance stands for it here. */
  function Departments(rows: seq<Employee>): (r: seq<string>)
    ensures Distinct(r)
    ensures forall d :: d in r <==> HasDepartment(rows, d)
    ensures |r| <= |rows|
  {
    var ds := DepartmentsOf(rows);
    assert forall d :: HasDepartment(rows, d) ==> d in ds by {
      forall d | HasDepartment(rows, d) ensures d in ds {
        var i :| 0 <= i < |rows| && rows[i].department == d;
        assert ds[i] == d;
      }
    }
    Dedupe(ds)
  }

  /** The group of `d`: the rows with exactly that department string, in listing order. */
  function Members(rows: seq<Employee>, d: string): (r: seq<Employee>)
    ensures forall e :: e in r <==> e in rows && e.department == d
    ensures IsSubsequence(r, rows)
  {
    Filter(rows, InDepartment(d))
  }

  lemma MembersHasDepartment(rows: seq<Employee>, d: string)
    ensures |Members(rows, d)| > 0 <==> HasDepartment(rows, d)
  {
    var m := Members(rows, d);
    if |m| > 0 {
      assert m[0] in m;
      var i :| 0 <= i < |rows| && rows[i] == m[0];
    }
    if HasDepartment(rows, d) {
      var i :| 0 <= i < |rows| && rows[i].department == d;
      assert rows[i] in m;
    }
  }

  /** A group is non-empty exactly for the keys of the map. */
  lemma MembersNonEmpty(rows: seq<Employee>, d: string)
    ensures |Members(rows, d)| > 0 <==> d in Departments(rows)
  {
    var m := Members(rows, d);
    if |m| > 0 {
      assert m[0] in m;
      var i :| 0 <= i < |rows| && rows[i] == m[0];
      assert HasDepartment(rows, d);
    }
    if d in Departments(rows) {
      var i :| 0 <= i < |rows| && rows[i].department == d;
      assert rows[i] in m;
    }
  }

  lemma MembersSnoc(rows: seq<Employee>, e: Employee, d: string)
    ensures Members(rows + [e], d)
            == Members(rows, d) + (if e.department == d then [e] else [])
  {
    FilterConcat(rows, [e], InDepartment(d));
    assert [e][1..] == [];
  }

  /** The sum, over the keys `ks` in order, of each group's total of `w`. */
  function GroupTotal(ks: seq<string>, rows: seq<Employee>, w: Employee -> real): real
  {
    if |ks| == 0 then 0.0 else Sum(Members(rows, ks[0]), w) + GroupTotal(ks[1..], rows, w)
  }

  /** One more row adds its weight to the one group it falls in, if that key is listed. */
  lemma {:induction false} GroupTotalSnoc(ks: seq<string>, rows: seq<Employee>, e: Employee,
                                          w: Employee -> real)
    requires Distinct(ks)
    ensures GroupTotal(ks, rows + [e], w)
            == GroupTotal(ks, rows, w) + (if e.department in ks then w(e) else 0.0)
    decreases |ks|
  {
    if |ks| > 0 {
      var k := ks[0];
      MembersSnoc(rows, e, k);
      if e.department == k {
        SumConcat(Members(rows, k), [e], w);
        SumSingleton(e, w);
        assert e.department !in ks[1..];
      } else {
        assert Members(rows + [e], k) == Members(rows, k);
        assert e.department in ks <==> e.department in ks[1..];
      }
      GroupTotalSnoc(ks[1..], rows, e, w);
    }
  }

  /** Partition law: when the keys cover every row's department once, the groups'
      totals add up to the total over all rows. */
  lemma {:induction false} PartitionSum(ks: seq<string>, rows: seq<Employee>,
                                        w: Employee -> real)
    requires Distinct(ks)
    requires forall i :: 0 <= i < |rows| ==> rows[i].department in ks
    ensures GroupTotal(ks, rows, w) == Sum(rows, w)
    decreases |rows|
  {
    if |rows| == 0 {
      GroupTotalEmpty(ks, w);
    } else {
      var init := rows[..|rows| - 1];
      var last := rows[|rows| - 1];
      assert rows == init + [last];
      PartitionSum(ks, init, w);
      GroupTotalSnoc(ks, init, last, w);
      SumConcat(init, [last], w);
      SumSingleton(last, w);
    }
  }

  lemma {:induction false} GroupTotalEmpty(ks: seq<string>, w: Employee -> real)
    ensures GroupTotal(ks, [], w) == 0.0
    decreases |ks|
  {
    if |ks| > 0 {
      assert Members([], ks[0]) == [];
      GroupTotalEmpty(ks[1..], w);
    }
  }

  /** The partition law for the map's own keys. */
  lemma GroupsPartition(rows: seq<Employee>, w: Employee -> real)
    ensures GroupTotal(Departments(rows), rows, w) == Sum(rows, w)
  {
    PartitionSum(Departments(rows), rows, w);
  }

  /** Summing over the active rows is summing a weight that is zero for inactive ones. */
  lemma {:induction false} SumActive(s: seq<Employee>)
    ensures Sum(Filter(s, IsActive), Pay) == Sum(s, ActivePay)
    decreases |s|
  {
    if |s| > 0 {
      SumActive(s[1..]);
    }
  }

  lemma {:induction false} SumOne(s: seq<Employee>)
    ensures Sum(s, One) == |s| as real
    decreases |s|
  {
    if |s| > 0 {
      SumOne(s[1..]);
    }
  }

  /** The sum of the group sizes over the keys `ks`. */
  function GroupSizes(ks: seq<string>, rows: seq<Employee>): nat
  {
    if |ks| == 0 then 0 else |Members(rows, ks[0])| + GroupSizes(ks[1..], rows)
  }

  lemma {:induction false} GroupSizesAsTotal(ks: seq<string>, rows: seq<Employee>)
    ensures GroupSizes(ks, rows) as real == GroupTotal(ks, rows, One)
    decreases |ks|
  {
    if |ks| > 0 {
      SumOne(Members(rows, ks[0]));
      GroupSizesAsTotal(ks[1..], rows);
    }
  }

  /** The groups' sizes add up to the number of rows. */
  lemma GroupSizesPartition(rows: seq<Employee>)
    ensures GroupSizes(Departments(rows), rows) == |rows|
  {
    GroupSizesAsTotal(Departments(rows), rows);
    GroupsPartition(rows, One);
    SumOne(rows);
  }

  lemma HasDepartmentSnoc(rows: seq<Employee>, e: Employee)
    ensures forall x :: HasDepartment(rows + [e], x) <==> HasDepartment(rows, x) || x == e.department
  {
    var all := rows + [e];
    forall x | HasDepartment(all, x) && x != e.department ensures HasDepartment(rows, x) {
      var i :| 0 <= i < |all| && all[i].department == x;
      assert rows[i] == all[i];
    }
    forall x | HasDepartment(rows, x) ensures HasDepartment(all, x) {
      var i :| 0 <= i < |rows| && rows[i].department == x;
      assert all[i] == rows[i];
    }
    assert all[|rows|] == e;
  }

  lemma MembersSnocAll(rows: seq<Employee>, e: Employee)
    ensures forall x :: Members(rows + [e], x)
                        == Members(rows, x) + (if e.department == x then [e] else [])
  {
    forall x ensures Members(rows + [e], x)
                     == Members(rows, x) + (if e.department == x then [e] else []) {
      MembersSnoc(rows, e, x);
    }
  }

  /** The collector's accumulation step keeps the map equal to the group sizes. */
  lemma TallyStep(rows: seq<Employee>, e: Employee, m: map<string, nat>)
    requires forall d :: d in m <==> HasDepartment(rows, d)
    requires forall d :: d in m ==> m[d] == |Members(rows, d)|
    ensures var m' := m[e.department := (if e.department in m then m[e.department] else 0) + 1];
            && (forall d :: d in m' <==> HasDepartment(rows + [e], d))
            && (forall d :: d in m' ==> m'[d] == |Members(rows + [e], d)|)
  {
    HasDepartmentSnoc(rows, e);
    MembersSnocAll(rows, e);
    MembersHasDepartment(rows, e.department);
  }

  /** groupingBy(department, counting()), built the way the collector accumulates it:
      one row at a time, starting a key at 1 or incrementing it. */
  function Tally(rows: seq<Employee>): (m: map<string, nat>)
    ensures forall d :: d in m <==> HasDepartment(rows, d)
    ensures forall d :: d in m ==> m[d] == |Members(rows, d)|
    decreases |rows|
  {
    if |rows| == 0 then map[]
    else
      var init := rows[..|rows| - 1];
      var last := rows[|rows| - 1];
      assert rows == init + [last];
      var m := Tally(init);
      TallyStep(init, last, m);
      m[last.department := (if last.department in m then m[last.department] else 0) + 1]
  }

  /** Every count in the map is at least one. */
  lemma TallyPositive(rows: seq<Employee>, d: string)
    requires HasDepartment(rows, d)
    ensures d in Tally(rows) && Tally(rows)[d] >= 1
  {
    MembersNonEmpty(rows, d);
  }
}
