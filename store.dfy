/**
 * The records of the service and an in-memory stand-in for the data-access
 * class the business layer calls (companydata.DataLayer is not part of this
 * model). The stand-in assumes:
 *  - one store per company, as `new DataLayer(company)` opens it: employees
 *    and timecards belong to the store's company, departments carry their
 *    own company column;
 *  - each table is a sequence in stored order, and a list query returns the
 *    matching rows in that order;
 *  - a lookup by id returns the row with that id, or None for null;
 *  - an insert stores the row under a fresh positive id and returns it; an
 *    update replaces the row with the record's id; a delete removes the row
 *    and reports 1 affected row;
 *  - any write may be refused (a database error): the store is then left
 *    unchanged and the write returns None, or 0 affected rows.
 */
module Store {
  import opened Wrappers

  datatype Department = Department(id: int, company: string, name: string, no: string, location: string)

  /** The salary is a Java double; it is carried along and never computed with. */
  datatype Employee = Employee(id: int, name: string, no: string, hireDate: int, job: string,
                               salary: real, deptId: int, mngId: int)

  datatype Timecard = Timecard(id: int, startTime: int, endTime: int, empId: int)

  /** The elements of s that satisfy keep, in their order in s. */
  function Filter<T(!new)>(s: seq<T>, keep: T -> bool): (r: seq<T>)
    ensures forall x :: x in r <==> x in s && keep(x)
    ensures |r| <= |s|
  {
    if s == [] then []
    else (if keep(s[0]) then [s[0]] else []) + Filter(s[1..], keep)
  }

  /** The first element of s that satisfies found, if any. */
  function Find<T(!new)>(s: seq<T>, found: T -> bool): (r: Option<T>)
    ensures r.Some? ==> r.value in s && found(r.value)
    ensures r.None? <==> forall x :: x in s ==> !found(x)
  {
    if s == [] then None
    else if found(s[0]) then Some(s[0])
    else Find(s[1..], found)
  }

  /** Filtering keeps keys distinct: it only drops elements. */
  lemma FilterDistinct<T(!new)>(s: seq<T>, keep: T -> bool, key: T -> int)
    requires forall i, j :: 0 <= i < j < |s| ==> key(s[i]) != key(s[j])
    ensures forall i, j :: 0 <= i < j < |Filter(s, keep)| ==> key(Filter(s, keep)[i]) != key(Filter(s, keep)[j])
  {
    if s != [] {
      var t := s[1..];
      FilterDistinct(t, keep, key);
      forall x | x in Filter(t, keep)
        ensures key(x) != key(s[0])
      {
        var k :| 0 <= k < |t| && t[k] == x;
        assert s[k + 1] == x;
      }
    }
  }

  /** Filtering a sequence extended by one element filters the element on its own. */
  lemma {:induction false} FilterAppend<T(!new)>(s: seq<T>, keep: T -> bool, x: T)
    ensures Filter(s + [x], keep) == Filter(s, keep) + (if keep(x) then [x] else [])
  {
    if s != [] {
      assert (s + [x])[1..] == s[1..] + [x];
      FilterAppend(s[1..], keep, x);
    } else {
      assert [x][1..] == [];
    }
  }

  /** The departments of one company, in stored order. */
  function DepartmentsOf(ds: seq<Department>, company: string): (r: seq<Department>)
    ensures forall d :: d in r <==> d in ds && d.company == company
  {
    Filter(ds, (d: Department) => d.company == company)
  }

  /** A department appended to the table is listed last for its own company. */
  lemma DepartmentsOfAppend(ds: seq<Department>, company: string, d: Department)
    ensures DepartmentsOf(ds + [d], company) == DepartmentsOf(ds, company) + (if d.company == company then [d] else [])
  {
    FilterAppend(ds, (x: Department) => x.company == company, d);
  }

  /** The timecards of one employee, in stored order. */
  function TimecardsOf(ts: seq<Timecard>, empId: int): (r: seq<Timecard>)
    ensures forall t :: t in r <==> t in ts && t.empId == empId
  {
    Filter(ts, (t: Timecard) => t.empId == empId)
  }

  /** s with every element that satisfies hit replaced by x. */
  function ReplaceWhere<T>(s: seq<T>, hit: T -> bool, x: T): (r: seq<T>)
    ensures |r| == |s|
    ensures forall i :: 0 <= i < |s| ==> r[i] == if hit(s[i]) then x else s[i]
  {
    seq(|s|, i requires 0 <= i < |s| => if hit(s[i]) then x else s[i])
  }

  /** The departments with d's id replaced by d. */
  function ReplaceDepartment(ds: seq<Department>, d: Department): (r: seq<Department>)
    ensures |r| == |ds|
    ensures forall i :: 0 <= i < |ds| ==> r[i] == if ds[i].id == d.id then d else ds[i]
  {
    ReplaceWhere(ds, (x: Department) => x.id == d.id, d)
  }

  function ReplaceEmployee(es: seq<Employee>, e: Employee): (r: seq<Employee>)
    ensures |r| == |es|
    ensures forall i :: 0 <= i < |es| ==> r[i] == if es[i].id == e.id then e else es[i]
  {
    ReplaceWhere(es, (x: Employee) => x.id == e.id, e)
  }

  function ReplaceTimecard(ts: seq<Timecard>, t: Timecard): (r: seq<Timecard>)
    ensures |r| == |ts|
    ensures forall i :: 0 <= i < |ts| ==> r[i] == if ts[i].id == t.id then t else ts[i]
  {
    ReplaceWhere(ts, (x: Timecard) => x.id == t.id, t)
  }

  /** The departments without the one of company c with the given id. */
  function WithoutDepartment(ds: seq<Department>, c: string, id: int): (r: seq<Department>)
    ensures forall x :: x in r <==> x in ds && !(x.company == c && x.id == id)
  {
    Filter(ds, (x: Department) => !(x.company == c && x.id == id))
  }

  function WithoutEmployee(es: seq<Employee>, id: int): (r: seq<Employee>)
    ensures forall x :: x in r <==> x in es && x.id != id
  {
    Filter(es, (x: Employee) => x.id != id)
  }

  function WithoutTimecard(ts: seq<Timecard>, id: int): (r: seq<Timecard>)
    ensures forall x :: x in r <==> x in ts && x.id != id
  {
    Filter(ts, (x: Timecard) => x.id != id)
  }

  class DataLayer {
    const company: string
    var departments: seq<Department>
    var employees: seq<Employee>
    var timecards: seq<Timecard>
    /** The id the next insert hands out. */
    var nextId: int

    /** Every id is positive, below nextId and unique within its table. */
    ghost predicate Valid()
      reads this
    {
      && nextId >= 1
      && (forall d :: d in departments ==> 0 < d.id < nextId)
      && (forall i, j :: 0 <= i < j < |departments| ==> departments[i].id != departments[j].id)
      && (forall e :: e in employees ==> 0 < e.id < nextId)
      && (forall i, j :: 0 <= i < j < |employees| ==> employees[i].id != employees[j].id)
      && (forall t :: t in timecards ==> 0 < t.id < nextId)
      && (forall i, j :: 0 <= i < j < |timecards| ==> timecards[i].id != timecards[j].id)
    }

    constructor(company: string)
      ensures this.company == company && Valid()
      ensures departments == [] && employees == [] && timecards == []
    {
      this.company := company;
      departments, employees, timecards := [], [], [];
      nextId := 1;
    }

    // ----- departments -----

    /** Every department of company c, in stored order. */
    function GetAllDepartment(c: string): (r: seq<Department>)
      reads this
      ensures forall d :: d in r <==> d in departments && d.company == c
      ensures |r| <= |departments|
    {
      DepartmentsOf(departments, c)
    }

    /** The department of company c with the given id, or None when there is none. */
    function GetDepartment(c: string, id: int): (r: Option<Department>)
      reads this
      ensures r.Some? ==> r.value in departments && r.value.company == c && r.value.id == id
      ensures r.None? <==> forall d :: d in departments ==> !(d.company == c && d.id == id)
    {
      Find(departments, (d: Department) => d.company == c && d.id == id)
    }

    method InsertDepartment(d: Department) returns (r: Option<Department>)
      requires Valid()
      modifies this
      ensures Valid()
      ensures r.Some? ==> && r.value == d.(id := old(nextId))
                          && departments == old(departments) + [r.value]
                          && nextId == old(nextId) + 1
                          && employees == old(employees) && timecards == old(timecards)
      ensures r.None? ==> unchanged(this)
    {
      if * {
        r := None;
      } else {
        r := Some(d.(id := nextId));
        departments := departments + [r.value];
        nextId := nextId + 1;
      }
    }

    method UpdateDepartment(d: Department) returns (r: Option<Department>)
      requires Valid()
      modifies this
      ensures Valid()
      ensures r.Some? ==> && r == Some(d)
                          && (exists x :: x in old(departments) && x.id == d.id)
                          && departments == ReplaceDepartment(old(departments), d)
                          && employees == old(employees) && timecards == old(timecards)
                          && nextId == old(nextId)
      ensures r.None? ==> unchanged(this)
    {
      var row := Find(departments, (x: Department) => x.id == d.id);
      if row.None? {
        r := None;
      } else if * {
        r := None;
      } else {
        departments := ReplaceDepartment(departments, d);
        r := Some(d);
      }
    }

    method DeleteDepartment(c: string, id: int) returns (affected: int)
      requires Valid()
      modifies this
      ensures Valid()
      ensures affected == 0 || affected == 1
      ensures affected == 1 ==> && old(GetDepartment(c, id)).Some?
                                && departments == WithoutDepartment(old(departments), c, id)
                                && employees == old(employees) && timecards == old(timecards)
                                && nextId == old(nextId)
      ensures affected == 0 ==> unchanged(this)
    {
      if GetDepartment(c, id).None? {
        affected := 0;
      } else if * {
        affected := 0;
      } else {
        FilterDistinct(departments, (x: Department) => !(x.company == c && x.id == id), (x: Department) => x.id);
        departments := WithoutDepartment(departments, c, id);
        affected := 1;
      }
    }

    // ----- employees -----

    /** Every employee of company c: the whole table for the store's own company, none for any other. */
    function GetAllEmployee(c: string): (r: seq<Employee>)
      reads this
      ensures forall e :: e in r <==> c == company && e in employees
      ensures c == company ==> r == employees
    {
      if c == company then employees else []
    }

    /** The employee with the given id, or None when there is none. */
    function GetEmployee(id: int): (r: Option<Employee>)
      reads this
      ensures r.Some? ==> r.value in employees && r.value.id == id
      ensures r.None? <==> forall e :: e in employees ==> e.id != id
    {
      Find(employees, (e: Employee) => e.id == id)
    }

    method InsertEmployee(e: Employee) returns (r: Option<Employee>)
      requires Valid()
      modifies this
      ensures Valid()
      ensures r.Some? ==> && r.value == e.(id := old(nextId))
                          && employees == old(employees) + [r.value]
                          && nextId == old(nextId) + 1
                          && departments == old(departments) && timecards == old(timecards)
      ensures r.None? ==> unchanged(this)
    {
      if * {
        r := None;
      } else {
        r := Some(e.(id := nextId));
        employees := employees + [r.value];
        nextId := nextId + 1;
      }
    }

    method UpdateEmployee(e: Employee) returns (r: Option<Employee>)
      requires Valid()
      modifies this
      ensures Valid()
      ensures r.Some? ==> && r == Some(e)
                          && (exists x :: x in old(employees) && x.id == e.id)
                          && employees == ReplaceEmployee(old(employees), e)
                          && departments == old(departments) && timecards == old(timecards)
                          && nextId == old(nextId)
      ensures r.None? ==> unchanged(this)
    {
      var row := Find(employees, (x: Employee) => x.id == e.id);
      if row.None? {
        r := None;
      } else if * {
        r := None;
      } else {
        employees := ReplaceEmployee(employees, e);
        r := Some(e);
      }
    }

    method DeleteEmployee(id: int) returns (affected: int)
      requires Valid()
      modifies this
      ensures Valid()
      ensures affected == 0 || affected == 1
      ensures affected == 1 ==> && old(GetEmployee(id)).Some?
                                && employees == WithoutEmployee(old(employees), id)
                                && departments == old(departments) && timecards == old(timecards)
                                && nextId == old(nextId)
      ensures affected == 0 ==> unchanged(this)
    {
      if GetEmployee(id).None? {
        affected := 0;
      } else if * {
        affected := 0;
      } else {
        FilterDistinct(employees, (x: Employee) => x.id != id, (x: Employee) => x.id);
        employees := WithoutEmployee(employees, id);
        affected := 1;
      }
    }

    // ----- timecards -----

    /** Every timecard of employee empId, in stored order. */
    function GetAllTimecard(empId: int): (r: seq<Timecard>)
      reads this
      ensures forall t :: t in r <==> t in timecards && t.empId == empId
      ensures |r| <= |timecards|
    {
      TimecardsOf(timecards, empId)
    }

    /** The timecard with the given id, or None when there is none. */
    function GetTimecard(id: int): (r: Option<Timecard>)
      reads this
      ensures r.Some? ==> r.value in timecards && r.value.id == id
      ensures r.None? <==> forall t :: t in timecards ==> t.id != id
    {
      Find(timecards, (t: Timecard) => t.id == id)
    }

    method InsertTimecard(t: Timecard) returns (r: Option<Timecard>)
      requires Valid()
      modifies this
      ensures Valid()
      ensures r.Some? ==> && r.value == t.(id := old(nextId))
                          && timecards == old(timecards) + [r.value]
                          && nextId == old(nextId) + 1
                          && departments == old(departments) && employees == old(employees)
      ensures r.None? ==> unchanged(this)
    {
      if * {
        r := None;
      } else {
        r := Some(t.(id := nextId));
        timecards := timecards + [r.value];
        nextId := nextId + 1;
      }
    }

    method UpdateTimecard(t: Timecard) returns (r: Option<Timecard>)
      requires Valid()
      modifies this
      ensures Valid()
      ensures r.Some? ==> && r == Some(t)
                          && (exists x :: x in old(timecards) && x.id == t.id)
                          && timecards == ReplaceTimecard(old(timecards), t)
                          && departments == old(departments) && employees == old(employees)
                          && nextId == old(nextId)
      ensures r.None? ==> unchanged(this)
    {
      var row := Find(timecards, (x: Timecard) => x.id == t.id);
      if row.None? {
        r := None;
      } else if * {
        r := None;
      } else {
        timecards := ReplaceTimecard(timecards, t);
        r := Some(t);
      }
    }

    method DeleteTimecard(id: int) returns (affected: int)
      requires Valid()
      modifies this
      ensures Valid()
      ensures affected == 0 || affected == 1
      ensures affected == 1 ==> && old(GetTimecard(id)).Some?
                                && timecards == WithoutTimecard(old(timecards), id)
                                && departments == old(departments) && employees == old(employees)
                                && nextId == old(nextId)
      ensures affected == 0 ==> unchanged(this)
    {
      if GetTimecard(id).None? {
        affected := 0;
      } else if * {
        affected := 0;
      } else {
        FilterDistinct(timecards, (x: Timecard) => x.id != id, (x: Timecard) => x.id);
        timecards := WithoutTimecard(timecards, id);
        affected := 1;
      }
    }
  }
}
