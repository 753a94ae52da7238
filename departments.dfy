/**
 * The department rules: only the service's own company is served, a
 * department no must not clash with another department of the company, and
 * every failure leaves its message in the shared error field.
 */
module Departments {
  import opened Wrappers
  import opened Store
  import opened Uniqueness
  import opened Business

  const NOT_UNIQUE := "{\"error\": \"Department No is not unique!\"}"
  const NOT_FOUND := "{\"error\": \"Could not find the department!\"}"
  const NONE_LISTED := "{\"error\": \"There are no departments!\"}"
  const NOT_UPDATED := "{\"error\": \"Could not update the department!\"}"
  const NOT_CREATED := "{\"error\": \"Could not create the department!\"}"
  const NOT_DELETED := "{\"error\": \"Could not delete the department!\"}"

  /** The key the uniqueness scan reads from a department row. */
  function DepartmentKey(d: Department): Key {
    Key(d.no, d.id)
  }

  /** The fields of an update request. */
  datatype DepartmentUpdate = DepartmentUpdate(company: string, deptId: int, name: string, no: string, location: string)

  /**
   * A department whose no passes the create-time scan keeps the nos of its
   * company pairwise distinct once it is appended to the table.
   */
  lemma CreateKeepsDepartmentNosDistinct(ds: seq<Department>, d: Department)
    requires DistinctNos(KeysOf(DepartmentsOf(ds, d.company), DepartmentKey))
    requires PassesUniqueness(KeysOf(DepartmentsOf(ds, d.company), DepartmentKey), d.no, 0)
    ensures DistinctNos(KeysOf(DepartmentsOf(ds + [d], d.company), DepartmentKey))
  {
    var before := DepartmentsOf(ds, d.company);
    DepartmentsOfAppend(ds, d.company, d);
    var ks := KeysOf(before, DepartmentKey);
    CreateKeepsNosDistinct(ks, d.no, d.id);
    assert KeysOf(before + [d], DepartmentKey) == ks + [Key(d.no, d.id)];
  }

  /**
   * With departments "D1" (id 1) and "D2" (id 2) of the company, in that
   * order, renaming department 2 to "D1" gets past every check of
   * updateDepartment, and the stored nos are then no longer distinct.
   */
  lemma RenameOntoFirstRowAllowed(b: DepartmentBusiness, d1: string, d2: string)
    requires d1 == "D1" && d2 == "D2"
    requires b.base.dl.departments == [Department(1, USERNAME, "Sales", d1, "NY"), Department(2, USERNAME, "Support", d2, "NY")]
    ensures b.UpdateAllowed(DepartmentUpdate(USERNAME, 2, "Support", d1, "NY"))
    ensures var renamed := ReplaceDepartment(b.base.dl.departments, Department(2, USERNAME, "Support", d1, "NY"));
            !DistinctNos(KeysOf(DepartmentsOf(renamed, USERNAME), DepartmentKey))
  {
    var ds := b.base.dl.departments;
    assert ds[1] in ds;
    AllOfCompany(ds, USERNAME);
    var ks := KeysOf(ds, DepartmentKey);
    assert ks == [Key(d1, 1), Key(d2, 2)];
    FirstRowClashUndetected();
    var renamed := ReplaceDepartment(ds, Department(2, USERNAME, "Support", d1, "NY"));
    AllOfCompany(renamed, USERNAME);
    var rk := KeysOf(renamed, DepartmentKey);
    assert rk[0].no == rk[1].no;
  }

  /** Listing a company's departments keeps a table that holds only that company's rows as it is. */
  lemma {:induction false} AllOfCompany(ds: seq<Department>, c: string)
    requires forall i :: 0 <= i < |ds| ==> ds[i].company == c
    ensures DepartmentsOf(ds, c) == ds
  {
    if ds != [] {
      AllOfCompany(ds[1..], c);
    }
  }

  class DepartmentBusiness {
    const base: BusinessLayer

    ghost predicate Valid()
      reads base, base.dl
    {
      base.dl.Valid() && base.dl.company == USERNAME
    }

    constructor()
      ensures Valid() && fresh(base) && fresh(base.dl)
      ensures base.dl.departments == [] && base.dl.employees == [] && base.dl.timecards == []
      ensures base.GetJSONTemplate() == DEPARTMENT_TEMPLATE && base.GetErrorJson() == ERROR_JSON
    {
      base := new BusinessLayer(USERNAME, DEPARTMENT_TEMPLATE, ERROR_JSON);
    }

    /** The scan's verdict for `no` on department `id` (0 for a new one) among the company's departments. */
    function Unique(company: string, no: string, id: int): bool
      reads base.dl
      requires id != 0 ==> |base.dl.GetAllDepartment(company)| > 0
    {
      PassesUniqueness(KeysOf(base.dl.GetAllDepartment(company), DepartmentKey), no, id)
    }

    /** Whether updateDepartment gets past its checks. */
    function UpdateAllowed(u: DepartmentUpdate): bool
      reads base.dl
    {
      && u.company == USERNAME
      && base.dl.GetDepartment(u.company, u.deptId).Some?
      && Unique(u.company, u.no, u.deptId)
    }

    method CheckIsUniqueDepartmentNo(company: string, no: string, id: int) returns (unique: bool)
      requires id != 0 ==> |base.dl.GetAllDepartment(company)| > 0
      modifies base
      ensures unique == Unique(company, no, id)
      ensures base.errorJson == if unique then old(base.errorJson) else NOT_UNIQUE
    {
      var ks := KeysOf(base.dl.GetAllDepartment(company), DepartmentKey);
      var survivors := ks;
      if id != 0 {
        var index := ScanIndex(ks, no, id);
        survivors := RemoveAt(ks, index);
      }
      unique := forall k | k in survivors :: k.no != no;
      if !unique {
        base.SetErrorJson(NOT_UNIQUE);
      }
    }

    method GetDepartment(company: string, id: int) returns (d: Option<Department>)
      modifies base
      ensures !(company == USERNAME && id > 0) ==> d.None?
      ensures company == USERNAME && id > 0 ==>
                if d.Some? then d.value in base.dl.departments && d.value.company == company && d.value.id == id
                else forall x :: x in base.dl.departments ==> !(x.company == company && x.id == id)
      ensures base.errorJson == if company == USERNAME && id > 0 && d.None? then NOT_FOUND else old(base.errorJson)
    {
      if company == USERNAME && id > 0 {
        d := base.dl.GetDepartment(company, id);
        if d.None? {
          base.SetErrorJson(NOT_FOUND);
        }
        return;
      }
      d := None;
    }

    method GetDepartments(company: string) returns (ds: seq<Department>)
      modifies base
      ensures company != USERNAME ==> ds == []
      ensures company == USERNAME ==> ds == base.dl.GetAllDepartment(company)
      ensures forall x :: x in ds ==> x in base.dl.departments && x.company == USERNAME
      ensures base.errorJson == if company == USERNAME && ds == [] then NONE_LISTED else old(base.errorJson)
    {
      ds := [];
      if company == USERNAME {
        ds := base.dl.GetAllDepartment(company);
        if |ds| == 0 {
          base.SetErrorJson(NONE_LISTED);
        }
        return;
      }
    }

    method UpdateDepartment(u: DepartmentUpdate) returns (d: Option<Department>)
      requires Valid()
      modifies base, base.dl
      ensures Valid()
      ensures !old(UpdateAllowed(u)) ==>
                && d.None? && unchanged(base.dl)
                && base.errorJson == if u.company == USERNAME && old(base.dl.GetDepartment(u.company, u.deptId)).Some?
                                     then NOT_UNIQUE else old(base.errorJson)
      ensures old(UpdateAllowed(u)) && d.Some? ==>
                && d.value == old(base.dl.GetDepartment(u.company, u.deptId)).value.(
                                company := u.company, name := u.name, no := u.no, location := u.location)
                && d.value.id == u.deptId
                && base.dl.departments == ReplaceDepartment(old(base.dl.departments), d.value)
                && base.dl.employees == old(base.dl.employees) && base.dl.timecards == old(base.dl.timecards)
                && base.errorJson == old(base.errorJson)
      ensures old(UpdateAllowed(u)) && d.None? ==> unchanged(base.dl) && base.errorJson == NOT_UPDATED
    {
      var ok := u.company == USERNAME && base.dl.GetDepartment(u.company, u.deptId).Some?;
      if ok {
        ok := CheckIsUniqueDepartmentNo(u.company, u.no, u.deptId);
      }
      if !ok {
        return None;
      }
      var current := base.dl.GetDepartment(u.company, u.deptId).value;
      var changed := current.(company := u.company, name := u.name, no := u.no, location := u.location);
      d := base.dl.UpdateDepartment(changed);
      if d.None? {
        base.SetErrorJson(NOT_UPDATED);
      }
    }

    method CreateDepartment(company: string, name: string, no: string, location: string) returns (d: Option<Department>)
      requires Valid()
      modifies base, base.dl
      ensures Valid()
      ensures !(company == USERNAME && old(Unique(company, no, 0))) ==>
                && d.None? && unchanged(base.dl)
                && base.errorJson == if company == USERNAME then NOT_UNIQUE else old(base.errorJson)
      ensures company == USERNAME && old(Unique(company, no, 0)) && d.Some? ==>
                && d.value == Department(old(base.dl.nextId), company, name, no, location)
                && base.dl.departments == old(base.dl.departments) + [d.value]
                && base.dl.employees == old(base.dl.employees) && base.dl.timecards == old(base.dl.timecards)
                && base.errorJson == old(base.errorJson)
      ensures company == USERNAME && old(Unique(company, no, 0)) && d.None? ==>
                unchanged(base.dl) && base.errorJson == NOT_CREATED
      ensures old(DistinctNos(KeysOf(base.dl.GetAllDepartment(company), DepartmentKey))) ==> DistinctNos(KeysOf(base.dl.GetAllDepartment(company), DepartmentKey))
    {
      var ok := company == USERNAME;
      if ok {
        ok := CheckIsUniqueDepartmentNo(company, no, 0);
      }
      if !ok {
        return None;
      }
      var created := Department(0, company, name, no, location);
      ghost var before := base.dl.departments;
      d := base.dl.InsertDepartment(created);
      if d.None? {
        base.SetErrorJson(NOT_CREATED);
      } else {
        if DistinctNos(KeysOf(DepartmentsOf(before, company), DepartmentKey)) {
          CreateKeepsDepartmentNosDistinct(before, d.value);
        }
      }
    }

    method DeleteDepartment(company: string, id: int) returns (affected: int)
      requires Valid()
      modifies base, base.dl
      ensures Valid()
      ensures !(company == USERNAME && old(base.dl.GetDepartment(company, id)).Some?) ==>
                affected == 0 && unchanged(base.dl) && base.errorJson == NOT_DELETED
      ensures company == USERNAME && old(base.dl.GetDepartment(company, id)).Some? ==>
                if affected == 1 then
                  && base.dl.departments == WithoutDepartment(old(base.dl.departments), company, id)
                  && base.dl.employees == old(base.dl.employees) && base.dl.timecards == old(base.dl.timecards)
                  && base.errorJson == old(base.errorJson)
                else
                  affected == 0 && unchanged(base.dl) && base.errorJson == NOT_DELETED
    {
      var d := base.dl.GetDepartment(company, id);
      if company == USERNAME && d.Some? {
        affected := base.dl.DeleteDepartment(company, id);
        if affected == 0 {
          base.SetErrorJson(NOT_DELETED);
        }
        return;
      }
      base.SetErrorJson(NOT_DELETED);
      affected := 0;
    }
  }
}
