/**
 * The employee rules: an employee needs an existing department of the
 * company, a hire date that is a past or present weekday, an existing
 * manager (except for the company's first employee, whose manager id is
 * forced to 0), and an employee no that no other employee of the company
 * holds. Dates go through a fresh, lenient "yyyy-MM-dd" validator.
 */
module Employees {
  import opened Wrappers
  import opened DateFormat
  import opened DateValidation
  import opened Store
  import opened Uniqueness
  import opened Business

  const MANAGER_MISSING := "{\"error\": \"Manager does not exist!\"}"
  const NO_EXISTS := "{\"error\": \"Employee No already exists!\"}"
  const NOT_FOUND := "{\"error\": \"Could not find the employee!\"}"
  const NONE_LISTED := "{\"error\": \"There are no employees!\"}"
  const NOT_CREATED := "{\"error\": \"Could not create employee!\"}"
  const NOT_UPDATED := "{\"error\": \"Could not update the employee!\"}"
  const HIRE_DATE_ERROR := "{\"error\": \"Error with the hire date!\"}"
  const NOT_DELETED := "{\"error\": \"Could not delete the employee!\"}"

  /** The key the uniqueness scan reads from an employee row. */
  function EmployeeKey(e: Employee): Key {
    Key(e.no, e.id)
  }

  /** The hire-date check as createEmployee and updateEmployee run it: on a fresh, lenient validator. */
  function HireDateOk(hireDate: string, now: int): bool {
    HireDateAccepted(DatePattern, true, hireDate, now)
  }

  /** The fields of an update request. */
  datatype EmployeeUpdate = EmployeeUpdate(company: string, empId: int, name: string, no: string, hireDate: string,
                                           job: string, salary: real, deptId: int, mngId: int)

  class EmployeeBusiness {
    const base: BusinessLayer

    ghost predicate Valid()
      reads base, base.dl
    {
      base.dl.Valid() && base.dl.company == USERNAME
    }

    constructor()
      ensures Valid() && fresh(base) && fresh(base.dl)
      ensures base.dl.departments == [] && base.dl.employees == [] && base.dl.timecards == []
      ensures base.GetJSONTemplate() == EMPLOYEE_TEMPLATE && base.GetErrorJson() == ERROR_JSON
    {
      base := new BusinessLayer(USERNAME, EMPLOYEE_TEMPLATE, ERROR_JSON);
    }

    /** The store is opened for one company: only that company can have employees. */
    function CheckIsFirstEmployee(company: string): (first: bool)
      reads base.dl
      ensures first <==> company != base.dl.company || base.dl.employees == []
    {
      |base.dl.GetAllEmployee(company)| == 0
    }

    function CheckIsExistingEmployee(company: string, id: int): (found: bool)
      reads base.dl
      ensures found <==> company == base.dl.company && exists e :: e in base.dl.employees && e.id == id
    {
      Find(base.dl.GetAllEmployee(company), (e: Employee) => e.id == id).Some?
    }

    /** The scan's verdict for `no` on employee `id` (0 for a new one) among the company's employees. */
    function Unique(company: string, no: string, id: int): bool
      reads base.dl
      requires id != 0 ==> |base.dl.GetAllEmployee(company)| > 0
    {
      PassesUniqueness(KeysOf(base.dl.GetAllEmployee(company), EmployeeKey), no, id)
    }

    /** The manager id that is stored: 0 for the company's first employee, the requested one otherwise. */
    function EffectiveManager(company: string, mngId: int): int
      reads base.dl
    {
      if CheckIsFirstEmployee(company) then 0 else mngId
    }

    function ManagerOk(company: string, mngId: int): bool
      reads base.dl
    {
      var mng := EffectiveManager(company, mngId);
      mng == 0 || CheckIsExistingEmployee(company, mng)
    }

    /** Whether createEmployee gets past its first group of checks. */
    function CreateChecked(company: string, deptId: int, hireDate: string, now: int): bool
      reads base.dl
    {
      company == USERNAME && base.dl.GetDepartment(company, deptId).Some? && HireDateOk(hireDate, now)
    }

    /** Whether updateEmployee gets past its first group of checks. */
    function UpdateChecked(u: EmployeeUpdate, now: int): bool
      reads base.dl
    {
      && u.company == USERNAME
      && base.dl.GetEmployee(u.empId).Some?
      && base.dl.GetDepartment(u.company, u.deptId).Some?
      && HireDateOk(u.hireDate, now)
    }

    /**
     * The manager steps of createEmployee and updateEmployee: the company's
     * first employee gets manager 0; any other non-zero manager must be an
     * employee of the company.
     */
    method ResolveManager(company: string, mngId: int) returns (managementId: int, found: bool)
      ensures managementId == EffectiveManager(company, mngId)
      ensures found == ManagerOk(company, mngId)
    {
      managementId := mngId;
      if CheckIsFirstEmployee(company) {
        managementId := 0;
      }
      found := managementId == 0 || CheckIsExistingEmployee(company, managementId);
    }

    method CheckIsUniqueEmployeeNo(company: string, no: string, id: int) returns (unique: bool)
      requires id != 0 ==> |base.dl.GetAllEmployee(company)| > 0
      ensures unique == PassesUniqueness(KeysOf(base.dl.GetAllEmployee(company), EmployeeKey), no, id)
    {
      var ks := KeysOf(base.dl.GetAllEmployee(company), EmployeeKey);
      var survivors := ks;
      if id != 0 {
        var index := ScanIndex(ks, no, id);
        survivors := RemoveAt(ks, index);
      }
      unique := forall k | k in survivors :: k.no != no;
    }

    method GetEmployee(company: string, id: int) returns (e: Option<Employee>)
      modifies base
      ensures !(company == USERNAME && id > 0) ==> e.None?
      ensures company == USERNAME && id > 0 ==>
                if e.Some? then e.value in base.dl.employees && e.value.id == id
                else forall x :: x in base.dl.employees ==> x.id != id
      ensures base.errorJson == if company == USERNAME && id > 0 && e.None? then NOT_FOUND else old(base.errorJson)
    {
      if company == USERNAME && id > 0 {
        e := base.dl.GetEmployee(id);
        if e.None? {
          base.SetErrorJson(NOT_FOUND);
        }
        return;
      }
      e := None;
    }

    method GetEmployees(company: string) returns (es: seq<Employee>)
      requires Valid()
      modifies base
      ensures company != USERNAME ==> es == []
      ensures company == USERNAME ==> es == base.dl.employees
      ensures base.errorJson == if company == USERNAME && es == [] then NONE_LISTED else old(base.errorJson)
    {
      es := [];
      if company == USERNAME {
        es := base.dl.GetAllEmployee(company);
        if |es| == 0 {
          base.SetErrorJson(NONE_LISTED);
        }
        return;
      }
    }

    method CreateEmployee(company: string, name: string, no: string, hireDate: string, job: string, salary: real,
                          deptId: int, mngId: int, now: int) returns (e: Option<Employee>)
      requires Valid()
      modifies base, base.dl
      ensures Valid()
      ensures !old(CreateChecked(company, deptId, hireDate, now)) ==>
                && e.None? && unchanged(base.dl)
                && base.errorJson == if !HireDateOk(hireDate, now) then HIRE_DATE_ERROR else old(base.errorJson)
      ensures old(CreateChecked(company, deptId, hireDate, now) && !ManagerOk(company, mngId)) ==>
                e.None? && unchanged(base.dl) && base.errorJson == MANAGER_MISSING
      ensures old(CreateChecked(company, deptId, hireDate, now) && ManagerOk(company, mngId) && !Unique(company, no, 0)) ==>
                e.None? && unchanged(base.dl) && base.errorJson == NO_EXISTS
      ensures old(CreateChecked(company, deptId, hireDate, now) && ManagerOk(company, mngId) && Unique(company, no, 0)) ==>
                if e.Some? then
                  && Parse(DatePattern, true, hireDate) == Some(e.value.hireDate)
                  && e.value == Employee(old(base.dl.nextId), name, no, e.value.hireDate, job, salary, deptId,
                                         old(EffectiveManager(company, mngId)))
                  && base.dl.employees == old(base.dl.employees) + [e.value]
                  && base.dl.departments == old(base.dl.departments) && base.dl.timecards == old(base.dl.timecards)
                  && base.errorJson == old(base.errorJson)
                else
                  unchanged(base.dl) && base.errorJson == NOT_CREATED
      ensures e.Some? && old(base.dl.employees) == [] ==> e.value.mngId == 0
    {
      var dv := new DateValidator(DatePattern);
      var ok := company == USERNAME && base.dl.GetDepartment(company, deptId).Some?;
      if ok {
        ok := dv.CheckHireDate(hireDate, now);
      }
      if ok {
        var managementId, found := ResolveManager(company, mngId);
        if !found {
          base.SetErrorJson(MANAGER_MISSING);
          return None;
        }
        var unique := CheckIsUniqueEmployeeNo(company, no, 0);
        if !unique {
          base.SetErrorJson(NO_EXISTS);
          return None;
        }
        var date := dv.StringToDate(hireDate);
        assert Parse(DatePattern, true, hireDate) == date;
        e := base.dl.InsertEmployee(Employee(0, name, no, date.value, job, salary, deptId, managementId));
        if e.None? {
          base.SetErrorJson(NOT_CREATED);
        }
        return;
      }
      var hireOk := dv.CheckHireDate(hireDate, now);
      if !hireOk {
        base.SetErrorJson(HIRE_DATE_ERROR);
      }
      e := None;
    }

    method UpdateEmployee(u: EmployeeUpdate, now: int) returns (e: Option<Employee>)
      requires Valid()
      modifies base, base.dl
      ensures Valid()
      ensures !old(UpdateChecked(u, now)) ==>
                && e.None? && unchanged(base.dl)
                && base.errorJson == if !HireDateOk(u.hireDate, now) then HIRE_DATE_ERROR else old(base.errorJson)
      ensures old(UpdateChecked(u, now) && !ManagerOk(u.company, u.mngId)) ==>
                e.None? && unchanged(base.dl) && base.errorJson == MANAGER_MISSING
      ensures old(UpdateChecked(u, now) && ManagerOk(u.company, u.mngId) && !Unique(u.company, u.no, u.empId)) ==>
                e.None? && unchanged(base.dl) && base.errorJson == NO_EXISTS
      ensures old(UpdateChecked(u, now) && ManagerOk(u.company, u.mngId) && Unique(u.company, u.no, u.empId)) ==>
                if e.Some? then
                  && Parse(DatePattern, true, u.hireDate) == Some(e.value.hireDate)
                  && e.value == old(base.dl.GetEmployee(u.empId)).value.(
                                  name := u.name, no := u.no, hireDate := e.value.hireDate, job := u.job,
                                  salary := u.salary, deptId := u.deptId, mngId := u.mngId)
                  && e.value.id == u.empId
                  && base.dl.employees == ReplaceEmployee(old(base.dl.employees), e.value)
                  && base.dl.departments == old(base.dl.departments) && base.dl.timecards == old(base.dl.timecards)
                  && base.errorJson == old(base.errorJson)
                else
                  unchanged(base.dl) && base.errorJson == NOT_UPDATED
    {
      var dv := new DateValidator(DatePattern);
      var ok := u.company == USERNAME && base.dl.GetEmployee(u.empId).Some?
                && base.dl.GetDepartment(u.company, u.deptId).Some?;
      if ok {
        ok := dv.CheckHireDate(u.hireDate, now);
      }
      if ok {
        e := UpdateExistingEmployee(u, dv);
        return;
      }
      var hireOk := dv.CheckHireDate(u.hireDate, now);
      if !hireOk {
        base.SetErrorJson(HIRE_DATE_ERROR);
      }
      e := None;
    }

    /** updateEmployee once company, employee, department and hire date have passed: manager, no, store. */
    method UpdateExistingEmployee(u: EmployeeUpdate, dv: DateValidator) returns (e: Option<Employee>)
      requires Valid() && u.company == USERNAME && base.dl.GetEmployee(u.empId).Some?
      requires dv.pattern == DatePattern && dv.lenient && Parse(DatePattern, true, u.hireDate).Some?
      modifies base, base.dl
      ensures Valid()
      ensures old(!ManagerOk(u.company, u.mngId)) ==>
                e.None? && unchanged(base.dl) && base.errorJson == MANAGER_MISSING
      ensures old(ManagerOk(u.company, u.mngId) && !Unique(u.company, u.no, u.empId)) ==>
                e.None? && unchanged(base.dl) && base.errorJson == NO_EXISTS
      ensures old(ManagerOk(u.company, u.mngId) && Unique(u.company, u.no, u.empId)) ==>
                if e.Some? then
                  && Parse(DatePattern, true, u.hireDate) == Some(e.value.hireDate)
                  && e.value == old(base.dl.GetEmployee(u.empId)).value.(
                                  name := u.name, no := u.no, hireDate := e.value.hireDate, job := u.job,
                                  salary := u.salary, deptId := u.deptId, mngId := u.mngId)
                  && e.value.id == u.empId
                  && base.dl.employees == ReplaceEmployee(old(base.dl.employees), e.value)
                  && base.dl.departments == old(base.dl.departments) && base.dl.timecards == old(base.dl.timecards)
                  && base.errorJson == old(base.errorJson)
                else
                  unchanged(base.dl) && base.errorJson == NOT_UPDATED
    {
      assert base.dl.GetEmployee(u.empId).value in base.dl.employees;
      var managementId, found := ResolveManager(u.company, u.mngId);
      if !found {
        base.SetErrorJson(MANAGER_MISSING);
        return None;
      }
      var unique := CheckIsUniqueEmployeeNo(u.company, u.no, u.empId);
      if !unique {
        base.SetErrorJson(NO_EXISTS);
        return None;
      }
      var date := dv.StringToDate(u.hireDate);
      e := StoreUpdatedEmployee(u, date.value, managementId);
    }

    /** The last step of updateEmployee: the fetched record, changed through its setters, goes back to the store. */
    method StoreUpdatedEmployee(u: EmployeeUpdate, hireDate: int, mngId: int) returns (e: Option<Employee>)
      requires Valid() && base.dl.GetEmployee(u.empId).Some?
      modifies base, base.dl
      ensures Valid()
      ensures if e.Some? then
                && e.value == old(base.dl.GetEmployee(u.empId)).value.(
                                name := u.name, no := u.no, hireDate := hireDate, job := u.job,
                                salary := u.salary, deptId := u.deptId, mngId := mngId)
                && e.value.id == u.empId
                && base.dl.employees == ReplaceEmployee(old(base.dl.employees), e.value)
                && base.dl.departments == old(base.dl.departments) && base.dl.timecards == old(base.dl.timecards)
                && base.errorJson == old(base.errorJson)
              else
                unchanged(base.dl) && base.errorJson == NOT_UPDATED
    {
      var current := base.dl.GetEmployee(u.empId).value;
      var changed := current.(name := u.name, no := u.no, hireDate := hireDate, job := u.job,
                              salary := u.salary, deptId := u.deptId, mngId := mngId);
      e := base.dl.UpdateEmployee(changed);
      if e.None? {
        base.SetErrorJson(NOT_UPDATED);
      }
    }

    method DeleteEmployee(company: string, id: int) returns (affected: int)
      requires Valid()
      modifies base, base.dl
      ensures Valid()
      ensures !(company == USERNAME && old(base.dl.GetEmployee(id)).Some?) ==>
                affected == 0 && unchanged(base.dl) && base.errorJson == NOT_DELETED
      ensures company == USERNAME && old(base.dl.GetEmployee(id)).Some? ==>
                if affected == 1 then
                  && base.dl.employees == WithoutEmployee(old(base.dl.employees), id)
                  && base.dl.departments == old(base.dl.departments) && base.dl.timecards == old(base.dl.timecards)
                  && base.errorJson == old(base.errorJson)
                else
                  affected == 0 && unchanged(base.dl) && base.errorJson == NOT_DELETED
    {
      var e := base.dl.GetEmployee(id);
      if company == USERNAME && e.Some? {
        affected := base.dl.DeleteEmployee(id);
        if affected == 0 {
          base.SetErrorJson(NOT_DELETED);
        }
        return;
      }
      base.SetErrorJson(NOT_DELETED);
      affected := 0;
    }
  }
}
