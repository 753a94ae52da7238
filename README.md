# CompanyServices business layer in Dafny

This project models the business layer of the CompanyServices timekeeping
service. The service keeps departments, employees and timecards for one
company, `xl4998`. Every operation decides four things:

- whether the request is allowed;
- what it returns (a record or nothing, a list, or an affected-row count);
- what it writes to the store;
- which error message it leaves in the shared `errorJson` field.

The model has these modules:

- `Business`: the shared state of every rule class. It holds the store, the
  JSON template and the mutable error message (`BusinessLayer`), plus the
  constants the classes use.
- `Departments`, `Employees`, `Timecards`: one class per Java rule class. Each
  has its operations as methods, whose contracts give:
  - the returned value;
  - the new store contents;
  - the exact message left behind, on every path.

  Java inheritance becomes composition: each class holds `const base:
  BusinessLayer`.
- `Uniqueness`: the "is this no unique" scan shared by departments and
  employees, as a function on (no, id) keys, the index loop that computes it,
  and lemmas about what the scan does and does not catch.
- `DateValidation`: the `DateValidator` class. Its `lenient` field is the
  leniency state of the underlying date format. The class comes with the
  hire-date and timestamp rules as functions, and lemmas that restate those
  rules field by field.
- `DateFormat` and `Calendar`: the two fixed patterns (`yyyy-MM-dd`,
  `yyyy-MM-dd HH:mm:ss`) and proleptic Gregorian arithmetic on local epoch
  milliseconds. They cover:
  - a fixed-width recognizer and a parser in strict and lenient mode;
  - a formatter;
  - day of week, and calendar fields of an instant.
- `Store`: the records and an in-memory stand-in for the data-access class
  `companydata.DataLayer`. That class is not part of this model. The
  stand-in's assumptions are stated at the top of `store.dfy`:
  - one store per company;
  - tables are sequences in stored order;
  - inserts get fresh positive ids;
  - any write may be refused, leaving the store unchanged.

The clock is a parameter `now`, in local epoch milliseconds with 86 400 000 ms
days.

Where the code and its comments or documentation disagree, the model follows
the code:

- Uniqueness scope. Employee nos are checked against the company's employees,
  not across all companies (`EmployeeBusiness.java:128` says otherwise).
- Which element the update scan removes. It removes the last element matching
  both no and id. When nothing matches, it removes the element at index 0.
- Which message a failing call leaves. Several messages can be written in
  sequence, and the last one written stays.

## Model

| member | source | states |
|---|---|---|
| Business.BusinessLayer.constructor | src/main/java/api/business/BusinessLayer.java:10-14 | The store is a fresh store opened for `company`. `GetJSONTemplate()` returns the template argument and `GetErrorJson()` the error argument. |
| Business.BusinessLayer.SetErrorJson | src/main/java/api/business/BusinessLayer.java:35-37 | Afterwards `GetErrorJson()` returns the argument, so the last write wins. The store is unchanged. The template is a constant field, so it cannot change. |
| Business.BusinessLayer.GetJSONTemplate | src/main/java/api/business/BusinessLayer.java:19-21 | Returns the template field. The field is a constant set by the constructor, so no operation changes it. |
| Business.BusinessLayer.GetErrorJson | src/main/java/api/business/BusinessLayer.java:26-28 | Returns the current message field: the constructor's argument until a failing operation overwrites it. |
| Store.DataLayer.constructor | src/main/java/api/business/BusinessLayer.java:11 | The stand-in store is opened for `company`. Its three tables are empty and the next id is valid. |
| Store.DataLayer.GetAllDepartment | src/main/java/api/business/DepartmentBusiness.java:23 | Lists exactly the stored departments whose company column is `c`, in stored order. It never has more rows than the table. |
| Store.DataLayer.GetDepartment | src/main/java/api/business/DepartmentBusiness.java:55 | A result is a stored department with that company and id. None (Java null) holds iff no stored department has both. |
| Store.DataLayer.GetAllEmployee | src/main/java/api/business/EmployeeBusiness.java:24 | The store's own company gets the whole employee table, in stored order. Any other company gets no rows. |
| Store.DataLayer.GetEmployee | src/main/java/api/business/EmployeeBusiness.java:78 | A result is a stored employee with that id. None holds iff no stored employee has it. |
| Store.DataLayer.GetAllTimecard | src/main/java/api/business/TimecardBusiness.java:52 | Lists exactly the stored timecards of the employee, in stored order. |
| Store.DataLayer.GetTimecard | src/main/java/api/business/TimecardBusiness.java:28 | A result is a stored timecard with that id. None holds iff no stored timecard has it. |
| Store.DataLayer.InsertDepartment | src/main/java/api/business/DepartmentBusiness.java:143 | The stand-in either refuses and changes nothing, or appends the department under the fresh id `nextId` and returns it. Other tables stay as they were and the ids stay valid. |
| Store.DataLayer.UpdateDepartment | src/main/java/api/business/DepartmentBusiness.java:115 | On success a row with the record's id existed, and that row is replaced. Otherwise nothing changes. |
| Store.DataLayer.DeleteDepartment | src/main/java/api/business/DepartmentBusiness.java:167 | The result is 0 or 1. A 1 means the company's department with that id existed and is now removed; every other row stays. A 0 means nothing changed. |
| Store.DataLayer.InsertEmployee | src/main/java/api/business/EmployeeBusiness.java:155 | The employee is appended under the fresh id, or nothing changes. |
| Store.DataLayer.UpdateEmployee | src/main/java/api/business/EmployeeBusiness.java:226 | The employee with the record's id is replaced, or nothing changes. |
| Store.DataLayer.DeleteEmployee | src/main/java/api/business/EmployeeBusiness.java:253 | The result is 0 or 1. A 1 means the employee existed and is now removed; a 0 means nothing changed. |
| Store.DataLayer.InsertTimecard | src/main/java/api/business/TimecardBusiness.java:88 | The timecard is appended under the fresh id, or nothing changes. |
| Store.DataLayer.UpdateTimecard | src/main/java/api/business/TimecardBusiness.java:140 | The timecard with the record's id is replaced, or nothing changes. |
| Store.DataLayer.DeleteTimecard | src/main/java/api/business/TimecardBusiness.java:176 | The result is 0 or 1. A 1 means the timecard existed and is now removed; a 0 means nothing changed. |
| Uniqueness.LastMatch | src/main/java/api/business/DepartmentBusiness.java:26-34 | When Key(no, id) occurs, the result is its last position. Otherwise the result is 0. |
| Uniqueness.RemoveAt | src/main/java/api/business/DepartmentBusiness.java:35 | The list loses exactly the element at the index. Earlier elements keep their positions and later ones move down by one. |
| Uniqueness.ScanIndex | src/main/java/api/business/EmployeeBusiness.java:53-61 | The index loop returns `LastMatch`: the last position that matches both no and id, or 0. |
| Uniqueness.PassesIff | src/main/java/api/business/DepartmentBusiness.java:26-39 | The check passes exactly when every position holds a different no, except the removed one. Nothing is removed on a create (id 0). |
| Uniqueness.OwnNoPasses | src/main/java/api/business/EmployeeBusiness.java:53-65 | Take ids that are unique and a row updated to the no it already has. Its own position is removed, and the check passes iff no other row has that no. |
| Uniqueness.OwnNoAlwaysPasses | src/main/java/api/business/EmployeeBusiness.java:53-65 | When nos are distinct as well, updating a row to its own no always passes. |
| Uniqueness.NewNoSkipsFirst | src/main/java/api/business/DepartmentBusiness.java:26-39 | An update to a new no removes index 0, whatever that row holds. The check then passes iff positions 1 and later all have a different no. |
| Uniqueness.FirstRowClashUndetected | src/main/java/api/business/DepartmentBusiness.java:26-39 | Take rows ("D1", 1) and ("D2", 2), whose nos are distinct. Renaming row 2 to "D1" passes the check and leaves two rows with no "D1". |
| Uniqueness.CreateKeepsNosDistinct | src/main/java/api/business/DepartmentBusiness.java:39 | Take keys with distinct nos and a create-time check that passes. The keys stay distinct once the new key is appended. |
| Departments.CreateKeepsDepartmentNosDistinct | src/main/java/api/business/DepartmentBusiness.java:136-143 | A department that passes the create check keeps its company's department nos pairwise distinct after it is appended. |
| Departments.RenameOntoFirstRowAllowed | src/main/java/api/business/DepartmentBusiness.java:96-115 | Take a store holding "D1" (id 1) and "D2" (id 2) of the company, in that order. Renaming department 2 to "D1" passes every check of updateDepartment, and the stored nos then clash. |
| Departments.DepartmentBusiness.constructor | src/main/java/api/business/DepartmentBusiness.java:11-13 | The store is empty and opened for `xl4998`. The template is the department template and the message is the generic error. |
| Departments.DepartmentBusiness.CheckIsUniqueDepartmentNo | src/main/java/api/business/DepartmentBusiness.java:22-43 | Gives the scan's verdict on the company's departments. A failure sets "Department No is not unique!"; a pass leaves the message alone. |
| Departments.DepartmentBusiness.GetDepartment | src/main/java/api/business/DepartmentBusiness.java:52-65 | A wrong company or id <= 0 gives None and leaves the message alone. Otherwise the result is the stored department with that company and id. None means there is no such row, and then the message is "Could not find the department!". |
| Departments.DepartmentBusiness.GetDepartments | src/main/java/api/business/DepartmentBusiness.java:73-88 | A wrong company gives [] with no message. Otherwise the result is the company's departments in stored order. An empty result sets "There are no departments!". |
| Departments.DepartmentBusiness.UpdateDepartment | src/main/java/api/business/DepartmentBusiness.java:96-125 | A wrong company or missing department gives None: the store and message are unchanged, and the scan never runs. A failed scan gives None with "Department No is not unique!". Success stores the fetched row with company, name, no and location replaced and the id kept. A refused write sets "Could not update the department!". |
| Departments.DepartmentBusiness.CreateDepartment | src/main/java/api/business/DepartmentBusiness.java:136-153 | Only `xl4998` with a no unused in the company inserts. A clash sets "Department No is not unique!" and a wrong company leaves the message. The inserted row has the fresh id and the given fields, and the company's nos stay pairwise distinct. A refused insert sets "Could not create the department!". |
| Departments.DepartmentBusiness.DeleteDepartment | src/main/java/api/business/DepartmentBusiness.java:162-178 | A wrong company or missing department gives 0 with "Could not delete the department!". Otherwise the result is the store's count. A 1 removes exactly that department; a 0 sets the same message. |
| Employees.EmployeeBusiness.constructor | src/main/java/api/business/EmployeeBusiness.java:13-15 | The store is empty and opened for `xl4998`, with the employee template and the generic error. |
| Employees.EmployeeBusiness.CheckIsFirstEmployee | src/main/java/api/business/EmployeeBusiness.java:23-27 | True iff the company has no employees: either it is not the store's company, or the employee table is empty. |
| Employees.EmployeeBusiness.CheckIsExistingEmployee | src/main/java/api/business/EmployeeBusiness.java:36-40 | True iff some employee of the company has the id. |
| Employees.EmployeeBusiness.ResolveManager | src/main/java/api/business/EmployeeBusiness.java:135-144 | Returns the manager id to store: 0 for the company's first employee, the requested one otherwise. Also returns whether that id is 0 or an existing employee of the company. |
| Employees.EmployeeBusiness.CheckIsUniqueEmployeeNo | src/main/java/api/business/EmployeeBusiness.java:49-66 | The scan's verdict on the company's employees. With a non-zero id, it removes the last element matching (no, id), or index 0 when none matches. It then checks that no remaining element has the no. |
| Employees.EmployeeBusiness.GetEmployee | src/main/java/api/business/EmployeeBusiness.java:75-88 | A wrong company or id <= 0 gives None without touching the message. Otherwise the result is the stored employee with that id. None means there is no such employee, and then the message is "Could not find the employee!". |
| Employees.EmployeeBusiness.GetEmployees | src/main/java/api/business/EmployeeBusiness.java:96-111 | A wrong company gives [] with no message. Otherwise the result is the employee table. An empty result sets "There are no employees!". |
| Employees.EmployeeBusiness.CreateEmployee | src/main/java/api/business/EmployeeBusiness.java:126-169 | Failure outcomes: <br>- A wrong company, missing department or failed hire date gives None and inserts nothing. The message is "Error with the hire date!" only if the hire date fails; otherwise it is unchanged. <br>- A missing effective manager gives "Manager does not exist!", and the no check never runs. <br>- A no already used in the company gives "Employee No already exists!". <br>Success inserts the fresh id, the lenient parse of the hire date, and the effective manager. So the company's first employee gets manager 0. A refused insert sets "Could not create employee!". |
| Employees.EmployeeBusiness.UpdateEmployee | src/main/java/api/business/EmployeeBusiness.java:176-239 | Success requires the right company, an existing employee and department, and a valid hire date. The failure message is the hire-date error or unchanged, as in create. Then the manager and no checks run, in that order, with their messages. Success overwrites name, no, hire date, job, salary, dept and mng of the stored record and keeps its id. A refused write sets "Could not update the employee!". |
| Employees.EmployeeBusiness.UpdateExistingEmployee | src/main/java/api/business/EmployeeBusiness.java:196-231 | The part of updateEmployee after the first checks: manager check, then no check, then the store, with the same outcomes as above. |
| Employees.EmployeeBusiness.StoreUpdatedEmployee | src/main/java/api/business/EmployeeBusiness.java:215-229 | The fetched record with the seven fields set goes back to the store. Its id is unchanged. A refused write sets "Could not update the employee!". |
| Employees.EmployeeBusiness.DeleteEmployee | src/main/java/api/business/EmployeeBusiness.java:248-264 | A wrong company or missing employee gives 0 with "Could not delete the employee!". Otherwise the result is the store's count. A 1 removes exactly that employee. |
| Timecards.TimecardBusiness.constructor | src/main/java/api/business/TimecardBusiness.java:14-16 | The store is empty and opened for `xl4998`, with the timecard template and the generic error. |
| Timecards.TimecardBusiness.GetTimecard | src/main/java/api/business/TimecardBusiness.java:25-38 | A wrong company or id <= 0 gives None without touching the message. Otherwise the result is the stored timecard with that id. None means there is no such timecard, and then the message is "Could not find timecard!". |
| Timecards.TimecardBusiness.GetTimecards | src/main/java/api/business/TimecardBusiness.java:47-62 | A wrong company or employee id <= 0 gives [] with no message. Otherwise the result is the employee's timecards in stored order. An empty result sets "There are no timecards!". |
| Timecards.TimecardBusiness.CreateTimecard | src/main/java/api/business/TimecardBusiness.java:75-106 | Only inserts when the company is right, the employee exists and the timestamps pass. The row holds the fresh id, the strict parses of start and end, and the employee id. On failure, the timestamp error overwrites the employee error. With only the company wrong, the message is unchanged. A refused insert sets "Could not create timecard!". |
| Timecards.TimecardBusiness.UpdateTimecard | src/main/java/api/business/TimecardBusiness.java:114-162 | Success requires the right company, an existing employee and timecard, and valid timestamps. It stores the timecard with the parsed start and end, the employee id and its own id. On failure, messages are written employee, then timecard, then timestamps, so the last failing check wins. A refused write sets "Could not update timecard!". |
| Timecards.TimecardBusiness.ApplyTimecardUpdate | src/main/java/api/business/TimecardBusiness.java:133-146 | The success path of updateTimecard: the fetched timecard gets the parsed instants, the employee id and its id, and is written back. |
| Timecards.TimecardBusiness.ParseAccepted | src/main/java/api/business/TimecardBusiness.java:85-86 | After validateTimestamps accepts the pair, stringToDate in non-lenient mode returns the strict parses of both strings. |
| Timecards.TimecardBusiness.ReportFailures | src/main/java/api/business/TimecardBusiness.java:149-159 | The message left is the timestamp error if the timestamps fail. Otherwise it is the timecard error if the timecard is missing, then the employee error if the employee is missing. Otherwise it is unchanged. |
| Timecards.TimecardBusiness.StoreNewTimecard | src/main/java/api/business/TimecardBusiness.java:87-94 | Appends the row under the fresh id. A refused insert sets "Could not create timecard!" and leaves the store unchanged. |
| Timecards.TimecardBusiness.StoreUpdatedTimecard | src/main/java/api/business/TimecardBusiness.java:140-144 | Replaces the timecard with the row's id. A refused write sets "Could not update timecard!". |
| Timecards.TimecardBusiness.DeleteTimecard | src/main/java/api/business/TimecardBusiness.java:171-187 | A wrong company or missing timecard gives 0 with "Could not delete timecard!". Otherwise the result is the store's affected count; a 1 removes exactly that timecard. |
| DateValidation.DateValidator.constructor | src/main/java/api/utils/DateValidator.java:15-17 | A new validator's format is lenient. |
| DateValidation.DateValidator.IsValid | src/main/java/api/utils/DateValidator.java:25-36 | Leaves the format non-lenient. Returns true iff the string has the pattern's shape and its fields are in range. |
| DateValidation.DateValidator.CheckHireDate | src/main/java/api/utils/DateValidator.java:45-70 | Returns the hire-date rule in the validator's current mode: the date parses, falls Monday to Friday (DAY_OF_WEEK 2..6), and is no later than today truncated to the day. |
| DateValidation.DateValidator.ValidateTimestamps | src/main/java/api/utils/DateValidator.java:81-124 | Leaves the format non-lenient. Returns the timestamp rule: both strings parse strictly, now minus one week <= start <= now (truncated to the second), end >= start + 3 600 000, and equal day of month and month. |
| DateValidation.DateValidator.StringToDate | src/main/java/api/utils/DateValidator.java:132-139 | Returns None exactly when the parse fails in the current mode. Otherwise it returns the instant of the written fields. |
| DateValidation.HireDateAccepted | src/main/java/api/utils/DateValidator.java:45-70 | An accepted hire date has the pattern's shape. In non-lenient mode its fields are in range. Its parse is no later than now. |
| DateValidation.TimestampsAccepted | src/main/java/api/utils/DateValidator.java:81-124 | Accepted timestamps both have the pattern's shape and in-range fields. The start lies after now minus one week minus one unit, and no later than now. |
| DateValidation.HireDateByDay | src/main/java/api/utils/DateValidator.java:45-69 | A shaped hire date is accepted iff three things hold: non-lenient mode has its fields in range; the rolled-over day is a weekday; that day is not after today. |
| DateValidation.TimestampsByFields | src/main/java/api/utils/DateValidator.java:81-113 | Two shaped timestamps are accepted iff both are in range, the start is in the week up to now, the end is at least an hour later, and the written day and month agree. |
| DateValidation.YearsNotCompared | src/main/java/api/utils/DateValidator.java:102-113 | The same day and time one year later is an accepted end, although it lies after now. Years are never compared and the end has no upper bound. |
| DateValidation.NextYearLater | src/main/java/api/utils/DateValidator.java:99-100 | The instant of the same date and time one year later is at least 365 days later. |
| DateValidation.HireDateRollsOver | src/main/java/api/utils/DateValidator.java:45-51 | A fresh, lenient validator parses "2024-02-30" as Friday 1 March 2024 and accepts it once that day has come. A non-lenient one rejects it. |
| DateValidation.OneHourMinimum | src/main/java/api/utils/DateValidator.java:100-113 | At 2024-01-10 09:00:00, a 09:00–10:00 timecard that day is accepted and a 09:00–09:30 one is rejected. |
| Calendar.LenientEpochDay | src/main/java/api/utils/DateValidator.java:51 | A lenient parse rolls an out-of-range month or day into the next ones. For months 1..12 it is the plain epoch day. |
| Calendar.DayOfWeek | src/main/java/api/utils/DateValidator.java:57-58 | DAY_OF_WEEK is in 1..7, and 1970-01-01 (epoch day 0) is a Thursday (5). |
| Calendar.CivilOf | src/main/java/api/utils/DateValidator.java:147-151 | The calendar fields of an epoch day form a valid date whose epoch day is that day. |
| Calendar.EpochDayInjective | src/main/java/api/utils/DateValidator.java:147-151 | Distinct valid dates have distinct epoch days. |
| Calendar.CivilOfEpochDay | src/main/java/api/utils/DateValidator.java:147-151 | The calendar fields of a valid date's epoch day are that date. |
| DateFormat.Recognize | src/main/java/api/utils/DateValidator.java:29 | Fields are read iff the string has the pattern's exact shape. A date has time fields 0. |
| DateFormat.Parse | src/main/java/api/utils/DateValidator.java:25-36 | A parse succeeds iff the string is shaped and, in non-lenient mode, its fields are in range. The value is the fields' local epoch millisecond. |
| DateFormat.FieldsOfInstant | src/main/java/api/utils/DateValidator.java:105-109 | The calendar day, month, year and time of a strictly parsed instant are the fields written in the string. |
| DateFormat.RecognizeFormat | src/main/java/api/utils/DateValidator.java:50 | Reading back a formatted string gives the fields it was printed from. |
| DateFormat.FormatThenParse | src/main/java/api/utils/DateValidator.java:89 | Parsing the formatted current time, in either mode, gives the current time truncated to the pattern's unit: midnight for dates, the second for timestamps. |

## Left out

- Time zone and daylight saving are not modelled. Instants are local epoch milliseconds with 86 400 000 ms days, and the calendar is proleptic Gregorian, with no Julian dates before 1582.
- The wall clock is not read. `now` is a parameter. The two calls to `checkHireDate` in createEmployee and updateEmployee see the same `now`, and so do the two calls to `validateTimestamps` in createTimecard and updateTimecard.
- SimpleDateFormat is modelled as a fixed-width recognizer for the two patterns. Fields with other digit counts, signs and trailing text are rejected here. Java accepts some of them.
- DateFormat.Parse: a non-lenient parse rejects year 0 and below. Years above 9999 are not formatted (`FourDigitYear`).
- Java `long` overflow of epoch milliseconds is not modelled; integers are unbounded.
- `salary` is a Java double. It is carried as a `real` and never computed with. The `%.2f` formatting and all JSON assembly with the templates are not modelled.
- The JAX-RS service classes, `ApplicationConfig` and Jackson parsing are not part of this model. Update requests are plain records instead of `JsonNode`.
- `CompanyBusiness.deleteAll` is not part of this model. It only forwards to `dl.deleteCompany`, whose cascade lives in the data layer.
- `companydata.DataLayer` is not part of this model. It is replaced by the in-memory stand-in in `store.dfy`. The stand-in can refuse any write (None or 0) but has no other failure modes and does no SQL.
- `printStackTrace` calls are not modelled.
- The business classes' constructors here state a fresh, empty store. The real store is a database that already holds rows.
- Departments.DepartmentBusiness.CheckIsUniqueDepartmentNo and Employees.EmployeeBusiness.CheckIsUniqueEmployeeNo require a non-empty list when the id is non-zero. In Java `remove(0)` on an empty list throws. The update paths that call the check have already found the row, so the list is never empty there.
- The uniqueness scan: Java calls `remove(index)` on the list it fetched and changes that list in place. The model works on the list's (no, id) keys and builds a new sequence with `RemoveAt` instead. The fetched list is a local variable that nothing else reads, so the verdict is the same.
- Helper methods: some Java methods are split into several Dafny methods with their own contracts, which keeps each proof small.
  - `UpdateExistingEmployee`, `StoreUpdatedEmployee` and `ResolveManager` are parts of updateEmployee and createEmployee.
  - `ApplyTimecardUpdate`, `ParseAccepted`, `ReportFailures`, `StoreNewTimecard` and `StoreUpdatedTimecard` are parts of createTimecard and updateTimecard.
