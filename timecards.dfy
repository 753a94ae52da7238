/**
 * The timecard rules: a timecard belongs to an existing employee, and its
 * start and end must pass the timestamp rules of a fresh
 * "yyyy-MM-dd HH:mm:ss" validator. A failing create or update writes one
 * message per failed check, in a fixed order, so the last failed check is
 * the one the caller sees.
 */
module Timecards {
  import opened Wrappers
  import opened DateFormat
  import opened DateValidation
  import opened Store
  import opened Business

  const NOT_FOUND := "{\"error\": \"Could not find timecard!\"}"
  const NONE_LISTED := "{\"error\": \"There are no timecards!\"}"
  const NOT_CREATED := "{\"error\": \"Could not create timecard!\"}"
  const NOT_UPDATED := "{\"error\": \"Could not update timecard!\"}"
  const NOT_DELETED := "{\"error\": \"Could not delete timecard!\"}"
  const EMPLOYEE_MISSING := "{\"error\": \"Employee does not exist!\"}"
  const TIMECARD_MISSING := "{\"error\": \"Timecard does not exist!\"}"
  const TIMESTAMPS_ERROR := "{\"error\": \"Error with timestamps!\"}"

  /** The timestamp check as createTimecard and updateTimecard run it. */
  function TimestampsOk(start: string, end: string, now: int): bool {
    TimestampsAccepted(TimestampPattern, start, end, now)
  }

  /** The fields of an update request. */
  datatype TimecardUpdate = TimecardUpdate(company: string, timecardId: int, start: string, end: string, empId: int)

  class TimecardBusiness {
    const base: BusinessLayer

    ghost predicate Valid()
      reads base, base.dl
    {
      base.dl.Valid() && base.dl.company == USERNAME
    }

    constructor()
      ensures Valid() && fresh(base) && fresh(base.dl)
      ensures base.dl.departments == [] && base.dl.employees == [] && base.dl.timecards == []
      ensures base.GetJSONTemplate() == TIMECARD_TEMPLATE && base.GetErrorJson() == ERROR_JSON
    {
      base := new BusinessLayer(USERNAME, TIMECARD_TEMPLATE, ERROR_JSON);
    }

    method GetTimecard(company: string, id: int) returns (t: Option<Timecard>)
      modifies base
      ensures !(company == USERNAME && id > 0) ==> t.None?
      ensures company == USERNAME && id > 0 ==>
                if t.Some? then t.value in base.dl.timecards && t.value.id == id
                else forall x :: x in base.dl.timecards ==> x.id != id
      ensures base.errorJson == if company == USERNAME && id > 0 && t.None? then NOT_FOUND else old(base.errorJson)
    {
      if company == USERNAME && id > 0 {
        t := base.dl.GetTimecard(id);
        if t.None? {
          base.SetErrorJson(NOT_FOUND);
        }
        return;
      }
      t := None;
    }

    method GetTimecards(company: string, empId: int) returns (ts: seq<Timecard>)
      modifies base
      ensures !(company == USERNAME && empId > 0) ==> ts == []
      ensures company == USERNAME && empId > 0 ==> ts == TimecardsOf(base.dl.timecards, empId)
      ensures forall x :: x in ts ==> x in base.dl.timecards && x.empId == empId
      ensures base.errorJson == if company == USERNAME && empId > 0 && ts == [] then NONE_LISTED else old(base.errorJson)
    {
      ts := [];
      if company == USERNAME && empId > 0 {
        ts := base.dl.GetAllTimecard(empId);
        if |ts| == 0 {
          base.SetErrorJson(NONE_LISTED);
        }
        return;
      }
    }

    method CreateTimecard(company: string, empId: int, start: string, end: string, now: int) returns (t: Option<Timecard>)
      requires Valid()
      modifies base, base.dl
      ensures Valid()
      ensures !(company == USERNAME && old(base.dl.GetEmployee(empId)).Some? && TimestampsOk(start, end, now)) ==>
                && t.None? && unchanged(base.dl)
                && base.errorJson == if !TimestampsOk(start, end, now) then TIMESTAMPS_ERROR
                                     else if old(base.dl.GetEmployee(empId)).None? then EMPLOYEE_MISSING
                                     else old(base.errorJson)
      ensures company == USERNAME && old(base.dl.GetEmployee(empId)).Some? && TimestampsOk(start, end, now) ==>
                if t.Some? then
                  && Parse(TimestampPattern, false, start) == Some(t.value.startTime)
                  && Parse(TimestampPattern, false, end) == Some(t.value.endTime)
                  && t.value == Timecard(old(base.dl.nextId), t.value.startTime, t.value.endTime, empId)
                  && base.dl.timecards == old(base.dl.timecards) + [t.value]
                  && base.dl.departments == old(base.dl.departments) && base.dl.employees == old(base.dl.employees)
                  && base.errorJson == old(base.errorJson)
                else
                  unchanged(base.dl) && base.errorJson == NOT_CREATED
    {
      var e := base.dl.GetEmployee(empId);
      var dv := new DateValidator(TimestampPattern);
      var ok := company == USERNAME && e.Some?;
      if ok {
        ok := dv.ValidateTimestamps(start, end, now);
      }
      if ok {
        var startTime, endTime := ParseAccepted(dv, start, end, now);
        t := StoreNewTimecard(Timecard(0, startTime, endTime, empId));
        return;
      }
      ReportFailures(e.None?, false, dv, start, end, now);
      t := None;
    }

    /** Whether updateTimecard gets past its checks. */
    function UpdateChecked(u: TimecardUpdate, now: int): bool
      reads base.dl
    {
      && u.company == USERNAME
      && base.dl.GetEmployee(u.empId).Some?
      && base.dl.GetTimecard(u.timecardId).Some?
      && TimestampsOk(u.start, u.end, now)
    }

    method UpdateTimecard(u: TimecardUpdate, now: int) returns (t: Option<Timecard>)
      requires Valid()
      modifies base, base.dl
      ensures Valid()
      ensures !old(UpdateChecked(u, now)) ==>
                && t.None? && unchanged(base.dl)
                && base.errorJson == if !TimestampsOk(u.start, u.end, now) then TIMESTAMPS_ERROR
                                     else if old(base.dl.GetTimecard(u.timecardId)).None? then TIMECARD_MISSING
                                     else if old(base.dl.GetEmployee(u.empId)).None? then EMPLOYEE_MISSING
                                     else old(base.errorJson)
      ensures old(UpdateChecked(u, now)) ==>
                if t.Some? then
                  && Parse(TimestampPattern, false, u.start) == Some(t.value.startTime)
                  && Parse(TimestampPattern, false, u.end) == Some(t.value.endTime)
                  && t.value == Timecard(u.timecardId, t.value.startTime, t.value.endTime, u.empId)
                  && base.dl.timecards == ReplaceTimecard(old(base.dl.timecards), t.value)
                  && base.dl.departments == old(base.dl.departments) && base.dl.employees == old(base.dl.employees)
                  && base.errorJson == old(base.errorJson)
                else
                  unchanged(base.dl) && base.errorJson == NOT_UPDATED
    {
      var e := base.dl.GetEmployee(u.empId);
      var found := base.dl.GetTimecard(u.timecardId);
      var dv := new DateValidator(TimestampPattern);
      var ok := u.company == USERNAME && e.Some? && found.Some?;
      if ok {
        ok := dv.ValidateTimestamps(u.start, u.end, now);
      }
      if ok {
        t := ApplyTimecardUpdate(u, dv, now);
        return;
      }
      ReportFailures(e.None?, found.None?, dv, u.start, u.end, now);
      t := None;
    }

    /**
     * The success path of updateTimecard: the fetched timecard gets the parsed
     * start and end, the employee id and its own id, and goes back to the store.
     */
    method ApplyTimecardUpdate(u: TimecardUpdate, dv: DateValidator, now: int) returns (t: Option<Timecard>)
      requires Valid() && UpdateChecked(u, now)
      requires dv.pattern == TimestampPattern && !dv.lenient
      modifies base, base.dl
      ensures Valid()
      ensures if t.Some? then
                && Parse(TimestampPattern, false, u.start) == Some(t.value.startTime)
                && Parse(TimestampPattern, false, u.end) == Some(t.value.endTime)
                && t.value == Timecard(u.timecardId, t.value.startTime, t.value.endTime, u.empId)
                && base.dl.timecards == ReplaceTimecard(old(base.dl.timecards), t.value)
                && base.dl.departments == old(base.dl.departments) && base.dl.employees == old(base.dl.employees)
                && base.errorJson == old(base.errorJson)
              else
                unchanged(base.dl) && base.errorJson == NOT_UPDATED
    {
      var found := base.dl.GetTimecard(u.timecardId);
      var startTime, endTime := ParseAccepted(dv, u.start, u.end, now);
      var changed := found.value.(startTime := startTime, endTime := endTime, empId := u.empId, id := u.timecardId);
      t := StoreUpdatedTimecard(changed);
    }

    /** After validateTimestamps accepted the pair, stringToDate parses both in non-lenient mode. */
    method ParseAccepted(dv: DateValidator, start: string, end: string, now: int) returns (startTime: int, endTime: int)
      requires dv.pattern == TimestampPattern && !dv.lenient && TimestampsOk(start, end, now)
      ensures Parse(TimestampPattern, false, start) == Some(startTime)
      ensures Parse(TimestampPattern, false, end) == Some(endTime)
    {
      var s := dv.StringToDate(start);
      var e := dv.StringToDate(end);
      startTime, endTime := s.value, e.value;
    }

    /**
     * The tail of a failed create or update: one message per failed check,
     * employee first, then timecard, then the timestamps (checked again), so
     * the last failed check is the message left behind.
     */
    method ReportFailures(employeeMissing: bool, timecardMissing: bool, dv: DateValidator,
                          start: string, end: string, now: int)
      requires dv.pattern == TimestampPattern
      modifies base, dv
      ensures base.errorJson == if !TimestampsOk(start, end, now) then TIMESTAMPS_ERROR
                                else if timecardMissing then TIMECARD_MISSING
                                else if employeeMissing then EMPLOYEE_MISSING
                                else old(base.errorJson)
    {
      if employeeMissing {
        base.SetErrorJson(EMPLOYEE_MISSING);
      }
      if timecardMissing {
        base.SetErrorJson(TIMECARD_MISSING);
      }
      var valid := dv.ValidateTimestamps(start, end, now);
      if !valid {
        base.SetErrorJson(TIMESTAMPS_ERROR);
      }
    }

    /** The last step of createTimecard: insert, and report a refused insert. */
    method StoreNewTimecard(row: Timecard) returns (t: Option<Timecard>)
      requires Valid()
      modifies base, base.dl
      ensures Valid()
      ensures if t.Some? then
                && t.value == row.(id := old(base.dl.nextId))
                && base.dl.timecards == old(base.dl.timecards) + [t.value]
                && base.dl.departments == old(base.dl.departments) && base.dl.employees == old(base.dl.employees)
                && base.errorJson == old(base.errorJson)
              else
                unchanged(base.dl) && base.errorJson == NOT_CREATED
    {
      t := base.dl.InsertTimecard(row);
      if t.None? {
        base.SetErrorJson(NOT_CREATED);
      }
    }

    /** The last step of updateTimecard: the changed record goes back to the store. */
    method StoreUpdatedTimecard(row: Timecard) returns (t: Option<Timecard>)
      requires Valid() && base.dl.GetTimecard(row.id).Some?
      modifies base, base.dl
      ensures Valid()
      ensures if t.Some? then
                && t.value == row
                && base.dl.timecards == ReplaceTimecard(old(base.dl.timecards), row)
                && base.dl.departments == old(base.dl.departments) && base.dl.employees == old(base.dl.employees)
                && base.errorJson == old(base.errorJson)
              else
                unchanged(base.dl) && base.errorJson == NOT_UPDATED
    {
      t := base.dl.UpdateTimecard(row);
      if t.None? {
        base.SetErrorJson(NOT_UPDATED);
      }
    }

    method DeleteTimecard(company: string, id: int) returns (affected: int)
      requires Valid()
      modifies base, base.dl
      ensures Valid()
      ensures !(company == USERNAME && old(base.dl.GetTimecard(id)).Some?) ==>
                affected == 0 && unchanged(base.dl) && base.errorJson == NOT_DELETED
      ensures company == USERNAME && old(base.dl.GetTimecard(id)).Some? ==>
                if affected == 1 then
                  && base.dl.timecards == WithoutTimecard(old(base.dl.timecards), id)
                  && base.dl.departments == old(base.dl.departments) && base.dl.employees == old(base.dl.employees)
                  && base.errorJson == old(base.errorJson)
                else
                  affected == 0 && unchanged(base.dl) && base.errorJson == NOT_DELETED
    {
      var t := base.dl.GetTimecard(id);
      if company == USERNAME && t.Some? {
        affected := base.dl.DeleteTimecard(id);
        if affected == 0 {
          base.SetErrorJson(NOT_DELETED);
        }
        return;
      }
      base.SetErrorJson(NOT_DELETED);
      affected := 0;
    }
  }
}
