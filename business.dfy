/**
 * The state every rule class shares: a store opened for one company, the
 * JSON template of the class's record, and the error message the service
 * layer shows when an operation returns nothing. Each operation that fails
 * overwrites the message; the last write wins.
 */
module Business {
  import opened Store

  /** The one company this service accepts. */
  const USERNAME := "xl4998"

  const ERROR_JSON := "{\"error\": \"An error has occurred, please try again!!\"}"

  const DEPARTMENT_TEMPLATE :=
    "{\"dept_id\": %d, \"company\": \"%s\", \"dept_name\": \"%s\", \"dept_no\": \"%s\", \"location\": \"%s\"}"

  const EMPLOYEE_TEMPLATE :=
    "{\"emp_id\": %d, \"emp_name\": \"%s\", \"emp_no\": \"%s\", \"hire_date\": \"%s\", \"job\": \"%s\", "
    + "\"salary\": %.2f, \"dept_id\": %d, \"mng_id\": %d }"

  const TIMECARD_TEMPLATE :=
    "{\"timecard_id\": %d, \"start_time\": \"%s\", \"end_time\": \"%s\", \"emp_id\": %d}"

  class BusinessLayer {
    const dl: DataLayer
    const jsonTemplate: string
    var errorJson: string

    constructor(company: string, template: string, error: string)
      ensures fresh(dl) && dl.Valid() && dl.company == company
      ensures dl.departments == [] && dl.employees == [] && dl.timecards == []
      ensures GetJSONTemplate() == template && GetErrorJson() == error
    {
      dl := new DataLayer(company);
      jsonTemplate := template;
      errorJson := error;
    }

    /** The template is fixed at construction: SetErrorJson cannot change it. */
    function GetJSONTemplate(): (template: string)
      ensures template == jsonTemplate
    {
      jsonTemplate
    }

    /** The message of the last failure, or the one the class was built with. */
    function GetErrorJson(): (json: string)
      reads this
      ensures json == errorJson
    {
      errorJson
    }

    /** Overwrites the message and nothing else; the store is not touched. */
    method SetErrorJson(json: string)
      modifies this
      ensures errorJson == json
      ensures GetErrorJson() == json
      ensures unchanged(dl)
    {
      errorJson := json;
    }
  }
}
