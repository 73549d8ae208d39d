/** The optional query filters: the employee `WHERE` clause with its named
    parameters, and the appointment filters as conditions on joined rows. */
module Filters {
  import opened Wrappers
  import opened Domain
  import opened Mapper

  const RoleTest: string := "role = :role"
  const NumberTest: string := "employee_number = :employee_number"

  /** What `select_employee(role, employee_number)` asks of a row. */
  predicate EmployeeMatches(role: Option<EmployeeRole>, employeeNumber: Option<string>, row: EmployeeRow)
  {
    && (role.Some? ==> row.role == RoleName(role.value))
    && (employeeNumber.Some? ==> row.employeeNumber == employeeNumber.value)
  }

  /** The test `column = :key` with `key` bound from `params`; None when the
      parameter is not supplied (the engine raises). */
  function BoundEquals(params: map<string, string>, key: string, column: string): Option<bool>
  {
    if key in params then Some(params[key] == column) else None
  }

  /** The engine running `SELECT ... FROM employees` followed by `clause` on one
      row, for the clause texts the builder can produce; None when the engine
      rejects the statement (a syntax error or a missing parameter). */
  function EvalEmployeeWhere(clause: Option<string>, params: map<string, string>, row: EmployeeRow): Option<bool>
  {
    if clause.None? then Some(true)
    else if clause.value == " where " + RoleTest then BoundEquals(params, "role", row.role)
    else if clause.value == " where " + NumberTest then BoundEquals(params, "employee_number", row.employeeNumber)
    else if clause.value == " where " + RoleTest + " and " + NumberTest then
      match (BoundEquals(params, "role", row.role), BoundEquals(params, "employee_number", row.employeeNumber))
      case (Some(a), Some(b)) => Some(a && b)
      case _ => None
    else None
  }

  /** `_select_employee_build_params` AS WRITTEN: the second condition replaces
      the first instead of extending it, so with both filters the clause is
      `" and " + NumberTest`, which the engine rejects. */
  method BuildEmployeeParamsAsWritten(role: Option<EmployeeRole>, employeeNumber: Option<string>)
    returns (clause: Option<string>, params: map<string, string>)
    ensures clause.None? <==> role.None? && employeeNumber.None?
    ensures params.Keys == (if role.Some? then {"role"} else {}) + (if employeeNumber.Some? then {"employee_number"} else {})
    ensures role.Some? ==> params["role"] == RoleName(role.value)
    ensures employeeNumber.Some? ==> params["employee_number"] == employeeNumber.value
    ensures role.Some? && employeeNumber.Some? ==> clause == Some(" and " + NumberTest)
    ensures role.Some? && employeeNumber.Some? ==> forall row :: EvalEmployeeWhere(clause, params, row).None?
    ensures role.None? || employeeNumber.None? ==>
      forall row :: EvalEmployeeWhere(clause, params, row) == Some(EmployeeMatches(role, employeeNumber, row))
  {
    clause := None;
    params := map[];
    if role.Some? {
      clause := Some(" where " + RoleTest);
      params := params["role" := RoleName(role.value)];
    }
    if employeeNumber.Some? {
      clause := Some((if clause.None? then " where " else " and ") + NumberTest);
      params := params["employee_number" := employeeNumber.value];
    }
  }

  /** `_select_employee_build_params` as intended: a clause beginning with
      `" where "` whose conditions, joined by `" and "`, are exactly the filters
      given, each bound in `params`; together they select exactly the matching rows. */
  method BuildEmployeeParams(role: Option<EmployeeRole>, employeeNumber: Option<string>)
    returns (clause: Option<string>, params: map<string, string>)
    ensures clause.None? <==> role.None? && employeeNumber.None?
    ensures params.Keys == (if role.Some? then {"role"} else {}) + (if employeeNumber.Some? then {"employee_number"} else {})
    ensures role.Some? ==> params["role"] == RoleName(role.value)
    ensures employeeNumber.Some? ==> params["employee_number"] == employeeNumber.value
    ensures clause.Some? ==> |clause.value| > 7 && clause.value[..7] == " where "
    ensures role.Some? && employeeNumber.None? ==> clause == Some(" where " + RoleTest)
    ensures role.None? && employeeNumber.Some? ==> clause == Some(" where " + NumberTest)
    ensures role.Some? && employeeNumber.Some? ==>
      clause == Some(" where " + RoleTest + " and " + NumberTest)
    ensures forall row :: EvalEmployeeWhere(clause, params, row) == Some(EmployeeMatches(role, employeeNumber, row))
  {
    clause := None;
    params := map[];
    if role.Some? {
      clause := Some(" where " + RoleTest);
      params := params["role" := RoleName(role.value)];
    }
    if employeeNumber.Some? {
      clause := Some((if clause.None? then " where " else clause.value + " and ") + NumberTest);
      params := params["employee_number" := employeeNumber.value];
    }
  }

  /** The optional arguments of `select_appointments`. */
  datatype AppointmentFilter = AppointmentFilter(
    employeeNumbers: Option<seq<string>>,
    day: Option<int>,
    patient: Option<Patient>)

  /** `_build_filter_employee_numbers`: None adds nothing; a list keeps the rows
      whose employee number is a member (so the empty list keeps none). */
  predicate MatchesEmployeeNumbers(numbers: Option<seq<string>>, row: JoinedRow)
  {
    numbers.None? || row.employee.employeeNumber in numbers.value
  }

  /** `_build_filter_date`: the date from the start of the day to the start of the next. */
  predicate MatchesDate(day: Option<int>, row: JoinedRow)
  {
    day.None? || DayStart(day.value) <= row.appointment.date < DayStart(day.value + 1)
  }

  /** `_build_filter_patient`: both the first name and the surname equal. */
  predicate MatchesPatient(patient: Option<Patient>, row: JoinedRow)
  {
    patient.None? ||
    (row.patient.firstName == patient.value.firstname && row.patient.surname == patient.value.surname)
  }

  /** The three fragments joined by `and`. */
  predicate MatchesAll(f: AppointmentFilter, row: JoinedRow)
  {
    MatchesEmployeeNumbers(f.employeeNumbers, row) && MatchesDate(f.day, row) && MatchesPatient(f.patient, row)
  }

  /** The date filter keeps exactly the appointments on that calendar day. */
  lemma DateFilterIsSameDay(day: int, row: JoinedRow)
    ensures MatchesDate(Some(day), row) <==> Day(row.appointment.date) == day
  {
    DayRange(row.appointment.date, day);
  }
}
