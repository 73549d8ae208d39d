/** Rows of the three tables and the conversions between rows and domain objects. */
module Mapper {
  import opened Wrappers
  import opened Domain

  /** A row of `employees(employee_number, name, role)`. */
  datatype EmployeeRow = EmployeeRow(employeeNumber: string, name: string, role: string)

  /** A row of `patients(first_name, surname, address, phone)`. */
  datatype PatientRow = PatientRow(firstName: string, surname: string, address: string, phone: string)

  /** The primary key of `appointments`. */
  datatype AppointmentKey = AppointmentKey(employeeNumber: string, patientId: int, date: Timestamp)

  /** A row of `appointments(type, employee_number, patient_id, date)`; `patient_id` is a patient rowid. */
  datatype AppointmentRow = AppointmentRow(typeText: string, employeeNumber: string, patientId: int, date: Timestamp)
  {
    function Key(): AppointmentKey
    {
      AppointmentKey(employeeNumber, patientId, date)
    }
  }

  /** One row of the join of appointments with their employee and patient rows. */
  datatype JoinedRow = JoinedRow(appointment: AppointmentRow, employee: EmployeeRow, patient: PatientRow)

  /** The parameters `insert_employee` binds: the role is written by member name. */
  function EmployeeRowOf(e: Employee): EmployeeRow
  {
    EmployeeRow(e.employeeNumber, e.name, RoleName(e.Role()))
  }

  /** What reading a stored employee back can give at best: the receptionist's
      extra argument is not stored and comes back as None. */
  function Persisted(e: Employee): Employee
  {
    match e
    case Receptionist(name, number, _) => Receptionist(name, number, None)
    case _ => e
  }

  /** `_to_employee`: name and number from the row, the class from the role discriminator. */
  function ToEmployee(row: EmployeeRow): (r: Option<Employee>)
    ensures r.None? <==> RoleFromName(row.role).None?
    ensures r.Some? ==> r.value.name == row.name && r.value.employeeNumber == row.employeeNumber
    ensures r.Some? ==> Some(r.value.Role()) == RoleFromName(row.role)
    ensures r.Some? && r.value.Receptionist? ==> r.value.extra.None?
  {
    match RoleFromName(row.role)
    case None => None
    case Some(role) =>
      if role == DOCTOR then Some(Doctor(row.name, row.employeeNumber))
      else if role == NURSE then Some(Nurse(row.name, row.employeeNumber))
      else Some(Receptionist(row.name, row.employeeNumber, None))
  }

  /** Reading a row gives `e` exactly when the row is what storing `e` writes and
      `e` carries nothing that storage drops. */
  lemma {:induction false} ToEmployeeInverse(row: EmployeeRow, e: Employee)
    ensures ToEmployee(row) == Some(e) <==> EmployeeRowOf(e) == row && Persisted(e) == e
  {
    if ToEmployee(row) == Some(e) {
      assert RoleFromName(row.role) == Some(e.Role());
    }
    if EmployeeRowOf(e) == row && Persisted(e) == e {
      assert RoleFromName(row.role) == Some(e.Role()) by {
        match e.Role()
        case DOCTOR =>
        case NURSE =>
        case RECEPTIONIST =>
      }
    }
  }

  /** Storing an employee and reading it back keeps its class, name and number. */
  lemma EmployeeRoundTrip(e: Employee)
    ensures ToEmployee(EmployeeRowOf(e)) == Some(Persisted(e))
  {
    ToEmployeeInverse(EmployeeRowOf(e), Persisted(e));
  }

  /** The parameters `insert_patient` binds. */
  function PatientRowOf(p: Patient): PatientRow
  {
    PatientRow(p.firstname, p.surname, p.address, p.phone)
  }

  /** `_to_patient`: the four columns, in order. */
  function ToPatient(row: PatientRow): Patient
  {
    Patient(row.firstName, row.surname, row.address, row.phone)
  }

  /** Patient rows and patients correspond one to one. */
  lemma PatientRoundTrip(p: Patient, row: PatientRow)
    ensures ToPatient(PatientRowOf(p)) == p
    ensures PatientRowOf(ToPatient(row)) == row
  {
  }

  /** `AppointmentType[text]`: the member whose NAME is `text`; any other text raises (None). */
  function TypeByName(types: seq<AppointmentType>, text: string): (r: Option<AppointmentType>)
    ensures r.Some? ==> r.value in types && r.value.name == text
    ensures r.None? <==> forall t :: t in types ==> t.name != text
  {
    if types == [] then None
    else if types[0].name == text then Some(types[0])
    else TypeByName(types[1..], text)
  }

  /** No two members share a name (true of any Python enumeration). */
  predicate NamesDistinct(types: seq<AppointmentType>)
  {
    forall i, j :: 0 <= i < j < |types| ==> types[i].name != types[j].name
  }

  /** Every member's value is its own name. */
  predicate ValuesAreNames(types: seq<AppointmentType>)
  {
    forall t :: t in types ==> t.value == t.name
  }

  /** `insert_appointment` stores `type.value` and reading looks up by name: the
      type survives the round trip when every value is its member's name. */
  lemma TypeRoundTrip(types: seq<AppointmentType>, t: AppointmentType)
    requires t in types && NamesDistinct(types) && ValuesAreNames(types)
    ensures TypeByName(types, t.value) == Some(t)
  {
    var r := TypeByName(types, t.value);
    assert r.Some?;
    var i :| 0 <= i < |types| && types[i] == r.value;
    var j :| 0 <= j < |types| && types[j] == t;
    if i < j {
      assert types[i].name != types[j].name;
    } else if j < i {
      assert types[j].name != types[i].name;
    }
  }

  /** What reading one joined row may raise. */
  datatype ReadError = UnknownAppointmentType(text: string) | UnknownRole(text: string)

  /** The loop body of `select_appointments`: type by name, staff by role, patient, date. */
  function ToAppointment(row: JoinedRow, types: seq<AppointmentType>): (r: Result<Appointment, ReadError>)
    ensures r.Success? <==> TypeByName(types, row.appointment.typeText).Some? && ToEmployee(row.employee).Some?
    ensures r.Success? ==>
      && Some(r.value.appointmentType) == TypeByName(types, row.appointment.typeText)
      && Some(r.value.staff) == ToEmployee(row.employee)
      && PatientRowOf(r.value.patient) == row.patient
      && r.value.date == row.appointment.date
    ensures r.Failure? && TypeByName(types, row.appointment.typeText).None? ==>
      r.error == UnknownAppointmentType(row.appointment.typeText)
    ensures r.Failure? && TypeByName(types, row.appointment.typeText).Some? ==>
      r.error == UnknownRole(row.employee.role)
  {
    match TypeByName(types, row.appointment.typeText)
    case None => Failure(UnknownAppointmentType(row.appointment.typeText))
    case Some(t) =>
      match ToEmployee(row.employee)
      case None => Failure(UnknownRole(row.employee.role))
      case Some(e) => Success(Appointment(t, e, ToPatient(row.patient), row.appointment.date))
  }
}
