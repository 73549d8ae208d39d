/** The `Storage` class: one store handle whose three tables the statements read
    and change in place. */
module Persistence {
  import opened Wrappers
  import opened Domain
  import opened Mapper
  import opened Seqs
  import opened Filters
  import opened Ordering
  import opened Tables

  /** `os.remove` on a path that does not exist raises. */
  datatype OsError = FileNotFound

  /** `Storage.__init__` AS WRITTEN, on the store file's prior contents (None: no
      file): `reset` removes the file unconditionally, which raises when there is
      none; a missing (or removed) file gets three empty tables; an existing file
      is reused as it is. */
  function OpenAsWritten(reset: bool, prior: Option<Db>): (r: Result<Db, OsError>)
    ensures r.Failure? <==> reset && prior.None?
    ensures r.Success? && (reset || prior.None?) ==> r.value == EmptyDb
    ensures r.Success? && !reset && prior.Some? ==> r.value == prior.value
  {
    if reset && prior.None? then Failure(FileNotFound)
    else if reset || prior.None? then Success(EmptyDb)
    else Success(prior.value)
  }

  /** `Storage()` (reset defaults to True) on a machine without a store file raises. */
  lemma DefaultResetWithoutFileFailsAsWritten()
    ensures OpenAsWritten(true, None) == Failure(FileNotFound)
  {
  }

  /** `Storage.__init__` as documented ("re-initialized (if present)"): reset never
      raises and always yields empty tables; without reset an existing store is reused. */
  function Open(reset: bool, prior: Option<Db>): (r: Result<Db, OsError>)
    ensures r.Success?
    ensures reset || prior.None? ==> r.value == EmptyDb
    ensures !reset && prior.Some? ==> r.value == prior.value
  {
    if reset || prior.None? then Success(EmptyDb) else Success(prior.value)
  }

  /** The corrected opening differs from the written one only where that one raises,
      and it yields a valid store from a valid prior store. */
  lemma OpenAgreesWhereWrittenSucceeds(reset: bool, prior: Option<Db>)
    ensures OpenAsWritten(reset, prior).Success? ==> OpenAsWritten(reset, prior) == Open(reset, prior)
    ensures (!reset && prior.Some? ==> Tables.Valid(prior.value)) ==> Tables.Valid(Open(reset, prior).value)
  {
    EmptyDbValid();
  }

  /** The loop of `select_appointments` over the fetched rows: one Appointment per
      row, in order, or the error of the first row that cannot be read. */
  method ReadAppointments(rows: seq<JoinedRow>, types: seq<AppointmentType>) returns (r: Result<seq<Appointment>, ReadError>)
    ensures r.Success? <==> forall i :: 0 <= i < |rows| ==> ToAppointment(rows[i], types).Success?
    ensures r.Success? ==> |r.value| == |rows|
    ensures r.Success? ==> forall i :: 0 <= i < |rows| ==> ToAppointment(rows[i], types) == Success(r.value[i])
    ensures r.Failure? ==>
      exists k :: (0 <= k < |rows| && ToAppointment(rows[k], types) == Failure(r.error)
                  && forall j :: 0 <= j < k ==> ToAppointment(rows[j], types).Success?)
  {
    var result := [];
    var i := 0;
    while i < |rows|
      invariant 0 <= i <= |rows| && |result| == i
      invariant forall k :: 0 <= k < i ==> ToAppointment(rows[k], types) == Success(result[k])
    {
      var read := ToAppointment(rows[i], types);
      if read.Failure? {
        return Failure(read.error);
      }
      result := result + [read.value];
      i := i + 1;
    }
    r := Success(result);
  }

  class Storage {
    var employees: seq<EmployeeRow>
    var patients: seq<PatientRow>
    var appointments: seq<AppointmentRow>
    /** The members of the AppointmentType enumeration, in declaration order. */
    const appointmentTypes: seq<AppointmentType>

    /** The store's current contents. */
    function Snapshot(): Db
      reads this
    {
      Db(employees, patients, appointments)
    }

    predicate Valid()
      reads this
    {
      Tables.Valid(Snapshot())
    }

    /** `__init__`: opens the store, creating the three tables when it is new. */
    constructor (reset: bool, prior: Option<Db>, appointmentTypes: seq<AppointmentType>)
      requires !reset && prior.Some? ==> Tables.Valid(prior.value)
      ensures Valid()
      ensures Snapshot() == Open(reset, prior).value
      ensures this.appointmentTypes == appointmentTypes
    {
      OpenAgreesWhereWrittenSucceeds(reset, prior);
      var db := Open(reset, prior).value;
      employees := db.employees;
      patients := db.patients;
      appointments := db.appointments;
      this.appointmentTypes := appointmentTypes;
    }

    /** The statement `select_employee` executes, with the corrected builder
      `BuildEmployeeParams` (the written one, `BuildEmployeeParamsAsWritten`,
      makes the statement fail when both filters are given): the clause and
      parameters, run against the employees table, fetch exactly the matching
      rows in rowid order. */
    method FetchEmployeeRows(role: Option<EmployeeRole>, employeeNumber: Option<string>) returns (rows: seq<EmployeeRow>)
      ensures rows == EmployeeRows(employees, role, employeeNumber)
    {
      var clause, params := BuildEmployeeParams(role, employeeNumber);
      var fetch := (row: EmployeeRow) => EvalEmployeeWhere(clause, params, row) == Some(true);
      rows := Filter(employees, fetch);
      FilterAgrees(employees, fetch, EmployeeMatcher(role, employeeNumber));
    }

    /** `select_employee` with the corrected clause builder: the stored employees
      with the given role and/or number, one object per fetched row, of the class
      its role names. */
    method SelectEmployee(role: Option<EmployeeRole>, employeeNumber: Option<string>) returns (r: seq<Employee>)
      requires Valid()
      ensures |r| == |EmployeeRows(employees, role, employeeNumber)|
      ensures forall i :: 0 <= i < |r| ==> ToEmployee(EmployeeRows(employees, role, employeeNumber)[i]) == Some(r[i])
      ensures forall e :: e in r <==>
        Persisted(e) == e && EmployeeRowOf(e) in employees && EmployeeMatches(role, employeeNumber, EmployeeRowOf(e))
    {
      var rows := FetchEmployeeRows(role, employeeNumber);
      r := [];
      var i := 0;
      while i < |rows|
        invariant 0 <= i <= |rows| && |r| == i
        invariant forall k :: 0 <= k < i ==> ToEmployee(rows[k]) == Some(r[k])
      {
        assert rows[i] in employees;
        r := r + [ToEmployee(rows[i]).value];
        i := i + 1;
      }
      ReadEmployeesMembers(rows, r);
    }

    /** `insert_employee`: raises when the number is taken, else appends the row. */
    method InsertEmployee(e: Employee) returns (r: Status)
      requires Valid()
      modifies this
      ensures Valid()
      ensures r == (if EmployeesNumbered(old(employees), e.employeeNumber) == [] then Done else Failed(UniqueViolation))
      ensures employees == (if r.Done? then old(employees) + [EmployeeRowOf(e)] else old(employees))
      ensures patients == old(patients) && appointments == old(appointments)
    {
      if EmployeesNumbered(employees, e.employeeNumber) == [] {
        InsertEmployeeKeepsValid(Snapshot(), e);
        employees := employees + [EmployeeRowOf(e)];
        r := Done;
      } else {
        r := Failed(UniqueViolation);
      }
    }

    /** `select_doctors`: exactly the stored doctors; the number argument is ignored. */
    method SelectDoctors(employeeNumber: Option<string>) returns (r: seq<Employee>)
      requires Valid()
      ensures |r| == |EmployeeRows(employees, Some(DOCTOR), None)|
      ensures forall e :: e in r <==> e.Doctor? && EmployeeRowOf(e) in employees
    {
      r := SelectEmployee(Some(DOCTOR), None);
    }

    /** `select_nurses`: exactly the stored nurses; the number argument is ignored. */
    method SelectNurses(employeeNumber: Option<string>) returns (r: seq<Employee>)
      requires Valid()
      ensures |r| == |EmployeeRows(employees, Some(NURSE), None)|
      ensures forall e :: e in r <==> e.Nurse? && EmployeeRowOf(e) in employees
    {
      r := SelectEmployee(Some(NURSE), None);
    }

    /** `select_receptionists`: exactly the stored receptionists, each without its
      extra argument; the number argument is ignored. */
    method SelectReceptionists(employeeNumber: Option<string>) returns (r: seq<Employee>)
      requires Valid()
      ensures |r| == |EmployeeRows(employees, Some(RECEPTIONIST), None)|
      ensures forall e :: e in r <==> e.Receptionist? && e.extra.None? && EmployeeRowOf(e) in employees
    {
      r := SelectEmployee(Some(RECEPTIONIST), None);
    }

    /** `select_patients`: every stored patient, in rowid order. */
    method SelectPatients() returns (r: seq<Patient>)
      ensures |r| == |patients|
      ensures forall i :: 0 <= i < |r| ==> PatientRowOf(r[i]) == patients[i]
    {
      r := [];
      var i := 0;
      while i < |patients|
        invariant 0 <= i <= |patients| && |r| == i
        invariant forall k :: 0 <= k < i ==> PatientRowOf(r[k]) == patients[k]
      {
        r := r + [ToPatient(patients[i])];
        i := i + 1;
      }
    }

    /** `select_patient`: the stored patient with that name pair, or None. */
    method SelectPatient(firstName: string, surname: string) returns (r: Option<Patient>)
      requires Valid()
      ensures r.None? <==> forall row :: row in patients ==> row.firstName != firstName || row.surname != surname
      ensures r.Some? ==> PatientsNamed(patients, firstName, surname) == [PatientRowOf(r.value)]
      ensures r.Some? ==> r.value.firstname == firstName && r.value.surname == surname
    {
      var rows := PatientsNamed(patients, firstName, surname);
      PatientLookupAtMostOne(patients, firstName, surname);
      r := if |rows| > 0 then Some(Patient(firstName, surname, rows[0].address, rows[0].phone)) else None;
      if |rows| > 0 {
        assert rows[0] in rows;
      }
    }

    /** `insert_patient`: raises when the name pair is taken, else appends the row. */
    method InsertPatient(p: Patient) returns (r: Status)
      requires Valid()
      modifies this
      ensures Valid()
      ensures r == (if PatientsNamed(old(patients), p.firstname, p.surname) == [] then Done else Failed(UniqueViolation))
      ensures patients == (if r.Done? then old(patients) + [PatientRowOf(p)] else old(patients))
      ensures employees == old(employees) && appointments == old(appointments)
    {
      if PatientsNamed(patients, p.firstname, p.surname) == [] {
        InsertPatientKeepsValid(Snapshot(), p);
        patients := patients + [PatientRowOf(p)];
        r := Done;
      } else {
        r := Failed(UniqueViolation);
      }
    }

    /** `select_appointments`: the joined appointments passing every filter given,
      ordered by date then staff name, each read back as an Appointment; reading
      raises at the first row whose stored type names no AppointmentType member. */
    method SelectAppointments(employeeNumbers: Option<seq<string>>, day: Option<int>, patient: Option<Patient>)
      returns (r: Result<seq<Appointment>, ReadError>)
      requires Valid()
      ensures var rows := SelectedRows(Snapshot(), AppointmentFilter(employeeNumbers, day, patient));
        && (r.Success? <==> forall i :: 0 <= i < |rows| ==> TypeByName(appointmentTypes, rows[i].appointment.typeText).Some?)
        && (r.Success? ==> |r.value| == |rows|)
        && (r.Success? ==> forall i :: 0 <= i < |rows| ==> ToAppointment(rows[i], appointmentTypes) == Success(r.value[i]))
        && (r.Failure? ==>
              exists k :: (0 <= k < |rows| && r.error == UnknownAppointmentType(rows[k].appointment.typeText)
                          && TypeByName(appointmentTypes, rows[k].appointment.typeText).None?
                          && forall j :: 0 <= j < k ==> TypeByName(appointmentTypes, rows[j].appointment.typeText).Some?))
      ensures r.Success? ==> forall i, j :: 0 <= i < j < |r.value| ==> r.value[i].date <= r.value[j].date
    {
      var f := AppointmentFilter(employeeNumbers, day, patient);
      var rows := SelectedRows(Snapshot(), f);
      r := ReadAppointments(rows, appointmentTypes);
      SelectedRowsSpec(Snapshot(), f);
      forall k | 0 <= k < |rows| ensures ToEmployee(rows[k].employee).Some? {
        assert rows[k] in rows;
      }
      if r.Success? {
        forall a, b | 0 <= a < b < |r.value| ensures r.value[a].date <= r.value[b].date {
          assert RowLe(rows[a], rows[b]);
        }
      }
    }

    /** `select_appointment_dates`: each calendar day holding at least one stored
      appointment, once. */
    method SelectAppointmentDates() returns (r: seq<int>)
      ensures forall i, j :: 0 <= i < j < |r| ==> r[i] != r[j]
      ensures forall d :: d in r <==> exists row :: row in appointments && Day(row.date) == d
    {
      r := [];
      var i := 0;
      while i < |appointments|
        invariant 0 <= i <= |appointments|
        invariant forall x, y :: 0 <= x < y < |r| ==> r[x] != r[y]
        invariant forall d :: d in r <==> exists k :: 0 <= k < i && Day(appointments[k].date) == d
      {
        var d := Day(appointments[i].date);
        if d !in r {
          r := r + [d];
        }
        i := i + 1;
      }
      forall d ensures d in r <==> exists row :: row in appointments && Day(row.date) == d {
        if d in r {
          var k :| 0 <= k < |appointments| && Day(appointments[k].date) == d;
          assert appointments[k] in appointments;
        }
      }
    }

    /** `insert_appointment`: the patient's rowid comes from its name pair; a missing
      patient violates NOT NULL, a taken key violates the primary key, otherwise the
      row is appended. The employee is not checked. */
    method InsertAppointment(a: Appointment) returns (r: Status)
      requires Valid()
      modifies this
      ensures Valid()
      ensures employees == old(employees) && patients == old(patients)
      ensures var id := PatientRowId(patients, a.patient.firstname, a.patient.surname);
        && (id.None? ==> r == Failed(NotNullViolation) && appointments == old(appointments))
        && (id.Some? && AppointmentsKeyed(old(appointments), StoredAppointmentRow(a, id.value).Key()) != [] ==>
              r == Failed(UniqueViolation) && appointments == old(appointments))
        && (id.Some? && AppointmentsKeyed(old(appointments), StoredAppointmentRow(a, id.value).Key()) == [] ==>
              r == Done && appointments == old(appointments) + [StoredAppointmentRow(a, id.value)])
    {
      var id := PatientRowId(patients, a.patient.firstname, a.patient.surname);
      if id.None? {
        r := Failed(NotNullViolation);
      } else {
        var row := StoredAppointmentRow(a, id.value);
        if AppointmentsKeyed(appointments, row.Key()) != [] {
          r := Failed(UniqueViolation);
        } else {
          InsertAppointmentKeepsValid(Snapshot(), row);
          appointments := appointments + [row];
          r := Done;
        }
      }
    }

    /** `delete_appointment`: removes the rows whose key is the appointment's
      (employee number, patient rowid, date); nothing when the patient is unknown. */
    method DeleteAppointment(a: Appointment)
      requires Valid()
      modifies this
      ensures Valid()
      ensures employees == old(employees) && patients == old(patients)
      ensures var id := PatientRowId(patients, a.patient.firstname, a.patient.surname);
        appointments == if id.None? then old(appointments)
                        else WithoutKey(old(appointments), AppointmentKey(a.staff.employeeNumber, id.value, a.date))
    {
      var id := PatientRowId(patients, a.patient.firstname, a.patient.surname);
      if id.Some? {
        var key := AppointmentKey(a.staff.employeeNumber, id.value, a.date);
        DeleteKeepsValid(Snapshot(), key);
        appointments := WithoutKey(appointments, key);
      }
    }
  }
}
