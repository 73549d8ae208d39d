/** The three tables of the clinic store as values, the statements' key checks,
    the join behind `select_appointments`, and what they guarantee. */
module Tables {
  import opened Wrappers
  import opened Domain
  import opened Mapper
  import opened Seqs
  import opened Filters
  import opened Ordering

  /** The contents of the store, each table in rowid order. */
  datatype Db = Db(employees: seq<EmployeeRow>, patients: seq<PatientRow>, appointments: seq<AppointmentRow>)

  const EmptyDb: Db := Db([], [], [])

  /** The constraint an insert statement violates (sqlite3.IntegrityError). */
  datatype SqlError = UniqueViolation | NotNullViolation

  /** The outcome of a write: committed, or raised. */
  datatype Status = Done | Failed(error: SqlError)

  /** A fresh store satisfies every constraint. */
  lemma EmptyDbValid()
    ensures Valid(EmptyDb)
  {
  }

  /** `employee_number TEXT PRIMARY KEY` */
  predicate EmployeeNumbersUnique(t: seq<EmployeeRow>)
  {
    forall i, j :: 0 <= i < j < |t| ==> t[i].employeeNumber != t[j].employeeNumber
  }

  /** Every stored role is the name of an EmployeeRole member (it was written as `role.name`). */
  predicate RolesReadable(t: seq<EmployeeRow>)
  {
    forall row :: row in t ==> RoleFromName(row.role).Some?
  }

  /** `PRIMARY KEY(first_name, surname)` */
  predicate PatientNamesUnique(t: seq<PatientRow>)
  {
    forall i, j :: 0 <= i < j < |t| ==> t[i].firstName != t[j].firstName || t[i].surname != t[j].surname
  }

  /** `PRIMARY KEY(employee_number, patient_id, date)` */
  predicate AppointmentKeysUnique(t: seq<AppointmentRow>)
  {
    forall i, j :: 0 <= i < j < |t| ==> t[i].Key() != t[j].Key()
  }

  /** `patient_id INTEGER NOT NULL` filled from the rowid subquery: every stored
      appointment names an existing patient row (rowid = position + 1). */
  predicate PatientIdsResolve(appointments: seq<AppointmentRow>, patients: seq<PatientRow>)
  {
    forall row :: row in appointments ==> 1 <= row.patientId <= |patients|
  }

  /** What the schema and the insert statements keep true of the store. */
  predicate Valid(db: Db)
  {
    && EmployeeNumbersUnique(db.employees)
    && RolesReadable(db.employees)
    && PatientNamesUnique(db.patients)
    && AppointmentKeysUnique(db.appointments)
    && PatientIdsResolve(db.appointments, db.patients)
  }

  /** The employee rows with a given number (at most one in a valid store). */
  function EmployeesNumbered(t: seq<EmployeeRow>, employeeNumber: string): seq<EmployeeRow>
  {
    Filter(t, (row: EmployeeRow) => row.employeeNumber == employeeNumber)
  }

  /** `EmployeeMatches` as a condition to filter with. */
  function EmployeeMatcher(role: Option<EmployeeRole>, employeeNumber: Option<string>): EmployeeRow -> bool
  {
    (row: EmployeeRow) => EmployeeMatches(role, employeeNumber, row)
  }

  /** The rows `select_employee(role, employee_number)` fetches. */
  function EmployeeRows(t: seq<EmployeeRow>, role: Option<EmployeeRole>, employeeNumber: Option<string>): seq<EmployeeRow>
  {
    Filter(t, EmployeeMatcher(role, employeeNumber))
  }

  /** The rows `where first_name = :first_name and surname = :surname` fetches. */
  function PatientsNamed(t: seq<PatientRow>, firstName: string, surname: string): seq<PatientRow>
  {
    Filter(t, (row: PatientRow) => row.firstName == firstName && row.surname == surname)
  }

  /** The appointment rows holding a key. */
  function AppointmentsKeyed(t: seq<AppointmentRow>, key: AppointmentKey): seq<AppointmentRow>
  {
    Filter(t, (row: AppointmentRow) => row.Key() == key)
  }

  /** The table after `DELETE FROM appointments where <key columns> = key`. */
  function WithoutKey(t: seq<AppointmentRow>, key: AppointmentKey): seq<AppointmentRow>
  {
    Filter(t, (row: AppointmentRow) => row.Key() != key)
  }

  /** The subquery `(SELECT rowid from patients p where p.first_name = .. and p.surname = ..)`:
      the rowid of the first row with that name pair, NULL (None) when there is none. */
  function PatientRowId(t: seq<PatientRow>, firstName: string, surname: string): (r: Option<int>)
    ensures r.Some? ==> 1 <= r.value <= |t| && t[r.value - 1].firstName == firstName && t[r.value - 1].surname == surname
    ensures r.None? <==> forall row :: row in t ==> row.firstName != firstName || row.surname != surname
  {
    if t == [] then None
    else if t[0].firstName == firstName && t[0].surname == surname then Some(1)
    else
      assert forall row :: row in t ==> row == t[0] || row in t[1..];
      match PatientRowId(t[1..], firstName, surname)
      case None => None
      case Some(id) => Some(id + 1)
  }

  /** The row `insert_appointment` writes once the patient's rowid is known:
      the type's value, the staff member's number, the rowid and the date. */
  function StoredAppointmentRow(a: Appointment, patientId: int): AppointmentRow
  {
    AppointmentRow(a.appointmentType.value, a.staff.employeeNumber, patientId, a.date)
  }

  /** The joined rows of one appointment: `a.employee_number = e.employee_number
      and patient_id = p.rowid`. */
  function JoinAppointment(a: AppointmentRow, employees: seq<EmployeeRow>, patients: seq<PatientRow>): seq<JoinedRow>
  {
    if 1 <= a.patientId <= |patients| then
      var es := EmployeesNumbered(employees, a.employeeNumber);
      seq(|es|, k requires 0 <= k < |es| => JoinedRow(a, es[k], patients[a.patientId - 1]))
    else []
  }

  function JoinAll(appointments: seq<AppointmentRow>, employees: seq<EmployeeRow>, patients: seq<PatientRow>): seq<JoinedRow>
  {
    if appointments == [] then []
    else JoinAppointment(appointments[0], employees, patients) + JoinAll(appointments[1..], employees, patients)
  }

  /** `from employees e, patients p, appointments a where a.employee_number =
      e.employee_number and patient_id = p.rowid` */
  function Joined(db: Db): seq<JoinedRow>
  {
    JoinAll(db.appointments, db.employees, db.patients)
  }

  /** A joined row is made of an appointment, the employee row with its number and
      the patient row at its rowid. */
  predicate JoinsWith(row: JoinedRow, employees: seq<EmployeeRow>, patients: seq<PatientRow>)
  {
    && row.employee in employees
    && row.employee.employeeNumber == row.appointment.employeeNumber
    && 1 <= row.appointment.patientId <= |patients|
    && row.patient == patients[row.appointment.patientId - 1]
  }

  lemma JoinAppointmentMembers(a: AppointmentRow, employees: seq<EmployeeRow>, patients: seq<PatientRow>, row: JoinedRow)
    ensures row in JoinAppointment(a, employees, patients) <==> row.appointment == a && JoinsWith(row, employees, patients)
  {
    if 1 <= a.patientId <= |patients| {
      var es := EmployeesNumbered(employees, a.employeeNumber);
      var js := JoinAppointment(a, employees, patients);
      if row in js {
        var k :| 0 <= k < |js| && js[k] == row;
        assert row.employee == es[k] && es[k] in es;
      }
      if row.appointment == a && JoinsWith(row, employees, patients) {
        assert row.employee in es;
        var k :| 0 <= k < |es| && es[k] == row.employee;
        assert js[k] == row;
      }
    }
  }

  /** The join holds exactly the combinations of a stored appointment with the
      employee row of its number and the patient row of its rowid. */
  lemma {:induction false} JoinAllMembers(appointments: seq<AppointmentRow>, employees: seq<EmployeeRow>,
                                          patients: seq<PatientRow>, row: JoinedRow)
    ensures row in JoinAll(appointments, employees, patients) <==>
            row.appointment in appointments && JoinsWith(row, employees, patients)
  {
    if appointments != [] {
      JoinAppointmentMembers(appointments[0], employees, patients, row);
      JoinAllMembers(appointments[1..], employees, patients, row);
      assert appointments == [appointments[0]] + appointments[1..];
    }
  }

  /** The joined rows that pass every filter, in join order. */
  function MatchingRows(db: Db, f: AppointmentFilter): seq<JoinedRow>
  {
    Filter(Joined(db), AppointmentMatcher(f))
  }

  /** `MatchesAll` as a condition to filter with. */
  function AppointmentMatcher(f: AppointmentFilter): JoinedRow -> bool
  {
    (row: JoinedRow) => MatchesAll(f, row)
  }

  /** The rows `select_appointments` fetches: matching rows ordered by date, then staff name. */
  function SelectedRows(db: Db, f: AppointmentFilter): seq<JoinedRow>
  {
    OrderByDateName(MatchingRows(db, f))
  }

  /** `select_appointments` returns exactly the joined appointments that satisfy
      every filter given, as a permutation of the join's matches, sorted by date
      and then staff name. */
  lemma SelectedRowsSpec(db: Db, f: AppointmentFilter)
    ensures SortedByDateName(SelectedRows(db, f))
    ensures multiset(SelectedRows(db, f)) == multiset(MatchingRows(db, f))
    ensures forall row :: row in SelectedRows(db, f) <==>
      row.appointment in db.appointments && JoinsWith(row, db.employees, db.patients) && MatchesAll(f, row)
  {
    OrderByDateNameCorrect(MatchingRows(db, f));
    forall row ensures row in SelectedRows(db, f) <==>
      row.appointment in db.appointments && JoinsWith(row, db.employees, db.patients) && MatchesAll(f, row)
    {
      JoinAllMembers(db.appointments, db.employees, db.patients, row);
      assert row in SelectedRows(db, f) <==> row in multiset(SelectedRows(db, f));
      assert row in MatchingRows(db, f) <==> row in multiset(MatchingRows(db, f));
    }
  }

  /** An explicitly empty employee-number list selects nothing (the default argument). */
  lemma EmptyNumberListSelectsNothing(db: Db, f: AppointmentFilter)
    requires f.employeeNumbers == Some([])
    ensures SelectedRows(db, f) == []
  {
    FilterKeepsNone(Joined(db), AppointmentMatcher(f));
  }

  /** With a day filter every selected appointment falls on that calendar day. */
  lemma DayFilterSelectsThatDay(db: Db, f: AppointmentFilter, day: int)
    requires f.day == Some(day)
    ensures forall row :: row in SelectedRows(db, f) ==> Day(row.appointment.date) == day
  {
    SelectedRowsSpec(db, f);
    forall row | row in SelectedRows(db, f) ensures Day(row.appointment.date) == day {
      DateFilterIsSameDay(day, row);
    }
  }

  /** An appointment stored for an employee number that no employee row has is
      kept out of every selection by the inner join. */
  lemma OrphanAppointmentNeverSelected(db: Db, f: AppointmentFilter, a: AppointmentRow)
    requires forall e :: e in db.employees ==> e.employeeNumber != a.employeeNumber
    ensures forall row :: row in SelectedRows(db, f) ==> row.appointment != a
  {
    SelectedRowsSpec(db, f);
  }

  /** In a valid store, an appointment whose employee row exists is selected by
      every filter combination it passes. */
  lemma StoredAppointmentSelected(db: Db, f: AppointmentFilter, a: AppointmentRow, e: EmployeeRow)
    requires Valid(db) && a in db.appointments && e in db.employees && e.employeeNumber == a.employeeNumber
    ensures 1 <= a.patientId <= |db.patients|
    ensures MatchesAll(f, JoinedRow(a, e, db.patients[a.patientId - 1])) ==>
            JoinedRow(a, e, db.patients[a.patientId - 1]) in SelectedRows(db, f)
  {
    SelectedRowsSpec(db, f);
  }

  /** Storing an employee with a fresh number keeps the store valid. */
  lemma InsertEmployeeKeepsValid(db: Db, e: Employee)
    requires Valid(db) && EmployeesNumbered(db.employees, e.employeeNumber) == []
    ensures Valid(db.(employees := db.employees + [EmployeeRowOf(e)]))
  {
    var t := db.employees + [EmployeeRowOf(e)];
    forall i | 0 <= i < |db.employees| ensures t[i].employeeNumber != e.employeeNumber {
      assert t[i] in db.employees;
    }
    EmployeeRoundTrip(e);
  }

  /** Storing a patient with a fresh name pair keeps the store valid. */
  lemma InsertPatientKeepsValid(db: Db, p: Patient)
    requires Valid(db) && PatientsNamed(db.patients, p.firstname, p.surname) == []
    ensures Valid(db.(patients := db.patients + [PatientRowOf(p)]))
  {
    var t := db.patients + [PatientRowOf(p)];
    forall i | 0 <= i < |db.patients| ensures t[i].firstName != p.firstname || t[i].surname != p.surname {
      assert t[i] in db.patients;
    }
  }

  /** Storing an appointment with a resolved patient and a fresh key keeps the store valid. */
  lemma InsertAppointmentKeepsValid(db: Db, row: AppointmentRow)
    requires Valid(db) && 1 <= row.patientId <= |db.patients| && AppointmentsKeyed(db.appointments, row.Key()) == []
    ensures Valid(db.(appointments := db.appointments + [row]))
  {
    var t := db.appointments + [row];
    forall i | 0 <= i < |db.appointments| ensures t[i].Key() != row.Key() {
      assert t[i] in db.appointments;
    }
  }

  /** Deleting appointments keeps the store valid. */
  lemma DeleteKeepsValid(db: Db, key: AppointmentKey)
    requires Valid(db)
    ensures Valid(db.(appointments := WithoutKey(db.appointments, key)))
  {
    FilterKeepsPairwise(db.appointments, (row: AppointmentRow) => row.Key() != key,
                        (x: AppointmentRow, y: AppointmentRow) => x.Key() != y.Key());
  }

  /** After storing an employee with a fresh number, selecting by that number
      fetches exactly its row, which reads back as the same class, name and number. */
  lemma {:induction false} EmployeeInsertThenSelect(t: seq<EmployeeRow>, e: Employee)
    requires EmployeesNumbered(t, e.employeeNumber) == []
    ensures EmployeeRows(t + [EmployeeRowOf(e)], None, Some(e.employeeNumber)) == [EmployeeRowOf(e)]
    ensures ToEmployee(EmployeeRowOf(e)) == Some(Persisted(e))
  {
    var p := EmployeeMatcher(None, Some(e.employeeNumber));
    FilterAppend(t, [EmployeeRowOf(e)], p);
    FilterAgrees(t, p, (row: EmployeeRow) => row.employeeNumber == e.employeeNumber);
    assert Filter(t, p) == [];
    assert Filter([EmployeeRowOf(e)], p) == [EmployeeRowOf(e)];
    EmployeeRoundTrip(e);
  }

  /** After storing a patient with a fresh name pair, looking the pair up fetches
      exactly the stored row. */
  lemma {:induction false} PatientInsertThenSelect(t: seq<PatientRow>, p: Patient)
    requires PatientsNamed(t, p.firstname, p.surname) == []
    ensures PatientsNamed(t + [PatientRowOf(p)], p.firstname, p.surname) == [PatientRowOf(p)]
  {
    FilterAppend(t, [PatientRowOf(p)], (row: PatientRow) => row.firstName == p.firstname && row.surname == p.surname);
  }

  /** Deleting by key removes only rows with that key; with unique keys, exactly the
      one row holding it, or nothing when no row does. */
  lemma DeleteRemovesExactlyKey(t: seq<AppointmentRow>, key: AppointmentKey, i: nat)
    requires AppointmentKeysUnique(t)
    ensures forall row :: row in WithoutKey(t, key) <==> row in t && row.Key() != key
    ensures i < |t| && t[i].Key() == key ==> WithoutKey(t, key) == t[..i] + t[i + 1..]
    ensures AppointmentsKeyed(t, key) == [] ==> WithoutKey(t, key) == t
  {
    var p := (row: AppointmentRow) => row.Key() != key;
    if i < |t| && t[i].Key() == key {
      forall j | 0 <= j < |t| && j != i ensures p(t[j]) {
        if j < i {
          assert t[j].Key() != t[i].Key();
        } else {
          assert t[i].Key() != t[j].Key();
        }
      }
      FilterRemovesOne(t, p, i);
    }
    if AppointmentsKeyed(t, key) == [] {
      forall j | 0 <= j < |t| ensures p(t[j]) {
        assert t[j] in t;
      }
      FilterKeepsAll(t, p);
    }
  }

  /** The appointment `insert_appointment` just stored is listed by a selection
      for its staff member, its day and its patient. */
  lemma InsertedAppointmentSelected(db: Db, a: Appointment, id: int, e: EmployeeRow)
    requires Valid(db)
    requires PatientRowId(db.patients, a.patient.firstname, a.patient.surname) == Some(id)
    requires AppointmentsKeyed(db.appointments, StoredAppointmentRow(a, id).Key()) == []
    requires e in db.employees && e.employeeNumber == a.staff.employeeNumber
    ensures JoinedRow(StoredAppointmentRow(a, id), e, db.patients[id - 1]) in
              SelectedRows(db.(appointments := db.appointments + [StoredAppointmentRow(a, id)]),
                           AppointmentFilter(Some([a.staff.employeeNumber]), Some(Day(a.date)), Some(a.patient)))
  {
    var r := StoredAppointmentRow(a, id);
    var stored := db.(appointments := db.appointments + [r]);
    InsertAppointmentKeepsValid(db, r);
    var row := JoinedRow(r, e, db.patients[id - 1]);
    var f := AppointmentFilter(Some([a.staff.employeeNumber]), Some(Day(a.date)), Some(a.patient));
    assert MatchesAll(f, row) by {
      DateFilterIsSameDay(Day(a.date), row);
    }
    assert r in stored.appointments;
    StoredAppointmentSelected(stored, f, r, e);
  }

  /** A stored appointment reads back with the same date, the staff member its
      employee row describes, a patient with the same names and — when every
      AppointmentType value is its member's name — the same type. */
  lemma StoredAppointmentReadsBack(a: Appointment, id: int, e: EmployeeRow, p: PatientRow, types: seq<AppointmentType>)
    requires RoleFromName(e.role).Some?
    requires p.firstName == a.patient.firstname && p.surname == a.patient.surname
    requires a.appointmentType in types && NamesDistinct(types) && ValuesAreNames(types)
    ensures var read := ToAppointment(JoinedRow(StoredAppointmentRow(a, id), e, p), types);
      && read.Success?
      && read.value.appointmentType == a.appointmentType
      && read.value.date == a.date
      && Some(read.value.staff) == ToEmployee(e)
      && read.value.patient.firstname == a.patient.firstname
      && read.value.patient.surname == a.patient.surname
  {
    TypeRoundTrip(types, a.appointmentType);
  }

  /** Employees read from rows are exactly the storable employees whose rows were read. */
  lemma ReadEmployeesMembers(rows: seq<EmployeeRow>, r: seq<Employee>)
    requires |r| == |rows| && forall i :: 0 <= i < |r| ==> ToEmployee(rows[i]) == Some(r[i])
    ensures forall e :: e in r <==> Persisted(e) == e && EmployeeRowOf(e) in rows
  {
    forall e ensures e in r <==> Persisted(e) == e && EmployeeRowOf(e) in rows {
      if e in r {
        var i :| 0 <= i < |r| && r[i] == e;
        ToEmployeeInverse(rows[i], e);
      }
      if Persisted(e) == e && EmployeeRowOf(e) in rows {
        var i :| 0 <= i < |rows| && rows[i] == EmployeeRowOf(e);
        ToEmployeeInverse(rows[i], e);
        assert r[i] == e;
      }
    }
  }

  /** With unique name pairs a lookup by name fetches at most one row. */
  lemma {:induction false} PatientLookupAtMostOne(t: seq<PatientRow>, firstName: string, surname: string)
    requires PatientNamesUnique(t)
    ensures |PatientsNamed(t, firstName, surname)| <= 1
  {
    if t != [] {
      var tail := t[1..];
      assert PatientNamesUnique(tail) by {
        forall i, j | 0 <= i < j < |tail| ensures tail[i].firstName != tail[j].firstName || tail[i].surname != tail[j].surname {
          assert tail[i] == t[i + 1] && tail[j] == t[j + 1];
        }
      }
      if t[0].firstName == firstName && t[0].surname == surname {
        forall j | 0 <= j < |tail| ensures !(tail[j].firstName == firstName && tail[j].surname == surname) {
          assert tail[j] == t[j + 1];
        }
        FilterKeepsNone(tail, (row: PatientRow) => row.firstName == firstName && row.surname == surname);
      } else {
        PatientLookupAtMostOne(tail, firstName, surname);
      }
    }
  }
}
