/** The clinic's domain entities as the persistence layer sees them. */
module Domain {
  import opened Wrappers

  /** EmployeeRole: the discriminator stored in the `role` column, by member name. */
  datatype EmployeeRole = DOCTOR | NURSE | RECEPTIONIST

  /** `role.name`, the text written to the `role` column. */
  function RoleName(role: EmployeeRole): string
  {
    match role
    case DOCTOR => "DOCTOR"
    case NURSE => "NURSE"
    case RECEPTIONIST => "RECEPTIONIST"
  }

  /** `EmployeeRole[text]`: lookup by member name; any other text raises (None). */
  function RoleFromName(text: string): (r: Option<EmployeeRole>)
    ensures r.Some? ==> RoleName(r.value) == text
    ensures r.None? <==> forall role: EmployeeRole :: RoleName(role) != text
  {
    if text == "DOCTOR" then Some(DOCTOR)
    else if text == "NURSE" then Some(NURSE)
    else if text == "RECEPTIONIST" then Some(RECEPTIONIST)
    else None
  }

  /** The receptionist's third constructor argument; it is never persisted. */
  datatype Extra = Extra(token: nat)

  /** Employee and its three concrete classes; each class fixes its role. */
  datatype Employee =
    | Doctor(name: string, employeeNumber: string)
    | Nurse(name: string, employeeNumber: string)
    | Receptionist(name: string, employeeNumber: string, extra: Option<Extra>)
  {
    function Role(): EmployeeRole
    {
      match this
      case Doctor(_, _) => DOCTOR
      case Nurse(_, _) => NURSE
      case Receptionist(_, _, _) => RECEPTIONIST
    }
  }

  datatype Patient = Patient(firstname: string, surname: string, address: string, phone: string)

  /** A member of the AppointmentType enumeration: its member name and its value,
      both as the text the `type` column would hold. */
  datatype AppointmentType = AppointmentType(name: string, value: string)

  /** A point in time with second precision: seconds since midnight of day 0. */
  type Timestamp = int

  datatype Appointment = Appointment(appointmentType: AppointmentType, staff: Employee, patient: Patient, date: Timestamp)

  const SecondsPerDay: int := 86400

  /** The calendar day a timestamp falls on (days since day 0). */
  function Day(t: Timestamp): int
  {
    t / SecondsPerDay
  }

  /** Midnight at the start of day `d`: the timestamp `YYYY-MM-DD` denotes when compared with a stored date. */
  function DayStart(d: int): Timestamp
  {
    d * SecondsPerDay
  }

  /** A timestamp lies in `[DayStart(d), DayStart(d + 1))` exactly when it falls on day `d`. */
  lemma DayRange(t: Timestamp, d: int)
    ensures DayStart(d) <= t < DayStart(d + 1) <==> Day(t) == d
  {
    var q, m := t / SecondsPerDay, t % SecondsPerDay;
    assert t == q * SecondsPerDay + m && 0 <= m < SecondsPerDay;
    if q < d {
      assert q + 1 <= d;
      assert (q + 1) * SecondsPerDay <= d * SecondsPerDay;
    } else if q > d {
      assert d + 1 <= q;
      assert (d + 1) * SecondsPerDay <= q * SecondsPerDay;
    }
  }
}
