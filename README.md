# Clinic storage model

A Dafny model of the persistence layer of the clinic simulation: the `Storage`
class of `healthcare/storage.py`. It keeps three keyed tables in one SQLite
store:

- `employees`, keyed by `employee_number`;
- `patients`, keyed by `(first_name, surname)`;
- `appointments`, keyed by `(employee_number, patient_id, date)`. Here `patient_id` is a patient's rowid.

It inserts rows, and it deletes appointments. It builds optional filters and
combines them with `and`. It turns rows back into typed objects: the employee
class comes from the `role` column. It lists appointments ordered by date and
then staff name, and it lists the distinct days that have appointments.

Modules:

- `Wrappers` holds `Option` and `Result`.
- `Seqs` holds `Filter`, the rows a `WHERE` clause keeps, with its lemmas.
- `Domain` holds the roles, the three employee classes, patients, appointment types, and timestamps with their calendar day.
- `Mapper` holds the row shapes and the conversions between rows and objects.
- `Filters` holds the employee clause and parameter builder, and the appointment filters as conditions on joined rows.
- `Ordering` holds `ORDER BY a.date, e.name`.
- `Tables` holds the store as a value. It has the key invariants, the rowid subquery, the three-way join, the selection and the lemmas about them.
- `Persistence` holds the opening of the store and the `Storage` class. The class has one `seq` field per table, and the statements are its methods.

Modelling choices:

- A patient's rowid is its position plus one. Patients are never deleted and rowids start at 1.
- A timestamp is an integer count of seconds, and `Day(t) = t / 86400`.
- The date filter compares the stored `YYYY-MM-DD HH:MM:SS` text with `YYYY-MM-DD` strings. This is the range `[DayStart(d), DayStart(d + 1))`.
- An appointment type is a pair (member name, member value). `insert_appointment` stores the value, and `select_appointments` looks the text up by name. The round trip is proved only when every member's value is its own name.

## Model

| member | source | states |
|---|---|---|
| Domain.RoleFromName | healthcare/storage.py:257 | `EmployeeRole[text]` yields the role whose name is `text`, and fails exactly when no role has that name |
| Domain.DayRange | healthcare/storage.py:202 | a timestamp lies between the start of day `d` and the start of day `d + 1` exactly when it falls on day `d` |
| Mapper.ToEmployee | healthcare/storage.py:252-263 | name and number come from the row; DOCTOR gives a Doctor, NURSE a Nurse, RECEPTIONIST a Receptionist with no extra; unknown role text fails |
| Mapper.ToEmployeeInverse | healthcare/storage.py:252-263 | reading a row gives `e` if and only if the row is what storing `e` writes and `e` has nothing storage drops |
| Mapper.EmployeeRoundTrip | healthcare/storage.py:79-80 | an employee written with `role.name` reads back with the same class, name and number; a receptionist's extra comes back as None |
| Mapper.PatientRoundTrip | healthcare/storage.py:265-267 | patient rows and patients correspond one to one, in both directions |
| Mapper.TypeByName | healthcare/storage.py:182 | `AppointmentType[text]` yields a member named `text`, and fails exactly when no member has that name |
| Mapper.TypeRoundTrip | healthcare/storage.py:221 | the stored `type.value` reads back as the same member when every value is its member's name and names are distinct |
| Mapper.ToAppointment | healthcare/storage.py:182 | one joined row reads back as an appointment with the row's date, its staff member and patient, and the type named by the stored text; the type lookup comes first, so an unknown type is the error even when the role is also unknown, and otherwise an unknown role is |
| Filters.BuildEmployeeParamsAsWritten | healthcare/storage.py:240-250 | as written: with both filters the clause is `" and " + NumberTest`, which the engine rejects for every row; with at most one filter the clause selects exactly the matching rows |
| Filters.BuildEmployeeParams | healthcare/storage.py:240-250 | no filter gives no clause and no parameters; the parameter keys are exactly the filters given; the clause begins with `" where "`, its conditions are joined by `" and "`, and it selects exactly the matching rows |
| Filters.DateFilterIsSameDay | healthcare/storage.py:200-202 | the date filter keeps exactly the appointments on that calendar day |
| Ordering.OrderByDateNameCorrect | healthcare/storage.py:174 | the result order is sorted by date, then by staff name in binary collation, and is a permutation of its input |
| Tables.PatientRowId | healthcare/storage.py:219 | the subquery yields the rowid of a row with that name pair, and NULL exactly when no row has it |
| Tables.JoinAllMembers | healthcare/storage.py:168-170 | the join holds exactly the stored appointments combined with the employee row of their number and the patient row of their rowid |
| Tables.SelectedRowsSpec | healthcare/storage.py:164-178 | the fetched rows are exactly the joined rows that pass every filter given, as a permutation, sorted by date then staff name |
| Tables.EmptyNumberListSelectsNothing | healthcare/storage.py:196-198 | an explicitly empty employee-number list, which is the default, selects nothing |
| Tables.DayFilterSelectsThatDay | healthcare/storage.py:200-202 | with a day filter every fetched appointment falls on that day |
| Tables.OrphanAppointmentNeverSelected | healthcare/storage.py:168-170 | an appointment whose employee number has no employee row is in no selection |
| Tables.StoredAppointmentSelected | healthcare/storage.py:164-178 | in a valid store an appointment with an existing employee is fetched by every filter combination it passes |
| Tables.EmptyDbValid | healthcare/storage.py:33-52 | freshly created tables satisfy every key constraint |
| Tables.InsertEmployeeKeepsValid | healthcare/storage.py:79-80 | inserting an employee with a fresh number keeps every constraint |
| Tables.InsertPatientKeepsValid | healthcare/storage.py:151-152 | inserting a patient with a fresh name pair keeps every constraint |
| Tables.InsertAppointmentKeepsValid | healthcare/storage.py:217-223 | inserting an appointment with a resolved patient and a fresh key keeps every constraint |
| Tables.DeleteKeepsValid | healthcare/storage.py:233-238 | deleting appointments keeps every constraint |
| Tables.EmployeeInsertThenSelect | healthcare/storage.py:62-65 | after inserting an employee with a fresh number, selecting by that number fetches exactly its row, which reads back as the same class, name and number |
| Tables.PatientInsertThenSelect | healthcare/storage.py:139-141 | after inserting a patient with a fresh name pair, looking the pair up fetches exactly the stored row |
| Tables.DeleteRemovesExactlyKey | healthcare/storage.py:233-238 | deleting by key keeps exactly the rows with another key; with unique keys it removes the one row holding the key, or nothing |
| Tables.InsertedAppointmentSelected | healthcare/storage.py:217-223 | a just-inserted appointment whose employee row exists is fetched by a selection for its staff number, its day and its patient |
| Tables.StoredAppointmentReadsBack | healthcare/storage.py:182 | a stored appointment reads back with its date, the stored staff member and the patient's names; when values are names it also has its type |
| Tables.ReadEmployeesMembers | healthcare/storage.py:66-68 | the objects read from rows are exactly the storable employees whose rows were fetched |
| Tables.PatientLookupAtMostOne | healthcare/storage.py:139-141 | with the name-pair key, a lookup by name fetches at most one row |
| Persistence.OpenAsWritten | healthcare/storage.py:28-33 | as written: `reset` without a store file raises; a missing or removed file gives empty tables; an existing file is reused |
| Persistence.DefaultResetWithoutFileFailsAsWritten | healthcare/storage.py:21-29 | `Storage()` with its default `reset=True` raises when no store file exists |
| Persistence.Open | healthcare/storage.py:21-52 | as documented: opening never raises; reset or a missing file gives empty tables; otherwise the existing store is reused |
| Persistence.OpenAgreesWhereWrittenSucceeds | healthcare/storage.py:28-33 | the corrected opening agrees with the written one wherever that one succeeds, and it yields a valid store whenever a reused prior store is valid |
| Persistence.ReadAppointments | healthcare/storage.py:180-183 | one appointment per fetched row, in order, or the error of the first row that cannot be read |
| Persistence.Storage.constructor | healthcare/storage.py:21-52 | the tables are those the corrected opening yields, and they are valid |
| Persistence.Storage.FetchEmployeeRows | healthcare/storage.py:62-65 | with the corrected builder (see Findings), the clause and parameters fetch exactly the employee rows matching the filters, in rowid order |
| Persistence.Storage.SelectEmployee | healthcare/storage.py:54-69 | with the corrected builder (see Findings): one object per fetched row; the result holds exactly the storable employees whose rows are stored and match the filters |
| Persistence.Storage.InsertEmployee | healthcare/storage.py:71-80 | a taken number raises a uniqueness error and changes nothing; otherwise the row is appended; other tables are untouched |
| Persistence.Storage.SelectDoctors | healthcare/storage.py:82-90 | exactly the stored doctors; the number argument is ignored |
| Persistence.Storage.SelectNurses | healthcare/storage.py:92-100 | exactly the stored nurses; the number argument is ignored |
| Persistence.Storage.SelectReceptionists | healthcare/storage.py:102-110 | exactly the stored receptionists, with no extra; the number argument is ignored |
| Persistence.Storage.SelectPatients | healthcare/storage.py:112-125 | every stored patient, one per row, in rowid order |
| Persistence.Storage.SelectPatient | healthcare/storage.py:127-141 | None exactly when no row has the name pair; otherwise the one stored patient with it |
| Persistence.Storage.InsertPatient | healthcare/storage.py:143-152 | a taken name pair raises a uniqueness error and changes nothing; otherwise the row is appended |
| Persistence.Storage.SelectAppointments | healthcare/storage.py:154-183 | the fetched rows read back one by one in date order; it fails exactly when some row's stored type names no member, with the first such row's error |
| Persistence.Storage.SelectAppointmentDates | healthcare/storage.py:185-194 | each day that holds a stored appointment, each once, and no other day |
| Persistence.Storage.InsertAppointment | healthcare/storage.py:209-223 | an unknown patient raises NOT NULL; a taken key raises a uniqueness error; otherwise the row is appended; the employee is not checked |
| Persistence.Storage.DeleteAppointment | healthcare/storage.py:225-238 | removes the rows with the appointment's key, and nothing when the patient is unknown; other tables are untouched |

## Left out

- The SQLite engine, the SQL text, and `_execute` with its cursor and commit (healthcare/storage.py:269-281). Each statement is modelled by its effect on the table values.
- File-system effects. The store file's prior contents are a constructor parameter, and a missing file is None. When the store is reused (no reset), the constructor requires it to satisfy the key constraints, as one written by this class does.
- SQLite type affinity. `appointments.employee_number` is declared INTEGER, so SQLite stores numeric-looking numbers as integers, and `"007"` and `"7"` would then compare equal. The model compares employee numbers as text, which is exact for numbers that are not numeric text.
- The filters are built by formatting values into double-quoted SQL text. A value that names a column, or that contains a quote, would change the statement. The model treats each value as a literal.
- Date formatting and parsing. `STRFTIME("%d-%m-%Y")` and `strptime` are not modelled: days are day numbers and timestamps are integer seconds. Comparing and ordering the stored `YYYY-MM-DD HH:MM:SS` text is taken to agree with comparing seconds, which holds for four-digit years and whole seconds.
- Persistence.Storage.SelectEmployee: uses the corrected clause builder. With both a role and a number, the code as written raises (healthcare/storage.py:248), which `Filters.BuildEmployeeParamsAsWritten` captures; the class returns the matching employees instead. The same holds for `Persistence.Storage.FetchEmployeeRows`.
- Persistence.Storage.SelectAppointmentDates: returns day numbers rather than `DD-MM-YYYY` strings, and does not fix their order, which SQL leaves open.
- Persistence.Storage.SelectAppointments: the day filter is a day number. The source would also accept a `datetime`, whose text would filter from that instant on. Rows with equal date and staff name come back in the order of the appointments table (rowid order). The insertion sort keeps that order, but SQL does not promise it.
- Row order of a `SELECT` without `ORDER BY` is taken to be rowid order. This is SQLite's scan order, but SQL does not promise it.
- `appointment_type.py`, `employee_role.py`, `employee.py`, `doctor.py` and `receptionist.py` are not part of this model. EmployeeRole has the three members DOCTOR, NURSE and RECEPTIONIST. Each employee class fixes its role. The receptionist's third argument is an opaque value.
- Mapper.TypeRoundTrip: the appointment-type round trip is proved only when every member's value equals its name. The source stores the value and reads it back by name.
- The console dialogue, the nurse's random consultation text and the fire-staff screen are not modelled. They are I/O and randomness with no table logic.
- The code checks only that the patient exists when inserting an appointment, not the employee, and the model does the same.

## Findings

| source | as written | input that shows it | evidently intended | confidence | as-written member | corrected member |
|---|---|---|---|---|---|---|
| healthcare/storage.py:28-29 | `reset` calls `os.remove` unconditionally | `Storage()` (default `reset=True`) when `clinic.db` does not exist raises FileNotFoundError | remove the store only if present, as the docstring's "re-initialized (if present)" says | high; not executed | Persistence.DefaultResetWithoutFileFailsAsWritten | Persistence.Open |
| healthcare/storage.py:247-248 | the number condition replaces the role condition | `select_employee(role=DOCTOR, employee_number="E1")` builds `" and employee_number = :employee_number"`, so the statement reads `... FROM employees and employee_number = ...`, a syntax error | `" where role = :role and employee_number = :employee_number"` | high; not executed | Filters.BuildEmployeeParamsAsWritten | Filters.BuildEmployeeParams |
