# Attendance tracker and employee directory, modelled in Dafny

This project models the business rules of the two service classes of an HR
record-keeping backend:

- **AttendanceServiceImpl**: a per-employee open/closed state machine over the
  attendance table. Check-in opens a row. Check-out closes the employee's
  highest-id row, using the clock for a row of today and the half-day rule
  (first check-in of that date plus four hours) for a stale row. Regularize
  inserts a retroactive closed row. The service also has a monthly rollup, a
  patch update, a delete, and lookups by id and by date.
- **EmployeeServiceImpl**: guard-then-mutate rules over the employee and
  employee-profile tables. These cover adding, patching and deleting
  employees, patching and adding profiles, appending skills, and the
  manager-assignment guard chain. They also cover listings where an empty
  result is an error, birthdays, and the ten newest employees.

Layout:

- `common.dfy` (module `Common`) holds what both services share:
  - `Option`, and `Result` for "returns a value or throws";
  - `Failure`, the exception class plus its message;
  - `Date` (a `LocalDate`);
  - `Tod`, a `LocalTime` as seconds in [0, 86400), with `isBefore`/`isAfter` strict and `plusHours` wrapping at midnight;
  - `RepoHelper`, the helper collaborator.
- `attendance.dfy` (module `AttendanceTracking`):
  - read-only queries are functions over the table `seq<Attendance>`;
  - the mutating operations are methods of class `AttendanceTracker`, whose fields are the table and the next generated id.
- `employees.dfy` (module `Employees`):
  - read-only queries are functions over the employee and profile tables;
  - the mutating operations are methods of class `EmployeeDirectory`.

Modelling choices:

- Each table is a sequence in save order. Generated ids ascend along it; that is the `Valid()` invariant of each class. "Highest id" is therefore "last in the table", and the by-date query lists a day's rows in id order.
- The clock is a parameter. The operations that read it take `today: Date` and `now: Tod`.
- The employee repository's ids are a parameter `staff` of the attendance operations that call `employeeRepo.findById`.
- The `RepoHelper` operations (`findTimeBetweenTimestamps`, `getDaysInMonth`, `getTotalTimeInDay`, `isEmployeeExist`) are arbitrary total functions, carried as fields of a `RepoHelper` value. Nothing is assumed about them.
- Check-in looks up the employee's last row with `findTopByEmployeeEmployeeIdOrderByEmployeeEmployeeIdDesc`. That query orders rows that all have the same employee id, so the store may return any of the employee's rows. The parameter `pick` is the position, among the employee's rows, of the row the store returns.
- `BeanUtils.copyProperties(src, dst, getNullPropertyNames(src))` is modelled per field. A patch record holds an `Option` per property. For attendance rows, employees and profiles alike, a loop collects the null property names, and a copy takes every property not in that set. A lemma shows that together they give the patch semantics (`IsPatchOf`, `IsEmployeePatchOf`, `IsProfilePatchOf`).
- A Java exception is `Err(Failure(kind, message))`. A null dereference is `NullPointerException`, and `get(0)` on an empty list is `IndexOutOfBoundsException`. Unreachable branches of the source are `assert false`: the unreachable check-in error, the "Overlapping" branch of regularize, its final empty-list error, and the assignment in manager assignment.

Behaviour of the code worth noting:

- Regularize never compares the window's end with the next row. It inserts after the first row, other than the last one, whose check-out is before `from`. A window that overlaps a later row is accepted (`OverlappingWindowFits`), and "Attendance Time is Overlapping" is never thrown.
- Check-out of an employee with no attendance row fails with `IndexOutOfBoundsException` from `get(0)`, not with the "check in first" error.
- Check-in looks at an unspecified row of the employee rather than the most recent one, so a second open row can be opened (`CheckInMayOpenSecondRow`).
- `findByBirthDate` compares the whole date, year included. Only profiles whose birth date equals today match.
- The listings of leaves and attendances are guarded by the task list.
- The HR role test is always false.
- The half-day rule can produce a check-out earlier than the check-in of the row it closes (`HalfDayMayPrecedeCheckIn`).

## Model

| member | source | states |
|---|---|---|
| `Common.HourOf` | src/main/java/com/clayfin/service/AttendanceServiceImpl.java:133 | `getHour` is the unique hour h with h hours <= t < h+1 hours, in [0, 24) |
| `Common.PlusHoursAdvancesHourField` | src/main/java/com/clayfin/service/AttendanceServiceImpl.java:279 | `plusHours` keeps minutes and seconds and advances the hour field modulo 24 (wraps past midnight) |
| `AttendanceTracking.IndexOfId` | src/main/java/com/clayfin/service/AttendanceServiceImpl.java:78 | `findById` finds a row with that id exactly when one exists |
| `AttendanceTracking.IsAttendanceExist` | src/main/java/com/clayfin/service/AttendanceServiceImpl.java:184-188 | true exactly when some row has the id |
| `AttendanceTracking.GetAttendanceByAttendanceId` | src/main/java/com/clayfin/service/AttendanceServiceImpl.java:76-81 | returns the row with that id when it exists; otherwise AttendanceException with the attendance id |
| `AttendanceTracking.RowsOn` | src/main/java/com/clayfin/service/AttendanceServiceImpl.java:51 | the by-date query lists exactly the employee's rows of that date, ids ascending when the table's are |
| `AttendanceTracking.GetAttendanceByDateAndEmployeeId` | src/main/java/com/clayfin/service/AttendanceServiceImpl.java:47-59 | throws exactly when the employee has no row that date, else returns the non-empty list of those rows |
| `AttendanceTracking.GetAttendanceByEmployeeId` | src/main/java/com/clayfin/service/AttendanceServiceImpl.java:64-74 | today's rows; throws (with the by-date message, the second test never fires) exactly when there are none |
| `AttendanceTracking.EmployeeRows` | src/main/java/com/clayfin/service/AttendanceServiceImpl.java:225 | exactly the employee's rows, among which the top-1 query picks one |
| `AttendanceTracking.LastRowIndex` | src/main/java/com/clayfin/service/AttendanceServiceImpl.java:210-213 | `findByUserId` picks an employee row with no later employee row; none exactly when the employee has no row |
| `AttendanceTracking.LastRowHasHighestId` | src/main/java/com/clayfin/service/AttendanceServiceImpl.java:211 | with ascending ids, the picked row has the highest id of the employee's rows (ORDER BY id DESC, first result) |
| `AttendanceTracking.FirstRowOfDayHasLowestId` | src/main/java/com/clayfin/service/AttendanceServiceImpl.java:267 | the `get(0)` row of the by-date list has the lowest id of that day's rows |
| `AttendanceTracking.CheckInRefused` | src/main/java/com/clayfin/service/AttendanceServiceImpl.java:225-227 | refusal implies an open row exists; when every row of the employee is open, refusal happens exactly when a row exists |
| `AttendanceTracking.CheckInMayOpenSecondRow` | src/main/java/com/clayfin/service/AttendanceServiceImpl.java:225-227 | with a closed and an open row, a store that returns the closed one lets check-in open a second row |
| `AttendanceTracking.AttendanceTracker.CheckInAttendance` | src/main/java/com/clayfin/service/AttendanceServiceImpl.java:218-253 | unknown employee: EmployeeException; returned row open: "CheckOut First To Check In"; otherwise exactly one open row (employee, today, now) appended, no row changed |
| `AttendanceTracking.CheckOutTime` | src/main/java/com/clayfin/service/AttendanceServiceImpl.java:269-281 | today's row closes at the clock; an earlier row closes at four hours past the check-in of a row of the same employee and date, the lowest-id one when ids ascend |
| `AttendanceTracking.Closed` | src/main/java/com/clayfin/service/AttendanceServiceImpl.java:284-287 | the closed row has check-out set and spent time the helper's duration from its check-in to that check-out; no other field changes |
| `AttendanceTracking.SameDayCheckOutIsNow` | src/main/java/com/clayfin/service/AttendanceServiceImpl.java:269-271 | a row of today is closed at the current time |
| `AttendanceTracking.StaleCheckOutIsHalfDay` | src/main/java/com/clayfin/service/AttendanceServiceImpl.java:276-280 | a row of an earlier date is closed at `PlusHours(check-in of that date's first row, 4)`, whatever the clock says (the hour field advances modulo 24 by `Common.PlusHoursAdvancesHourField`) |
| `AttendanceTracking.HalfDayMayPrecedeCheckIn` | src/main/java/com/clayfin/service/AttendanceServiceImpl.java:279-287 | the half-day check-out can be earlier than the closed row's check-in, or wrap past midnight |
| `AttendanceTracking.AttendanceTracker.CheckOutAttendance` | src/main/java/com/clayfin/service/AttendanceServiceImpl.java:260-295 | helper says no employee: EmployeeException; no row: `get(0)` fails; highest-id row closed: "You Have To Check In First"; else only that row changes: check-out set (now or half-day) and spent time = timeBetween(check-in, check-out) |
| `AttendanceTracking.ScanFrom` | src/main/java/com/clayfin/service/AttendanceServiceImpl.java:140-173 | the loop finds the first i < size-1 whose check-out is before `from`, or a null check-out before it, or no fit; rows before the result all have check-outs not before `from` |
| `AttendanceTracking.OneRowNeverFits` | src/main/java/com/clayfin/service/AttendanceServiceImpl.java:140 | with one row of the day the loop never runs, so the result is "Cannot Reguralize" |
| `AttendanceTracking.OverlappingWindowFits` | src/main/java/com/clayfin/service/AttendanceServiceImpl.java:140-152 | a window overlapping the next row is accepted: the end of the window is never compared |
| `AttendanceTracking.WindowBeforeFirstRowRefused` | src/main/java/com/clayfin/service/AttendanceServiceImpl.java:140-141 | a window before all rows of the day finds no fit |
| `AttendanceTracking.RegularizedRow` | src/main/java/com/clayfin/service/AttendanceServiceImpl.java:143-152 | the inserted row is exactly the row a check-in at `from` closed at `to` would be |
| `AttendanceTracking.AttendanceTracker.Regularize` | src/main/java/com/clayfin/service/AttendanceServiceImpl.java:124-182 | order of refusals: employee, hour field of the span > 2, no rows that date; then one closed row (from, to, date, employee, timeBetween(from, to)) is appended iff the scan fits; "Overlapping" is never thrown |
| `AttendanceTracking.GetAttendanceByMonthAndEmployeeId` | src/main/java/com/clayfin/service/AttendanceServiceImpl.java:190-204 | exactly getDaysInMonth entries (none when below 1); entry k is the helper's summary of day k+1 |
| `AttendanceTracking.GetNullPropertyNames` | src/main/java/com/clayfin/service/AttendanceServiceImpl.java:97-110 | the set holds exactly the patch's null properties |
| `AttendanceTracking.CopyProperties` | src/main/java/com/clayfin/service/AttendanceServiceImpl.java:92 | the copy never changes the row's id, and ignoring every property leaves the row unchanged |
| `AttendanceTracking.CopyIgnoringNullsIsPatch` | src/main/java/com/clayfin/service/AttendanceServiceImpl.java:92 | copying all properties except the null ones: non-null fields overwrite, null fields keep the stored value, id unchanged |
| `AttendanceTracking.PatchIsDeterminedAndIdempotent` | src/main/java/com/clayfin/service/AttendanceServiceImpl.java:92 | the patched row is unique, patching twice equals patching once, an all-null patch changes nothing |
| `AttendanceTracking.AttendanceTracker.UpdateAttendance` | src/main/java/com/clayfin/service/AttendanceServiceImpl.java:84-95 | unknown id: AttendanceException and no change; otherwise only that row changes, to the patch of it |
| `AttendanceTracking.AttendanceTracker.DeleteAttendance` | src/main/java/com/clayfin/service/AttendanceServiceImpl.java:115-122 | unknown id: AttendanceException; otherwise exactly that row is removed and returned as it was; no row with that id remains |
| `Employees.IndexOfEmployee` | src/main/java/com/clayfin/service/EmployeeServiceImpl.java:95 | `findById` finds an employee with that id exactly when one exists |
| `Employees.GetEmployeeById` | src/main/java/com/clayfin/service/EmployeeServiceImpl.java:93-97 | returns the employee with that id, or EmployeeException when none |
| `Employees.GetEmployeeByEmail` | src/main/java/com/clayfin/service/EmployeeServiceImpl.java:106-111 | returns an employee with that email exactly when one exists, else EmployeeException with the email |
| `Employees.GetAllEmployees` | src/main/java/com/clayfin/service/EmployeeServiceImpl.java:113-122 | throws exactly when the table is empty, else returns it |
| `Employees.GetEmployeeManager` | src/main/java/com/clayfin/service/EmployeeServiceImpl.java:124-135 | unknown employee: EmployeeException with the task-not-found message; no manager: error; else the manager reference |
| `Employees.SubEmployees` | src/main/java/com/clayfin/service/EmployeeServiceImpl.java:143 | exactly the employees whose manager is the given one |
| `Employees.GetEmployeesOfManager` | src/main/java/com/clayfin/service/EmployeeServiceImpl.java:137-148 | unknown manager: error without the id; no reports: EMPLOYEES_NOT_FOUND; else the non-empty list of exactly its reports |
| `Employees.GetAllTaskMyEmployeeId` | src/main/java/com/clayfin/service/EmployeeServiceImpl.java:150-160 | TaskException exactly when the task list is empty, else the task list |
| `Employees.GetAllLeavesByEmployeeId` | src/main/java/com/clayfin/service/EmployeeServiceImpl.java:162-171 | LeaveException exactly when the TASK list is empty, else the leave list unchanged (possibly empty) |
| `Employees.GetAllAttendanceByEmployeeId` | src/main/java/com/clayfin/service/EmployeeServiceImpl.java:173-184 | AttendanceException exactly when the TASK list is empty, else the attendance list unchanged (possibly empty) |
| `Employees.ListingsFollowTheTaskList` | src/main/java/com/clayfin/service/EmployeeServiceImpl.java:162-184 | leaves without tasks are refused; tasks without leaves give an empty list |
| `Employees.GetAllLeavesByEmployeeIdIntended` | src/main/java/com/clayfin/service/EmployeeServiceImpl.java:166-167 | corrected guard: succeeds exactly when the leave list is non-empty, and returns it |
| `Employees.GetAllAttendanceByEmployeeIdIntended` | src/main/java/com/clayfin/service/EmployeeServiceImpl.java:178-179 | corrected guard: succeeds exactly when the attendance list is non-empty, and returns it |
| `Employees.ProfileIndexOf` | src/main/java/com/clayfin/service/EmployeeServiceImpl.java:235 | finds a profile linked to the employee exactly when one exists |
| `Employees.GetEmployeeProfileByEmployeeId` | src/main/java/com/clayfin/service/EmployeeServiceImpl.java:232-238 | throws exactly when the helper says the employee does not exist; otherwise the linked profile, or null when there is none |
| `Employees.NewestFirst` | src/main/java/com/clayfin/service/EmployeeServiceImpl.java:271 | the min(n, size) last rows, last first |
| `Employees.GetAllNewEmployees` | src/main/java/com/clayfin/service/EmployeeServiceImpl.java:268-274 | at most ten employees, the highest-positioned first |
| `Employees.NewEmployeesHaveHighestIds` | src/main/java/com/clayfin/service/EmployeeServiceImpl.java:271 | every employee left out has a lower id than each of the ten |
| `Employees.BirthdayProfiles` | src/main/java/com/clayfin/service/EmployeeServiceImpl.java:260 | exactly the profiles whose birth date equals the given date |
| `Employees.GetAllBirthdayEmployeesBy` | src/main/java/com/clayfin/service/EmployeeServiceImpl.java:255-265 | one entry per matched profile, in profile order: that profile's employee |
| `Employees.ManagerAssignmentGuards` | src/main/java/com/clayfin/service/EmployeeServiceImpl.java:188-202 | passes exactly when HR, employee and manager exist, the manager is ROLE_MANAGER, managerId is not employeeId and the employee has no manager; errors in source order: HR, employee, manager not found (HR's message carries the employee id), then "Manager Id Not Correct", then "Manager Himself Cannot me Manager", then "Employee Manager Already Exist" |
| `Employees.SelfAssignmentOfNonManager` | src/main/java/com/clayfin/service/EmployeeServiceImpl.java:195-199 | self-assignment of a non-manager is reported as "Manager Id Not Correct", since that guard runs first |
| `Employees.HrRoleEqualsString` | src/main/java/com/clayfin/service/EmployeeServiceImpl.java:203 | an enum never equals a String: never true; a null role is dereferenced |
| `Employees.HrRoleTestRejectsHr` | src/main/java/com/clayfin/service/EmployeeServiceImpl.java:203 | ROLE_HR fails the test as written and passes the intended one |
| `Employees.EmployeeDirectory.SetManagerToEmployeeByHr` | src/main/java/com/clayfin/service/EmployeeServiceImpl.java:186-217 | always throws: the first failing guard's error, else NOT_VALID_HR (or a null dereference); no table changes |
| `Employees.Assigned` | src/main/java/com/clayfin/service/EmployeeServiceImpl.java:204-208 | after assignment the employee has the manager's id and username, the request's role and title, and every other field as before |
| `Employees.EmployeeDirectory.SetManagerToEmployeeByHrIntended` | src/main/java/com/clayfin/service/EmployeeServiceImpl.java:203-214 | corrected HR test: passing guards plus ROLE_HR set manager, reporting-to, role and title of that employee only |
| `Employees.GetNullEmployeePropertyNames` | src/main/java/com/clayfin/service/EmployeeServiceImpl.java:79-91 | the set holds exactly the employee patch's null properties |
| `Employees.CopyEmployeeProperties` | src/main/java/com/clayfin/service/EmployeeServiceImpl.java:59 | the copy never changes the employee id, and ignoring every property leaves the employee unchanged |
| `Employees.CopyIgnoringNullsIsEmployeePatch` | src/main/java/com/clayfin/service/EmployeeServiceImpl.java:59 | copying all properties except the null ones: non-null fields overwrite, null fields keep the stored value, id unchanged |
| `Employees.EmployeePatchIsDeterminedAndIdempotent` | src/main/java/com/clayfin/service/EmployeeServiceImpl.java:59 | the patched employee is unique, patching twice equals patching once, an all-null patch changes nothing |
| `Employees.GetNullProfilePropertyNames` | src/main/java/com/clayfin/service/EmployeeServiceImpl.java:79-91 | the set holds exactly the profile patch's null properties |
| `Employees.CopyProfileProperties` | src/main/java/com/clayfin/service/EmployeeServiceImpl.java:72 | the copy never changes the profile id, and ignoring every property leaves the profile unchanged |
| `Employees.CopyIgnoringNullsIsProfilePatch` | src/main/java/com/clayfin/service/EmployeeServiceImpl.java:72 | copying all properties except the null ones gives the profile patch semantics |
| `Employees.ProfilePatchIsDeterminedAndIdempotent` | src/main/java/com/clayfin/service/EmployeeServiceImpl.java:72 | the patched profile is unique, patching twice equals patching once, an all-null patch changes nothing |
| `Employees.EmployeeDirectory.AddEmployee` | src/main/java/com/clayfin/service/EmployeeServiceImpl.java:46-53 | null: EmployeeException; otherwise appended under a new id with joining date today, other fields as given, and the id counter advances |
| `Employees.EmployeeDirectory.UpdateEmployee` | src/main/java/com/clayfin/service/EmployeeServiceImpl.java:55-64 | missing by lookup or helper: EmployeeException; else only that employee changes, to the patch of it |
| `Employees.EmployeeDirectory.UpdateEmployeeProfileByEmployeeId` | src/main/java/com/clayfin/service/EmployeeServiceImpl.java:67-77 | helper says missing, or no profile: EmployeeException; else only that profile changes, to the patch of it |
| `Employees.EmployeeDirectory.AddEmployeeProfileData` | src/main/java/com/clayfin/service/EmployeeServiceImpl.java:242-252 | unknown employee, null manager, missing manager are errors in that order; else a profile linked to the employee with the manager's username is appended |
| `Employees.EmployeeDirectory.DeleteEmployee` | src/main/java/com/clayfin/service/EmployeeServiceImpl.java:99-104 | unknown id: EmployeeException; else exactly that employee is removed and returned as it was |
| `Employees.EmployeeDirectory.UpdateSkillSet` | src/main/java/com/clayfin/service/EmployeeServiceImpl.java:221-230 | unknown employee: EmployeeException; else the skill list becomes the old list followed by the given skills, nothing deduplicated |

## Findings

| source | as written | input that shows it | evidently intended | confidence | as-written member | corrected member |
|---|---|---|---|---|---|---|
| src/main/java/com/clayfin/service/EmployeeServiceImpl.java:203 | `hr.getRole().equals("ROLE_HR")` compares a `RoleType` with a `String`, which is always false | an HR whose role is ROLE_HR assigns a ROLE_MANAGER manager to an employee with no manager: NOT_VALID_HR is thrown | the test passes when the HR's role is ROLE_HR | high (not executed) | `Employees.HrRoleTestRejectsHr` | `Employees.EmployeeDirectory.SetManagerToEmployeeByHrIntended` |
| src/main/java/com/clayfin/service/EmployeeServiceImpl.java:166 | the leave listing refuses when the task list is empty | an employee with leave records and no tasks: LeaveException; one with tasks and no leave: empty list | refuse when the leave list is empty, as the message says | high (not executed) | `Employees.ListingsFollowTheTaskList` | `Employees.GetAllLeavesByEmployeeIdIntended` |
| src/main/java/com/clayfin/service/EmployeeServiceImpl.java:178 | the attendance listing refuses when the task list is empty | an employee with attendances and no tasks: AttendanceException | refuse when the attendance list is empty, as the message says | high (not executed) | `Employees.ListingsFollowTheTaskList` | `Employees.GetAllAttendanceByEmployeeIdIntended` |

## Left out

- Spring and JPA plumbing (`@Autowired`, `@Transactional`, `EntityManager` queries, derived query names): each query is a function over the table.
- Neither the by-date attendance query nor `findByBirthDate` has an ORDER BY. The model lists both results in table (id) order. The by-date query's `get(0)` is therefore the day's lowest-id row, and `GetAllBirthdayEmployeesBy` returns employees in profile order; the store may return either result in another order.
- `findByUserIdFirstRecord` is never called, so it is not modelled.
- The `RepoHelper` code is not part of this model: durations, days in a month, leap years and per-day summaries are arbitrary functions. A count of 29 days for February 2024 is therefore not provable here.
- `GetAttendanceByMonthAndEmployeeId`: `LocalDate.of(year, month, i)` throws `DateTimeException` for a month outside 1..12 or a day beyond the month's length. The model does not check either, so it returns entries where the source throws. It trusts the helper's day count and month.
- The clock and the fixed +05:30 offset are parameters. `LocalTime` is kept to the second, with no nanoseconds.
- Concurrency: the check-then-act race between two check-ins of one employee is outside in-process logic.
- `System.out.println` logging.
- `AttendanceService.java` is an interface with no behaviour.
- Reflection in `BeanUtils.copyProperties`: the patch is an explicit record of optional fields. Id properties are not part of a patch. A non-null id in a patch would change the loaded entity's identifier before `save`. Depending on the persistence context, the store then rejects the change or writes another row, and neither outcome is modelled.
- `save` of an entity that already carries an id (a merge) is not modelled. `AddEmployee` and `AddEmployeeProfileData` always insert under a newly generated id.
- `Employees.EmployeeDirectory.SetManagerToEmployeeByHr`: the boxed `Integer ==` at EmployeeServiceImpl.java:198 is modelled as value equality. Java compares references for ids outside -128..127, so there a self-assignment would pass that guard.
- Null strings, null collections and null check-in times are not represented. Username, email, title and reporting-to are plain strings, and a row's check-in is always set.
- Only the birth date, reporting-to name and employee link of a profile are modelled. The other biographical fields are not part of this model.
- Entity references are ids:
  - an employee's manager;
  - a profile's employee;
  - the tasks, leave records and attendances an employee owns.

  So `GetEmployeeManager` returns the manager's id and `GetAllBirthdayEmployeesBy` returns the employees' ids.
- `deleteEmployee`'s effect on rows owned by or referring to the employee is not modelled (cascade or foreign-key refusal). Those rows are left as they are.
- `updateSkillSet` called with the employee's own skill list as argument would throw a `ConcurrentModificationException`. The model's arguments are values, so this case does not arise.
- `addEmployee` ignores its `hrId` argument, and so does the model.
- Null request objects and ids are not represented. The source throws a null dereference (or a Spring argument error) for each of these:
  - a null patch passed to `updateEmployee`, `updateEmployeeProfileByEmployeeId` or `updateAttendance`;
  - a null profile passed to `addEmployeeProfileData`;
  - a null DTO or null `managerId` passed to `setManagerToEmployeeByHr`;
  - a null `skills` list passed to `updateSkillSet`, which its loop dereferences;
  - a null id.

  Only the null employee of `addEmployee` is modelled (an `Option`).
- Uniqueness is not part of the tables' invariant:
  - two employees may share an email, and an employee may have two profiles;
  - `findByEmail` and `findByEmployeeEmployeeId` are single-result queries, so the store throws when two rows match;
  - `GetEmployeeByEmail`, `ProfileIndexOf` and `GetEmployeeProfileByEmployeeId` return the first match instead.

  The entity mappings that would declare the uniqueness are not part of this model. `AddEmployee`, `UpdateEmployee` and `AddEmployeeProfileData` do not refuse a duplicate.
- The id lists an employee carries (`tasks`, `leaveRecords`, `attendances`) are not connected to the attendance table of `AttendanceTracker`. The two services are modelled over separate state.
