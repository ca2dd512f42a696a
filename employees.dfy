/** The employee directory (`EmployeeServiceImpl`): guard-then-mutate rules
    over the employee table and the employee-profile table. Both tables are
    sequences in the order rows were saved, so ids ascend along them. */
module Employees {
  import opened Common

  datatype RoleType = RoleHr | RoleManager | RoleEmployee

  /** An employee row. The manager is a reference to another employee, kept
      here as that employee's id; tasks, leave records and attendances are the
      ids of the rows the employee owns. */
  datatype Employee = Employee(
    employeeId: EmpId,
    username: string,
    email: string,
    role: Option<RoleType>,
    title: string,
    joiningDate: Option<Date>,
    manager: Option<EmpId>,
    reportingTo: string,
    skillSet: seq<string>,
    tasks: seq<nat>,
    leaveRecords: seq<nat>,
    attendances: seq<nat>)

  /** An employee object sent as an update: None is a null property. */
  datatype EmployeePatch = EmployeePatch(
    username: Option<string>,
    email: Option<string>,
    role: Option<RoleType>,
    title: Option<string>,
    joiningDate: Option<Date>,
    manager: Option<EmpId>,
    reportingTo: Option<string>,
    skillSet: Option<seq<string>>,
    tasks: Option<seq<nat>>,
    leaveRecords: Option<seq<nat>>,
    attendances: Option<seq<nat>>)

  /** An employee-profile row, linked to its employee by id. */
  datatype EmployeeProfile = EmployeeProfile(
    profileId: nat,
    employee: Option<EmpId>,
    birthDate: Option<Date>,
    reportingTo: string)

  datatype ProfilePatch = ProfilePatch(
    employee: Option<EmpId>,
    birthDate: Option<Date>,
    reportingTo: Option<string>)

  /** The request of `setManagerToEmployeeByHr`. */
  datatype EmployeeDto = EmployeeDto(managerId: EmpId, role: Option<RoleType>, title: string)

  ghost predicate EmployeeIdsAscending(employees: seq<Employee>)
  {
    forall i, j :: 0 <= i < j < |employees| ==> employees[i].employeeId < employees[j].employeeId
  }

  ghost predicate ProfileIdsAscending(profiles: seq<EmployeeProfile>)
  {
    forall i, j :: 0 <= i < j < |profiles| ==> profiles[i].profileId < profiles[j].profileId
  }

  // ---------------------------------------------------------------------------
  // Queries on the tables (read only)
  // ---------------------------------------------------------------------------

  /** `findById`: the position of the employee with the given id. */
  function IndexOfEmployee(employees: seq<Employee>, id: EmpId): (r: Option<nat>)
    ensures r.Some? ==> r.value < |employees| && employees[r.value].employeeId == id
    ensures r.None? <==> forall i :: 0 <= i < |employees| ==> employees[i].employeeId != id
  {
    if employees == [] then None
    else if employees[0].employeeId == id then Some(0)
    else match IndexOfEmployee(employees[1..], id)
      case None => None
      case Some(k) => Some(k + 1)
  }

  /** `getEmployeeById`. */
  function GetEmployeeById(employees: seq<Employee>, id: EmpId): (r: Result<Employee>)
    ensures r.Ok? <==> exists x :: x in employees && x.employeeId == id
    ensures r.Ok? ==> r.value in employees && r.value.employeeId == id
    ensures r.Err? ==> r.error == Failure(EmployeeException, EmployeeNotFoundWithId(id))
  {
    match IndexOfEmployee(employees, id)
    case Some(i) => Ok(employees[i])
    case None => Err(Failure(EmployeeException, EmployeeNotFoundWithId(id)))
  }

  /** `getEmployeeByEmail`: the first employee with that email. */
  function GetEmployeeByEmail(employees: seq<Employee>, email: string): (r: Result<Employee>)
    ensures r.Ok? <==> exists x :: x in employees && x.email == email
    ensures r.Ok? ==> r.value in employees && r.value.email == email
    ensures r.Err? ==> r.error == Failure(EmployeeException, EmployeeNotFoundWithEmail(email))
  {
    if employees == [] then Err(Failure(EmployeeException, EmployeeNotFoundWithEmail(email)))
    else if employees[0].email == email then Ok(employees[0])
    else
      assert forall x :: x in employees[1..] ==> x in employees;
      assert forall x :: x in employees && x != employees[0] ==> x in employees[1..];
      GetEmployeeByEmail(employees[1..], email)
  }

  /** `getAllEmployees`: an empty table is an error. */
  function GetAllEmployees(employees: seq<Employee>): (r: Result<seq<Employee>>)
    ensures r.Err? <==> employees == []
    ensures r.Err? ==> r.error == Failure(EmployeeException, EmployeesNotFound)
    ensures r.Ok? ==> r.value == employees
  {
    if employees == [] then Err(Failure(EmployeeException, EmployeesNotFound)) else Ok(employees)
  }

  /** `getEmployeeManager`: the manager reference; an unknown employee is
      reported with the task-not-found message, and no manager is an error. */
  function GetEmployeeManager(employees: seq<Employee>, id: EmpId): (r: Result<EmpId>)
    ensures r.Ok? <==> IndexOfEmployee(employees, id).Some? &&
                       employees[IndexOfEmployee(employees, id).value].manager.Some?
    ensures r.Ok? ==> employees[IndexOfEmployee(employees, id).value].manager == Some(r.value)
    ensures IndexOfEmployee(employees, id).None? ==>
              r == Err(Failure(EmployeeException, TaskNotFoundWithEmployeeId(id)))
    ensures IndexOfEmployee(employees, id).Some? && r.Err? ==>
              r.error == Failure(EmployeeException, ManagerNotAssigned(id))
  {
    match GetEmployeeById(employees, id)
    case Err(_) => Err(Failure(EmployeeException, TaskNotFoundWithEmployeeId(id)))
    case Ok(employee) =>
      if employee.manager.None? then
        Err(Failure(EmployeeException, ManagerNotAssigned(id)))
      else
        Ok(employee.manager.value)
  }

  /** The employees whose manager is `m`, in table order. */
  function SubEmployees(employees: seq<Employee>, m: EmpId): (r: seq<Employee>)
    ensures forall x :: x in r <==> x in employees && x.manager == Some(m)
  {
    if employees == [] then []
    else
      assert forall x :: x in employees[1..] ==> x in employees;
      (if employees[0].manager == Some(m) then [employees[0]] else []) + SubEmployees(employees[1..], m)
  }

  /** `getEmployeesOfManager`: an unknown manager and an empty list of
      reports are both errors. */
  function GetEmployeesOfManager(employees: seq<Employee>, m: EmpId): (r: Result<seq<Employee>>)
    ensures IndexOfEmployee(employees, m).None? ==>
              r == Err(Failure(EmployeeException, EmployeeNotFoundWithIdBare))
    ensures IndexOfEmployee(employees, m).Some? ==>
              if forall x :: x in employees ==> x.manager != Some(m) then
                r == Err(Failure(EmployeeException, EmployeesNotFound))
              else
                r.Ok? && r.value != [] && forall x :: x in r.value <==> x in employees && x.manager == Some(m)
  {
    if IndexOfEmployee(employees, m).None? then Err(Failure(EmployeeException, EmployeeNotFoundWithIdBare))
    else
      var reports := SubEmployees(employees, m);
      if reports == [] then Err(Failure(EmployeeException, EmployeesNotFound))
      else
        assert reports[0] in reports;
        Ok(reports)
  }

  /** `getAllTaskMyEmployeeId`: an empty task list is an error. */
  function GetAllTaskMyEmployeeId(employees: seq<Employee>, id: EmpId): (r: Result<seq<nat>>)
    ensures IndexOfEmployee(employees, id).None? ==>
              r == Err(Failure(EmployeeException, EmployeeNotFoundWithId(id)))
    ensures IndexOfEmployee(employees, id).Some? ==>
              var x := employees[IndexOfEmployee(employees, id).value];
              if x.tasks == [] then r == Err(Failure(TaskException, TaskNotFoundWithEmployeeId(id)))
              else r == Ok(x.tasks)
  {
    match GetEmployeeById(employees, id)
    case Err(f) => Err(f)
    case Ok(employee) =>
      if employee.tasks == [] then Err(Failure(TaskException, TaskNotFoundWithEmployeeId(id)))
      else Ok(employee.tasks)
  }

  /** `getAllLeavesByEmployeeId` as written: it refuses when the TASK list is
      empty, and otherwise returns the leave list, which may be empty. */
  function GetAllLeavesByEmployeeId(employees: seq<Employee>, id: EmpId): (r: Result<seq<nat>>)
    ensures IndexOfEmployee(employees, id).None? ==>
              r == Err(Failure(EmployeeException, EmployeeNotFoundWithId(id)))
    ensures IndexOfEmployee(employees, id).Some? ==>
              var x := employees[IndexOfEmployee(employees, id).value];
              if x.tasks == [] then r == Err(Failure(LeaveException, LeaveNotFoundWithEmployeeId(id)))
              else r == Ok(x.leaveRecords)
  {
    match GetEmployeeById(employees, id)
    case Err(f) => Err(f)
    case Ok(employee) =>
      if employee.tasks == [] then Err(Failure(LeaveException, LeaveNotFoundWithEmployeeId(id)))
      else Ok(employee.leaveRecords)
  }

  /** `getAllAttendanceByEmployeeId` as written: guarded by the TASK list too. */
  function GetAllAttendanceByEmployeeId(employees: seq<Employee>, id: EmpId): (r: Result<seq<nat>>)
    ensures IndexOfEmployee(employees, id).None? ==>
              r == Err(Failure(EmployeeException, EmployeeNotFoundWithId(id)))
    ensures IndexOfEmployee(employees, id).Some? ==>
              var x := employees[IndexOfEmployee(employees, id).value];
              if x.tasks == [] then r == Err(Failure(AttendanceException, AttendanceNotFoundWithEmployeeId(id)))
              else r == Ok(x.attendances)
  {
    match GetEmployeeById(employees, id)
    case Err(f) => Err(f)
    case Ok(employee) =>
      if employee.tasks == [] then Err(Failure(AttendanceException, AttendanceNotFoundWithEmployeeId(id)))
      else Ok(employee.attendances)
  }

  /** The task-list guard refuses an employee who has leaves and attendances
      but no task, and lets through an empty leave or attendance list. */
  lemma ListingsFollowTheTaskList()
    ensures var idle := Employee(1, "a", "a@x", Some(RoleEmployee), "", None, None, "", [], [], [5], [6]);
            GetAllLeavesByEmployeeId([idle], 1).Err? && GetAllAttendanceByEmployeeId([idle], 1).Err?
    ensures var busy := Employee(1, "a", "a@x", Some(RoleEmployee), "", None, None, "", [], [4], [], []);
            GetAllLeavesByEmployeeId([busy], 1) == Ok([]) && GetAllAttendanceByEmployeeId([busy], 1) == Ok([])
  {
  }

  /** The leave listing as its message says it was meant: an empty LEAVE list
      is the error, so a successful listing is never empty. */
  function GetAllLeavesByEmployeeIdIntended(employees: seq<Employee>, id: EmpId): (r: Result<seq<nat>>)
    ensures r.Ok? <==> IndexOfEmployee(employees, id).Some? &&
                       employees[IndexOfEmployee(employees, id).value].leaveRecords != []
    ensures r.Ok? ==> r.value == employees[IndexOfEmployee(employees, id).value].leaveRecords && r.value != []
  {
    match GetEmployeeById(employees, id)
    case Err(f) => Err(f)
    case Ok(employee) =>
      if employee.leaveRecords == [] then Err(Failure(LeaveException, LeaveNotFoundWithEmployeeId(id)))
      else Ok(employee.leaveRecords)
  }

  /** The attendance listing as its message says it was meant. */
  function GetAllAttendanceByEmployeeIdIntended(employees: seq<Employee>, id: EmpId): (r: Result<seq<nat>>)
    ensures r.Ok? <==> IndexOfEmployee(employees, id).Some? &&
                       employees[IndexOfEmployee(employees, id).value].attendances != []
    ensures r.Ok? ==> r.value == employees[IndexOfEmployee(employees, id).value].attendances && r.value != []
  {
    match GetEmployeeById(employees, id)
    case Err(f) => Err(f)
    case Ok(employee) =>
      if employee.attendances == [] then Err(Failure(AttendanceException, AttendanceNotFoundWithEmployeeId(id)))
      else Ok(employee.attendances)
  }

  /** `findByEmployeeEmployeeId`: the position of the profile linked to the
      employee, or None (a null profile). */
  function ProfileIndexOf(profiles: seq<EmployeeProfile>, e: EmpId): (r: Option<nat>)
    ensures r.Some? ==> r.value < |profiles| && profiles[r.value].employee == Some(e)
    ensures r.None? <==> forall i :: 0 <= i < |profiles| ==> profiles[i].employee != Some(e)
  {
    if profiles == [] then None
    else if profiles[0].employee == Some(e) then Some(0)
    else match ProfileIndexOf(profiles[1..], e)
      case None => None
      case Some(k) => Some(k + 1)
  }

  /** `getEmployeeProfileByEmployeeId`: the linked profile, possibly null, of
      an employee the helper says exists. */
  function GetEmployeeProfileByEmployeeId(helper: RepoHelper, profiles: seq<EmployeeProfile>, id: EmpId)
    : (r: Result<Option<EmployeeProfile>>)
    ensures r.Err? <==> !helper.isEmployeeExist(id)
    ensures r.Err? ==> r.error == Failure(EmployeeException, EmployeeNotFoundWithId(id))
    ensures r.Ok? && r.value.Some? ==> r.value.value in profiles && r.value.value.employee == Some(id)
    ensures r.Ok? && r.value.None? ==> forall x :: x in profiles ==> x.employee != Some(id)
  {
    if helper.isEmployeeExist(id) then
      match ProfileIndexOf(profiles, id)
      case Some(k) => Ok(Some(profiles[k]))
      case None => Ok(None)
    else Err(Failure(EmployeeException, EmployeeNotFoundWithId(id)))
  }

  /** `findFirst10ByOrderByEmployeeIdDesc`: the `n` last rows, newest first. */
  function NewestFirst(employees: seq<Employee>, n: nat): (r: seq<Employee>)
    ensures |r| == if |employees| < n then |employees| else n
    ensures forall k :: 0 <= k < |r| ==> r[k] == employees[|employees| - 1 - k]
  {
    if n == 0 || employees == [] then []
    else
      var last := |employees| - 1;
      [employees[last]] + NewestFirst(employees[..last], n - 1)
  }

  /** `getAllNewEmployees`: the ten employees with the highest ids, highest
      first; every other employee has a lower id than each of them. */
  function GetAllNewEmployees(employees: seq<Employee>): (r: seq<Employee>)
    ensures |r| == if |employees| < 10 then |employees| else 10
    ensures forall k :: 0 <= k < |r| ==> r[k] == employees[|employees| - 1 - k]
  {
    NewestFirst(employees, 10)
  }

  /** Every employee left out of the ten has a lower id than each of them. */
  lemma NewEmployeesHaveHighestIds(employees: seq<Employee>, k: nat, i: nat)
    requires EmployeeIdsAscending(employees)
    requires k < |GetAllNewEmployees(employees)| && i < |employees| - |GetAllNewEmployees(employees)|
    ensures employees[i].employeeId < GetAllNewEmployees(employees)[k].employeeId
  {
  }

  /** `findByBirthDate`: the profiles whose birth date equals the date given,
      in table order. */
  function BirthdayProfiles(profiles: seq<EmployeeProfile>, today: Date): (r: seq<EmployeeProfile>)
    ensures forall x :: x in r <==> x in profiles && x.birthDate == Some(today)
  {
    if profiles == [] then []
    else
      assert forall x :: x in profiles[1..] ==> x in profiles;
      (if profiles[0].birthDate == Some(today) then [profiles[0]] else []) + BirthdayProfiles(profiles[1..], today)
  }

  /** `getAllBirthdayEmployeesBy`: the employee of each matched profile, one
      per profile, in profile order. */
  method GetAllBirthdayEmployeesBy(profiles: seq<EmployeeProfile>, today: Date) returns (r: seq<Option<EmpId>>)
    ensures |r| == |BirthdayProfiles(profiles, today)|
    ensures forall k :: 0 <= k < |r| ==> r[k] == BirthdayProfiles(profiles, today)[k].employee
  {
    var matched := BirthdayProfiles(profiles, today);
    r := [];
    for i := 0 to |matched|
      invariant |r| == i
      invariant forall k :: 0 <= k < i ==> r[k] == matched[k].employee
    {
      r := r + [matched[i].employee];
    }
  }

  // ---------------------------------------------------------------------------
  // Manager assignment
  // ---------------------------------------------------------------------------

  /** What the guards of `setManagerToEmployeeByHr` found: the HR row, the
      position of the employee and the manager row. */
  datatype Assignment = Assignment(hr: Employee, index: nat, manager: Employee)

  /** The guards of `setManagerToEmployeeByHr` before the HR role test, in
      the order the source runs them. */
  function ManagerAssignmentGuards(employees: seq<Employee>, employeeId: EmpId, hrId: EmpId, dto: EmployeeDto)
    : (r: Result<Assignment>)
    ensures r.Ok? <==>
              IndexOfEmployee(employees, hrId).Some? && IndexOfEmployee(employees, employeeId).Some? &&
              IndexOfEmployee(employees, dto.managerId).Some? &&
              employees[IndexOfEmployee(employees, dto.managerId).value].role == Some(RoleManager) &&
              dto.managerId != employeeId &&
              employees[IndexOfEmployee(employees, employeeId).value].manager.None?
    ensures r.Ok? ==>
              r.value.hr in employees && r.value.hr.employeeId == hrId &&
              r.value.index < |employees| && employees[r.value.index].employeeId == employeeId &&
              r.value.manager in employees && r.value.manager.employeeId == dto.managerId
    ensures IndexOfEmployee(employees, hrId).None? ==>
              r == Err(Failure(EmployeeException, HrNotFoundWithId(employeeId)))
    ensures IndexOfEmployee(employees, hrId).Some? && IndexOfEmployee(employees, employeeId).None? ==>
              r == Err(Failure(EmployeeException, EmployeeNotFoundWithId(employeeId)))
    ensures IndexOfEmployee(employees, hrId).Some? && IndexOfEmployee(employees, employeeId).Some? &&
            IndexOfEmployee(employees, dto.managerId).None? ==>
              r == Err(Failure(EmployeeException, ManagerNotFoundWithId(dto.managerId)))
    ensures IndexOfEmployee(employees, hrId).Some? && IndexOfEmployee(employees, employeeId).Some? &&
            IndexOfEmployee(employees, dto.managerId).Some? ==>
              var manager := employees[IndexOfEmployee(employees, dto.managerId).value];
              var employee := employees[IndexOfEmployee(employees, employeeId).value];
              (manager.role != Some(RoleManager) ==>
                 r == Err(Failure(EmployeeException, ManagerIdNotCorrect))) &&
              (manager.role == Some(RoleManager) && dto.managerId == employeeId ==>
                 r == Err(Failure(EmployeeException, ManagerHimselfCannotBeManager))) &&
              (manager.role == Some(RoleManager) && dto.managerId != employeeId && employee.manager.Some? ==>
                 r == Err(Failure(EmployeeException, EmployeeManagerAlreadyExist)))
  {
    match IndexOfEmployee(employees, hrId)
    case None => Err(Failure(EmployeeException, HrNotFoundWithId(employeeId)))
    case Some(h) =>
      match IndexOfEmployee(employees, employeeId)
      case None => Err(Failure(EmployeeException, EmployeeNotFoundWithId(employeeId)))
      case Some(i) =>
        match IndexOfEmployee(employees, dto.managerId)
        case None => Err(Failure(EmployeeException, ManagerNotFoundWithId(dto.managerId)))
        case Some(m) =>
          if employees[m].role != Some(RoleManager) then Err(Failure(EmployeeException, ManagerIdNotCorrect))
          else if dto.managerId == employeeId then Err(Failure(EmployeeException, ManagerHimselfCannotBeManager))
          else if employees[i].manager.Some? then Err(Failure(EmployeeException, EmployeeManagerAlreadyExist))
          else Ok(Assignment(employees[h], i, employees[m]))
  }

  /** The manager guard runs before the self-management guard, so asking to
      make an employee its own manager is reported as "Manager Id Not Correct"
      unless that employee is a manager. */
  lemma SelfAssignmentOfNonManager(employees: seq<Employee>, employeeId: EmpId, hrId: EmpId, dto: EmployeeDto)
    requires IndexOfEmployee(employees, hrId).Some? && IndexOfEmployee(employees, employeeId).Some?
    requires dto.managerId == employeeId
    requires employees[IndexOfEmployee(employees, employeeId).value].role != Some(RoleManager)
    ensures ManagerAssignmentGuards(employees, employeeId, hrId, dto) ==
              Err(Failure(EmployeeException, ManagerIdNotCorrect))
  {
  }

  /** `hr.getRole().equals("ROLE_HR")` as written: an enum constant is never
      equal to a String, so the test is false for every role, and a null role
      is dereferenced. */
  function HrRoleEqualsString(role: Option<RoleType>): (r: Result<bool>)
    ensures r != Ok(true)
    ensures r.Err? <==> role.None?
  {
    match role
    case None => Err(Failure(NullPointerException, NoMessage))
    case Some(_) => Ok(false)
  }

  /** The HR test as intended: the role is ROLE_HR. */
  predicate IsHr(role: Option<RoleType>)
  {
    role == Some(RoleHr)
  }

  /** An HR employee fails the as-written test and passes the intended one. */
  lemma HrRoleTestRejectsHr()
    ensures HrRoleEqualsString(Some(RoleHr)) == Ok(false) && IsHr(Some(RoleHr))
  {
  }

  /** The employee after a successful assignment: manager, reporting-to,
      role and title are set, and nothing else changes. */
  function Assigned(employee: Employee, manager: Employee, dto: EmployeeDto): (r: Employee)
    ensures r.manager == Some(manager.employeeId) && r.reportingTo == manager.username
    ensures r.role == dto.role && r.title == dto.title
    ensures r.(manager := employee.manager, reportingTo := employee.reportingTo,
               role := employee.role, title := employee.title) == employee
  {
    employee.(manager := Some(manager.employeeId), reportingTo := manager.username,
              role := dto.role, title := dto.title)
  }

  // ---------------------------------------------------------------------------
  // Partial updates
  // ---------------------------------------------------------------------------

  /** The patch semantics for an employee: a non-null field overwrites, a null
      field keeps the stored value; the id never changes. */
  ghost predicate IsEmployeePatchOf(r: Employee, stored: Employee, p: EmployeePatch)
  {
    r.employeeId == stored.employeeId &&
    r.username == p.username.GetOr(stored.username) &&
    r.email == p.email.GetOr(stored.email) &&
    r.role == p.role.Or(stored.role) &&
    r.title == p.title.GetOr(stored.title) &&
    r.joiningDate == p.joiningDate.Or(stored.joiningDate) &&
    r.manager == p.manager.Or(stored.manager) &&
    r.reportingTo == p.reportingTo.GetOr(stored.reportingTo) &&
    r.skillSet == p.skillSet.GetOr(stored.skillSet) &&
    r.tasks == p.tasks.GetOr(stored.tasks) &&
    r.leaveRecords == p.leaveRecords.GetOr(stored.leaveRecords) &&
    r.attendances == p.attendances.GetOr(stored.attendances)
  }

  ghost predicate IsProfilePatchOf(r: EmployeeProfile, stored: EmployeeProfile, p: ProfilePatch)
  {
    r.profileId == stored.profileId &&
    r.employee == p.employee.Or(stored.employee) &&
    r.birthDate == p.birthDate.Or(stored.birthDate) &&
    r.reportingTo == p.reportingTo.GetOr(stored.reportingTo)
  }

  /** The writable properties of an employee. */
  datatype EmployeeField =
    | UsernameField | EmailField | RoleField | TitleField | JoiningDateField | ManagerField
    | ReportingToField | SkillSetField | TasksField | LeaveRecordsField | AttendancesField

  const EmployeeFields: seq<EmployeeField> :=
    [UsernameField, EmailField, RoleField, TitleField, JoiningDateField, ManagerField,
     ReportingToField, SkillSetField, TasksField, LeaveRecordsField, AttendancesField]

  predicate IsNullEmployeeField(p: EmployeePatch, f: EmployeeField)
  {
    match f
    case UsernameField => p.username.None?
    case EmailField => p.email.None?
    case RoleField => p.role.None?
    case TitleField => p.title.None?
    case JoiningDateField => p.joiningDate.None?
    case ManagerField => p.manager.None?
    case ReportingToField => p.reportingTo.None?
    case SkillSetField => p.skillSet.None?
    case TasksField => p.tasks.None?
    case LeaveRecordsField => p.leaveRecords.None?
    case AttendancesField => p.attendances.None?
  }

  /** `getNullPropertyNames` applied to an employee: the set of its null
      properties. */
  method GetNullEmployeePropertyNames(p: EmployeePatch) returns (names: set<EmployeeField>)
    ensures forall f :: f in names <==> IsNullEmployeeField(p, f)
  {
    names := {};
    for i := 0 to |EmployeeFields|
      invariant forall f :: f in names <==> f in EmployeeFields[..i] && IsNullEmployeeField(p, f)
    {
      if IsNullEmployeeField(p, EmployeeFields[i]) {
        names := names + {EmployeeFields[i]};
      }
    }
    assert EmployeeFields[..|EmployeeFields|] == EmployeeFields;
    forall f ensures f in EmployeeFields {
      match f
      case UsernameField => assert EmployeeFields[0] == f;
      case EmailField => assert EmployeeFields[1] == f;
      case RoleField => assert EmployeeFields[2] == f;
      case TitleField => assert EmployeeFields[3] == f;
      case JoiningDateField => assert EmployeeFields[4] == f;
      case ManagerField => assert EmployeeFields[5] == f;
      case ReportingToField => assert EmployeeFields[6] == f;
      case SkillSetField => assert EmployeeFields[7] == f;
      case TasksField => assert EmployeeFields[8] == f;
      case LeaveRecordsField => assert EmployeeFields[9] == f;
      case AttendancesField => assert EmployeeFields[10] == f;
    }
  }

  /** `BeanUtils.copyProperties(src, dst, ignore)` on employees: every
      property not ignored is copied from the source, the id never is, and
      ignoring every property changes nothing. */
  function CopyEmployeeProperties(src: EmployeePatch, dst: Employee, ignore: set<EmployeeField>): (r: Employee)
    requires forall f :: f !in ignore ==> !IsNullEmployeeField(src, f)
    ensures r.employeeId == dst.employeeId
    ensures (forall f :: f in ignore) ==> r == dst
  {
    assert UsernameField !in ignore ==> !IsNullEmployeeField(src, UsernameField);
    assert EmailField !in ignore ==> !IsNullEmployeeField(src, EmailField);
    assert TitleField !in ignore ==> !IsNullEmployeeField(src, TitleField);
    assert ReportingToField !in ignore ==> !IsNullEmployeeField(src, ReportingToField);
    assert SkillSetField !in ignore ==> !IsNullEmployeeField(src, SkillSetField);
    assert TasksField !in ignore ==> !IsNullEmployeeField(src, TasksField);
    assert LeaveRecordsField !in ignore ==> !IsNullEmployeeField(src, LeaveRecordsField);
    assert AttendancesField !in ignore ==> !IsNullEmployeeField(src, AttendancesField);
    Employee(
      dst.employeeId,
      CopyValue(UsernameField in ignore, dst.username, src.username),
      CopyValue(EmailField in ignore, dst.email, src.email),
      CopyReference(RoleField in ignore, dst.role, src.role),
      CopyValue(TitleField in ignore, dst.title, src.title),
      CopyReference(JoiningDateField in ignore, dst.joiningDate, src.joiningDate),
      CopyReference(ManagerField in ignore, dst.manager, src.manager),
      CopyValue(ReportingToField in ignore, dst.reportingTo, src.reportingTo),
      CopyValue(SkillSetField in ignore, dst.skillSet, src.skillSet),
      CopyValue(TasksField in ignore, dst.tasks, src.tasks),
      CopyValue(LeaveRecordsField in ignore, dst.leaveRecords, src.leaveRecords),
      CopyValue(AttendancesField in ignore, dst.attendances, src.attendances))
  }

  /** Copying while ignoring exactly the null properties is the patch. */
  lemma CopyIgnoringNullsIsEmployeePatch(p: EmployeePatch, stored: Employee, names: set<EmployeeField>)
    requires forall f :: f in names <==> IsNullEmployeeField(p, f)
    ensures IsEmployeePatchOf(CopyEmployeeProperties(p, stored, names), stored, p)
  {
    assert UsernameField in names <==> p.username.None?;
    assert EmailField in names <==> p.email.None?;
    assert RoleField in names <==> p.role.None?;
    assert TitleField in names <==> p.title.None?;
    assert JoiningDateField in names <==> p.joiningDate.None?;
    assert ManagerField in names <==> p.manager.None?;
    assert ReportingToField in names <==> p.reportingTo.None?;
    assert SkillSetField in names <==> p.skillSet.None?;
    assert TasksField in names <==> p.tasks.None?;
    assert LeaveRecordsField in names <==> p.leaveRecords.None?;
    assert AttendancesField in names <==> p.attendances.None?;
  }

  /** The employee patch semantics determines the employee, so applying a
      patch twice is the same as applying it once, and an all-null patch
      changes nothing. */
  lemma EmployeePatchIsDeterminedAndIdempotent(r: Employee, r': Employee, stored: Employee, p: EmployeePatch)
    requires IsEmployeePatchOf(r, stored, p)
    ensures IsEmployeePatchOf(r', stored, p) <==> r' == r
    ensures IsEmployeePatchOf(r', r, p) <==> r' == r
    ensures p == EmployeePatch(None, None, None, None, None, None, None, None, None, None, None) ==> r == stored
  {
  }

  /** The writable properties of an employee profile. */
  datatype ProfileField = ProfileEmployeeField | BirthDateField | ProfileReportingToField

  const ProfileFields: seq<ProfileField> := [ProfileEmployeeField, BirthDateField, ProfileReportingToField]

  predicate IsNullProfileField(p: ProfilePatch, f: ProfileField)
  {
    match f
    case ProfileEmployeeField => p.employee.None?
    case BirthDateField => p.birthDate.None?
    case ProfileReportingToField => p.reportingTo.None?
  }

  /** `getNullPropertyNames` applied to a profile. */
  method GetNullProfilePropertyNames(p: ProfilePatch) returns (names: set<ProfileField>)
    ensures forall f :: f in names <==> IsNullProfileField(p, f)
  {
    names := {};
    for i := 0 to |ProfileFields|
      invariant forall f :: f in names <==> f in ProfileFields[..i] && IsNullProfileField(p, f)
    {
      if IsNullProfileField(p, ProfileFields[i]) {
        names := names + {ProfileFields[i]};
      }
    }
    assert ProfileFields[..|ProfileFields|] == ProfileFields;
    forall f ensures f in ProfileFields {
      match f
      case ProfileEmployeeField => assert ProfileFields[0] == f;
      case BirthDateField => assert ProfileFields[1] == f;
      case ProfileReportingToField => assert ProfileFields[2] == f;
    }
  }

  /** `BeanUtils.copyProperties(src, dst, ignore)` on profiles: the id is
      never copied, and ignoring every property changes nothing. */
  function CopyProfileProperties(src: ProfilePatch, dst: EmployeeProfile, ignore: set<ProfileField>): (r: EmployeeProfile)
    requires forall f :: f !in ignore ==> !IsNullProfileField(src, f)
    ensures r.profileId == dst.profileId
    ensures (forall f :: f in ignore) ==> r == dst
  {
    assert ProfileReportingToField !in ignore ==> !IsNullProfileField(src, ProfileReportingToField);
    dst.(
      employee := CopyReference(ProfileEmployeeField in ignore, dst.employee, src.employee),
      birthDate := CopyReference(BirthDateField in ignore, dst.birthDate, src.birthDate),
      reportingTo := CopyValue(ProfileReportingToField in ignore, dst.reportingTo, src.reportingTo))
  }

  /** Copying while ignoring exactly the null properties is the patch. */
  lemma CopyIgnoringNullsIsProfilePatch(p: ProfilePatch, stored: EmployeeProfile, names: set<ProfileField>)
    requires forall f :: f in names <==> IsNullProfileField(p, f)
    ensures IsProfilePatchOf(CopyProfileProperties(p, stored, names), stored, p)
  {
    assert ProfileEmployeeField in names <==> p.employee.None?;
    assert BirthDateField in names <==> p.birthDate.None?;
    assert ProfileReportingToField in names <==> p.reportingTo.None?;
  }

  /** The profile patch semantics determines the profile, so applying a patch
      twice is the same as applying it once, and an all-null patch changes
      nothing. */
  lemma ProfilePatchIsDeterminedAndIdempotent(r: EmployeeProfile, r': EmployeeProfile, stored: EmployeeProfile, p: ProfilePatch)
    requires IsProfilePatchOf(r, stored, p)
    ensures IsProfilePatchOf(r', stored, p) <==> r' == r
    ensures IsProfilePatchOf(r', r, p) <==> r' == r
    ensures p == ProfilePatch(None, None, None) ==> r == stored
  {
  }

  /** Replacing a row by one with the same id keeps the table's ids. */
  lemma ReplaceKeepsIds(employees: seq<Employee>, i: nat, e: Employee)
    requires i < |employees| && e.employeeId == employees[i].employeeId
    ensures forall k :: 0 <= k < |employees| ==> employees[i := e][k].employeeId == employees[k].employeeId
  {
  }

  // ---------------------------------------------------------------------------
  // The service over its tables
  // ---------------------------------------------------------------------------

  class EmployeeDirectory {
    var employees: seq<Employee>
    var profiles: seq<EmployeeProfile>
    var nextEmployeeId: nat
    var nextProfileId: nat

    ghost predicate Valid()
      reads this
    {
      EmployeeIdsAscending(employees) &&
      (forall k :: 0 <= k < |employees| ==> 0 <= employees[k].employeeId < nextEmployeeId) &&
      ProfileIdsAscending(profiles) &&
      (forall k :: 0 <= k < |profiles| ==> profiles[k].profileId < nextProfileId)
    }

    constructor ()
      ensures Valid() && employees == [] && profiles == []
      ensures nextEmployeeId == 1 && nextProfileId == 1
    {
      employees, profiles := [], [];
      nextEmployeeId, nextProfileId := 1, 1;
    }

    /** `addEmployee`: a null employee is refused; otherwise it is saved under
        a new id with today as its joining date and every other field as
        given. `hrId` is not used. */
    method AddEmployee(employee: Option<Employee>, hrId: EmpId, today: Date) returns (r: Result<Employee>)
      requires Valid()
      modifies this
      ensures Valid() && profiles == old(profiles)
      ensures nextProfileId == old(nextProfileId)
      ensures nextEmployeeId == old(nextEmployeeId) + (if employee.Some? then 1 else 0)
      ensures employee.None? ==>
                r == Err(Failure(EmployeeException, NoMessage)) && employees == old(employees)
      ensures employee.Some? ==>
                r == Ok(employee.value.(employeeId := old(nextEmployeeId), joiningDate := Some(today))) &&
                employees == old(employees) + [r.value]
    {
      if employee.None? {
        return Err(Failure(EmployeeException, NoMessage));
      }
      var saved := employee.value.(joiningDate := Some(today));
      saved := saved.(employeeId := nextEmployeeId);
      employees := employees + [saved];
      nextEmployeeId := nextEmployeeId + 1;
      return Ok(saved);
    }

    /** `updateEmployee`: refused when the employee is missing (by the lookup
        or by the helper's existence test); otherwise the stored employee takes
        every non-null field of the patch and keeps the rest. */
    method UpdateEmployee(helper: RepoHelper, id: EmpId, patch: EmployeePatch) returns (r: Result<Employee>)
      requires Valid()
      modifies this
      ensures Valid() && profiles == old(profiles)
      ensures nextEmployeeId == old(nextEmployeeId) && nextProfileId == old(nextProfileId)
      ensures IndexOfEmployee(old(employees), id).None? || !helper.isEmployeeExist(id) ==>
                r == Err(Failure(EmployeeException, EmployeeNotFoundWithId(id))) && employees == old(employees)
      ensures IndexOfEmployee(old(employees), id).Some? && helper.isEmployeeExist(id) ==>
                var i := IndexOfEmployee(old(employees), id).value;
                r.Ok? && IsEmployeePatchOf(r.value, old(employees)[i], patch) &&
                employees == old(employees)[i := r.value]
    {
      var index := IndexOfEmployee(employees, id);
      if index.None? {
        return Err(Failure(EmployeeException, EmployeeNotFoundWithId(id)));
      }
      if !helper.isEmployeeExist(id) {
        return Err(Failure(EmployeeException, EmployeeNotFoundWithId(id)));
      }
      var i := index.value;
      var names := GetNullEmployeePropertyNames(patch);
      var e := CopyEmployeeProperties(patch, employees[i], names);
      CopyIgnoringNullsIsEmployeePatch(patch, employees[i], names);
      ReplaceKeepsIds(employees, i, e);
      employees := employees[i := e];
      return Ok(e);
    }

    /** `updateEmployeeProfileByEmployeeId`: refused when the helper says the
        employee does not exist or when the employee has no profile;
        otherwise the profile takes every non-null field of the patch. */
    method UpdateEmployeeProfileByEmployeeId(helper: RepoHelper, id: EmpId, patch: ProfilePatch)
      returns (r: Result<EmployeeProfile>)
      requires Valid()
      modifies this
      ensures Valid() && employees == old(employees)
      ensures nextEmployeeId == old(nextEmployeeId) && nextProfileId == old(nextProfileId)
      ensures !helper.isEmployeeExist(id) || ProfileIndexOf(old(profiles), id).None? ==>
                r == Err(Failure(EmployeeException, EmployeeNotFoundWithId(id))) && profiles == old(profiles)
      ensures helper.isEmployeeExist(id) && ProfileIndexOf(old(profiles), id).Some? ==>
                var k := ProfileIndexOf(old(profiles), id).value;
                r.Ok? && IsProfilePatchOf(r.value, old(profiles)[k], patch) &&
                profiles == old(profiles)[k := r.value]
    {
      var found := GetEmployeeProfileByEmployeeId(helper, profiles, id);
      if found.Err? {
        return Err(found.error);
      }
      if found.value.None? {
        return Err(Failure(EmployeeException, EmployeeNotFoundWithId(id)));
      }
      var k := ProfileIndexOf(profiles, id).value;
      var names := GetNullProfilePropertyNames(patch);
      var p := CopyProfileProperties(patch, profiles[k], names);
      CopyIgnoringNullsIsProfilePatch(patch, profiles[k], names);
      profiles := profiles[k := p];
      assert forall x :: x in profiles ==> x in old(profiles) || x == p;
      return Ok(p);
    }

    /** `addEmployeeProfileData`: links the profile to the employee, copies the
        manager's username into it and saves it under a new id. An employee
        with no manager is a null dereference, and a manager missing from the
        table makes `Optional.get` fail. */
    method AddEmployeeProfileData(id: EmpId, profile: EmployeeProfile) returns (r: Result<EmployeeProfile>)
      requires Valid()
      modifies this
      ensures Valid() && employees == old(employees)
      ensures nextEmployeeId == old(nextEmployeeId)
      ensures nextProfileId == old(nextProfileId) + (if r.Ok? then 1 else 0)
      ensures r.Err? ==> profiles == old(profiles)
      ensures IndexOfEmployee(old(employees), id).None? ==>
                r == Err(Failure(EmployeeException, EmployeeNotFoundWithId(id)))
      ensures IndexOfEmployee(old(employees), id).Some? ==>
                var e := old(employees)[IndexOfEmployee(old(employees), id).value];
                if e.manager.None? then r == Err(Failure(NullPointerException, NoMessage))
                else if IndexOfEmployee(old(employees), e.manager.value).None? then
                  r == Err(Failure(NoSuchElementException, NoMessage))
                else
                  var m := old(employees)[IndexOfEmployee(old(employees), e.manager.value).value];
                  r == Ok(profile.(profileId := old(nextProfileId), employee := Some(id), reportingTo := m.username)) &&
                  profiles == old(profiles) + [r.value]
    {
      var found := GetEmployeeById(employees, id);
      if found.Err? {
        return Err(found.error);
      }
      var employee := found.value;
      var linked := profile.(employee := Some(id));
      if employee.manager.None? {
        return Err(Failure(NullPointerException, NoMessage));
      }
      var m := IndexOfEmployee(employees, employee.manager.value);
      if m.None? {
        return Err(Failure(NoSuchElementException, NoMessage));
      }
      linked := linked.(reportingTo := employees[m.value].username);
      var saved := linked.(profileId := nextProfileId);
      profiles := profiles + [saved];
      nextProfileId := nextProfileId + 1;
      return Ok(saved);
    }

    /** `deleteEmployee`: refused for an unknown id; otherwise removes the
        employee and returns it as it was. */
    method DeleteEmployee(id: EmpId) returns (r: Result<Employee>)
      requires Valid()
      modifies this
      ensures Valid() && profiles == old(profiles)
      ensures nextEmployeeId == old(nextEmployeeId) && nextProfileId == old(nextProfileId)
      ensures IndexOfEmployee(old(employees), id).None? ==>
                r == Err(Failure(EmployeeException, EmployeeNotFoundWithId(id))) && employees == old(employees)
      ensures IndexOfEmployee(old(employees), id).Some? ==>
                var i := IndexOfEmployee(old(employees), id).value;
                r == Ok(old(employees)[i]) && employees == old(employees)[..i] + old(employees)[i + 1..]
      ensures forall x :: x in employees ==> x.employeeId != id
    {
      var index := IndexOfEmployee(employees, id);
      if index.None? {
        return Err(Failure(EmployeeException, EmployeeNotFoundWithId(id)));
      }
      var i := index.value;
      var removed := employees[i];
      ghost var before := employees;
      employees := employees[..i] + employees[i + 1..];
      assert forall a :: 0 <= a < |employees| ==> employees[a] == before[if a < i then a else a + 1];
      return Ok(removed);
    }

    /** `updateSkillSet`: appends the given skills, in order, to the
        employee's skill list; nothing is deduplicated or removed. */
    method UpdateSkillSet(id: EmpId, skills: seq<string>) returns (r: Result<Employee>)
      requires Valid()
      modifies this
      ensures Valid() && profiles == old(profiles)
      ensures nextEmployeeId == old(nextEmployeeId) && nextProfileId == old(nextProfileId)
      ensures IndexOfEmployee(old(employees), id).None? ==>
                r == Err(Failure(EmployeeException, EmployeeNotFoundWithId(id))) && employees == old(employees)
      ensures IndexOfEmployee(old(employees), id).Some? ==>
                var i := IndexOfEmployee(old(employees), id).value;
                r == Ok(old(employees)[i].(skillSet := old(employees)[i].skillSet + skills)) &&
                employees == old(employees)[i := r.value]
    {
      var index := IndexOfEmployee(employees, id);
      if index.None? {
        return Err(Failure(EmployeeException, EmployeeNotFoundWithId(id)));
      }
      var i := index.value;
      var employee := employees[i];
      var skillSet := employee.skillSet;
      for k := 0 to |skills|
        invariant skillSet == employee.skillSet + skills[..k]
      {
        skillSet := skillSet + [skills[k]];
      }
      assert skills[..|skills|] == skills;
      employee := employee.(skillSet := skillSet);
      employees := employees[i := employee];
      assert forall x :: x in employees ==> x in old(employees) || x == employee;
      return Ok(employee);
    }

    /** `setManagerToEmployeeByHr` as written: after the guards, the HR test
        compares an enum with a String and is always false, so the call always
        throws and no employee is ever changed. */
    method SetManagerToEmployeeByHr(employeeId: EmpId, hrId: EmpId, dto: EmployeeDto) returns (r: Result<Employee>)
      requires Valid()
      modifies this
      ensures Valid()
      ensures nextEmployeeId == old(nextEmployeeId) && nextProfileId == old(nextProfileId)
      ensures employees == old(employees) && profiles == old(profiles)
      ensures r.Err?
      ensures ManagerAssignmentGuards(old(employees), employeeId, hrId, dto).Err? ==>
                r == Err(ManagerAssignmentGuards(old(employees), employeeId, hrId, dto).error)
      ensures ManagerAssignmentGuards(old(employees), employeeId, hrId, dto).Ok? ==>
                var hr := ManagerAssignmentGuards(old(employees), employeeId, hrId, dto).value.hr;
                r == Err(Failure(if hr.role.None? then NullPointerException else EmployeeException,
                                 if hr.role.None? then NoMessage else NotValidHr))
    {
      var guards := ManagerAssignmentGuards(employees, employeeId, hrId, dto);
      if guards.Err? {
        return Err(guards.error);
      }
      var isHr := HrRoleEqualsString(guards.value.hr.role);
      if isHr.Err? {
        return Err(isHr.error);
      }
      if isHr.value {
        // the assignment: the String comparison above is never true
        assert false;
      } else {
        return Err(Failure(EmployeeException, NotValidHr));
      }
    }

    /** Manager assignment with the HR test as intended: an HR whose request
        passes the guards sets the employee's manager, reporting-to name, role
        and title, and nothing else changes. */
    method SetManagerToEmployeeByHrIntended(employeeId: EmpId, hrId: EmpId, dto: EmployeeDto)
      returns (r: Result<Employee>)
      requires Valid()
      modifies this
      ensures Valid() && profiles == old(profiles)
      ensures nextEmployeeId == old(nextEmployeeId) && nextProfileId == old(nextProfileId)
      ensures ManagerAssignmentGuards(old(employees), employeeId, hrId, dto).Err? ==>
                r == Err(ManagerAssignmentGuards(old(employees), employeeId, hrId, dto).error) &&
                employees == old(employees)
      ensures ManagerAssignmentGuards(old(employees), employeeId, hrId, dto).Ok? ==>
                var a := ManagerAssignmentGuards(old(employees), employeeId, hrId, dto).value;
                if IsHr(a.hr.role) then
                  r == Ok(Assigned(old(employees)[a.index], a.manager, dto)) &&
                  employees == old(employees)[a.index := r.value] &&
                  r.value.manager == Some(dto.managerId) && r.value.manager != Some(employeeId)
                else
                  r == Err(Failure(EmployeeException, NotValidHr)) && employees == old(employees)
    {
      var guards := ManagerAssignmentGuards(employees, employeeId, hrId, dto);
      if guards.Err? {
        return Err(guards.error);
      }
      var a := guards.value;
      if IsHr(a.hr.role) {
        var updated := Assigned(employees[a.index], a.manager, dto);
        employees := employees[a.index := updated];
        assert forall x :: x in employees ==> x in old(employees) || x == updated;
        return Ok(updated);
      } else {
        return Err(Failure(EmployeeException, NotValidHr));
      }
    }
  }
}
