/** Values shared by the attendance tracker and the employee directory:
    optional values, the outcome of a service call, the exceptions the
    services throw, calendar dates, times of day, and the collaborator
    (RepoHelper) whose code is not part of this model. */
module Common {

  /** A Java reference that may be null. */
  datatype Option<T> = None | Some(value: T) {
    /** The value, or `default` for a null reference. */
    function GetOr(default: T): T {
      if Some? then value else default
    }

    /** This reference, or `other` when this one is null. */
    function Or(other: Option<T>): Option<T> {
      if Some? then this else other
    }
  }

  /** What `BeanUtils.copyProperties` leaves in a property of primitive or
      string type: the stored value when the property is ignored, otherwise
      the (non-null) value of the source. */
  function CopyValue<T>(ignored: bool, stored: T, given: Option<T>): (r: T)
    requires !ignored ==> given.Some?
    ensures ignored ==> r == stored
    ensures (ignored <==> given.None?) ==> r == given.GetOr(stored)
  {
    if ignored then stored else given.value
  }

  /** The same for a property that may itself be null. */
  function CopyReference<T>(ignored: bool, stored: Option<T>, given: Option<T>): (r: Option<T>)
    ensures ignored ==> r == stored
    ensures (ignored <==> given.None?) ==> r == given.Or(stored)
  {
    if ignored then stored else given
  }

  /** Outcome of a service call: the returned value, or the exception thrown. */
  datatype Result<T> = Ok(value: T) | Err(error: Failure)

  /** Employee ids are `Integer` values. */
  type EmpId = int

  /** The class of the exception a service throws. */
  datatype ExceptionKind =
    | EmployeeException
    | AttendanceException
    | TaskException
    | LeaveException
    | NullPointerException        // a method called on a null reference
    | IndexOutOfBoundsException   // `get(0)` on an empty list
    | NoSuchElementException      // `Optional.get()` on an empty result

  /** The message an exception carries; the `Constants` strings are named here
      by what they say, with the value the source appends to them. */
  datatype Message =
    | NoMessage
    | EmployeeNotFoundWithId(id: int)
    | EmployeeNotFoundWithIdBare                  // the constant with nothing appended
    | EmployeeNotFoundWithEmail(email: string)
    | EmployeesNotFound
    | HrNotFoundWithId(id: int)
    | ManagerNotFoundWithId(id: int)
    | ManagerIdNotCorrect
    | ManagerHimselfCannotBeManager
    | EmployeeManagerAlreadyExist
    | NotValidHr
    | ManagerNotAssigned(id: int)
    | TaskNotFoundWithEmployeeId(id: int)
    | LeaveNotFoundWithEmployeeId(id: int)
    | AttendanceNotFoundWithEmployeeId(id: int)
    | AttendanceNotFoundWithEmployeeIdAndDate(id: int, date: Date)
    | AttendanceNotFoundWithAttendanceId(id: int)
    | AttendanceNotFoundWithId(id: int)
    | AttendanceNotFound
    | CheckOutFirstToCheckIn
    | NeedToCheckOutBeforeCheckIn
    | CheckInFirstToCheckOut
    | NotRegularizable
    | AttendanceTimeOverlapping
    | CannotRegularize

  datatype Failure = Failure(kind: ExceptionKind, message: Message)

  /** A `LocalDate`; `isEqual` is equality of the three fields. */
  datatype Date = Date(year: int, month: int, day: int)

  const SecondsPerHour: int := 3600
  const SecondsPerDay: int := 86400

  /** A `LocalTime`, as the number of seconds since midnight. */
  type Tod = s: int | 0 <= s < 86400

  /** `LocalTime.getHour`: the hour field. */
  function HourOf(t: Tod): (h: int)
    ensures 0 <= h < 24
    ensures h * SecondsPerHour <= t < (h + 1) * SecondsPerHour
  {
    t / SecondsPerHour
  }

  /** `LocalTime.isBefore`: strictly earlier on the clock. */
  predicate IsBefore(a: Tod, b: Tod) { a < b }

  /** `LocalTime.isAfter`: strictly later on the clock. */
  predicate IsAfter(a: Tod, b: Tod) { a > b }

  /** `LocalTime.plusHours`: adds hours on a 24-hour clock, so the result wraps
      past midnight. */
  function PlusHours(t: Tod, hours: nat): (r: Tod)
  {
    (t + hours * SecondsPerHour) % SecondsPerDay
  }

  /** `plusHours` keeps the minutes and seconds and advances the hour field
      modulo 24, which is how `LocalTime` defines it. */
  lemma PlusHoursAdvancesHourField(t: Tod, hours: nat)
    ensures PlusHours(t, hours) % SecondsPerHour == t % SecondsPerHour
    ensures HourOf(PlusHours(t, hours)) == (HourOf(t) + hours) % 24
  {
    var h, s := t / 3600, t % 3600;
    var m, q := (h + hours) % 24, (h + hours) / 24;
    var v := m * 3600 + s;
    assert t + hours * 3600 == q * 86400 + v by {
      assert t == h * 3600 + s;
      assert h + hours == q * 24 + m;
    }
    DayRemainder(q, v);
    HourRemainder(m, s);
  }

  /** Whole days drop out of a time of day. */
  lemma DayRemainder(q: int, v: int)
    requires 0 <= v < 86400
    ensures (q * 86400 + v) % 86400 == v
  {
  }

  /** Splitting a time of day into its hour and the seconds past it. */
  lemma HourRemainder(m: int, s: int)
    requires 0 <= m < 24 && 0 <= s < 3600
    ensures (m * 3600 + s) % 3600 == s
    ensures (m * 3600 + s) / 3600 == m
  {
  }

  /** The per-day summary (`DayAttendanceDto`) that the helper computes. */
  datatype DayAttendance = DayAttendance(date: Date, totalTime: Tod)

  /** The `RepoHelper` collaborator, whose code is not part of this model: each
      of its operations is an arbitrary total function. */
  datatype RepoHelper = RepoHelper(
    findTimeBetweenTimestamps: (Tod, Tod) -> Tod,
    getDaysInMonth: (int, int) -> int,
    getTotalTimeInDay: (Date, EmpId) -> DayAttendance,
    isEmployeeExist: EmpId -> bool)
}
