/** The attendance tracker (`AttendanceServiceImpl`): a per-employee
    open/closed state machine over the table of attendance rows. The table is
    a sequence of rows in the order they were saved, so ids ascend along it;
    "now" and "today" are parameters of the operations that read the clock. */
module AttendanceTracking {
  import opened Common

  /** One attendance row; a check-out of None is a row still open. */
  datatype Attendance = Attendance(
    attendanceId: nat,
    employee: EmpId,
    date: Date,
    checkIn: Tod,
    checkOut: Option<Tod>,
    spentHours: Option<Tod>)

  /** Rows were saved with ever larger generated ids. */
  ghost predicate IdsAscending(rows: seq<Attendance>)
  {
    forall i, j :: 0 <= i < j < |rows| ==> rows[i].attendanceId < rows[j].attendanceId
  }

  // ---------------------------------------------------------------------------
  // Queries on the table (read only)
  // ---------------------------------------------------------------------------

  /** `findById`: the position of the row with the given id. */
  function IndexOfId(rows: seq<Attendance>, id: int): (r: Option<nat>)
    ensures r.Some? ==> r.value < |rows| && rows[r.value].attendanceId == id
    ensures r.None? <==> forall i :: 0 <= i < |rows| ==> rows[i].attendanceId != id
  {
    if rows == [] then None
    else if rows[0].attendanceId == id then Some(0)
    else match IndexOfId(rows[1..], id)
      case None => None
      case Some(k) => Some(k + 1)
  }

  /** `isAttendanceExist`. */
  function IsAttendanceExist(rows: seq<Attendance>, id: int): (b: bool)
    ensures b <==> exists i :: 0 <= i < |rows| && rows[i].attendanceId == id
  {
    IndexOfId(rows, id).Some?
  }

  /** `getAttendanceByAttendanceId`: the row with that id, or
      AttendanceException when there is none. */
  function GetAttendanceByAttendanceId(rows: seq<Attendance>, id: int): (r: Result<Attendance>)
    ensures r.Ok? <==> IsAttendanceExist(rows, id)
    ensures r.Ok? ==> r.value in rows && r.value.attendanceId == id
    ensures r.Err? ==> r.error == Failure(AttendanceException, AttendanceNotFoundWithAttendanceId(id))
  {
    match IndexOfId(rows, id)
    case Some(i) => Ok(rows[i])
    case None => Err(Failure(AttendanceException, AttendanceNotFoundWithAttendanceId(id)))
  }

  /** A row with a lower id than every row of an ascending table can go first. */
  lemma PrependKeepsIdsAscending(x: Attendance, rest: seq<Attendance>)
    requires IdsAscending(rest)
    requires forall y :: y in rest ==> x.attendanceId < y.attendanceId
    ensures IdsAscending([x] + rest)
  {
    var r := [x] + rest;
    forall i, j | 0 <= i < j < |r| ensures r[i].attendanceId < r[j].attendanceId {
      if i == 0 {
        assert r[j] == rest[j - 1];
      } else {
        assert r[i] == rest[i - 1] && r[j] == rest[j - 1];
      }
    }
  }

  /** `findByEmployeeEmployeeIdAndDate`: the employee's rows of that date, in
      table order. */
  function RowsOn(rows: seq<Attendance>, e: EmpId, d: Date): (r: seq<Attendance>)
    ensures forall x :: x in r <==> x in rows && x.employee == e && x.date == d
    ensures IdsAscending(rows) ==> IdsAscending(r)
  {
    if rows == [] then []
    else
      var rest := RowsOn(rows[1..], e, d);
      assert forall x :: x in rows[1..] ==> x in rows;
      if rows[0].employee == e && rows[0].date == d then
        assert IdsAscending(rows) ==> IdsAscending([rows[0]] + rest) by {
          if IdsAscending(rows) {
            forall x | x in rest ensures rows[0].attendanceId < x.attendanceId {
              var k :| 1 <= k < |rows| && rows[k] == x;
            }
            PrependKeepsIdsAscending(rows[0], rest);
          }
        }
        [rows[0]] + rest
      else rest
  }

  /** `getAttendanceByDateAndEmployeeId`: an empty result is an error. */
  function GetAttendanceByDateAndEmployeeId(rows: seq<Attendance>, d: Date, e: EmpId): (r: Result<seq<Attendance>>)
    ensures r.Err? <==> forall x :: x in rows ==> !(x.employee == e && x.date == d)
    ensures r.Err? ==> r.error == Failure(AttendanceException, AttendanceNotFoundWithEmployeeIdAndDate(e, d))
    ensures r.Ok? ==> r.value == RowsOn(rows, e, d) && r.value != []
  {
    var found := RowsOn(rows, e, d);
    if found == [] then Err(Failure(AttendanceException, AttendanceNotFoundWithEmployeeIdAndDate(e, d)))
    else
      assert found[0] in found;
      Ok(found)
  }

  /** `getAttendanceByEmployeeId`: the rows of today; its own emptiness test
      comes after the lookup has already refused an empty result. */
  function GetAttendanceByEmployeeId(rows: seq<Attendance>, e: EmpId, today: Date): (r: Result<seq<Attendance>>)
    ensures r.Err? <==> RowsOn(rows, e, today) == []
    ensures r.Err? ==> r.error == Failure(AttendanceException, AttendanceNotFoundWithEmployeeIdAndDate(e, today))
    ensures r.Ok? ==> forall x :: x in r.value <==> x in rows && x.employee == e && x.date == today
  {
    match GetAttendanceByDateAndEmployeeId(rows, today, e)
    case Err(f) => Err(f)
    case Ok(found) =>
      if found == [] then Err(Failure(AttendanceException, AttendanceNotFoundWithId(e)))
      else Ok(found)
  }

  /** All rows of one employee, in table order. */
  function EmployeeRows(rows: seq<Attendance>, e: EmpId): (r: seq<Attendance>)
    ensures forall x :: x in r <==> x in rows && x.employee == e
    ensures |r| <= |rows|
  {
    if rows == [] then []
    else
      assert forall x :: x in rows[1..] ==> x in rows;
      (if rows[0].employee == e then [rows[0]] else []) + EmployeeRows(rows[1..], e)
  }

  /** `findByUserId`: position of the employee's row with the highest id,
      which is the last of the employee's rows in the table. */
  function LastRowIndex(rows: seq<Attendance>, e: EmpId): (r: Option<nat>)
    ensures r.Some? ==> r.value < |rows| && rows[r.value].employee == e
    ensures r.Some? ==> forall j :: r.value < j < |rows| ==> rows[j].employee != e
    ensures r.None? <==> forall j :: 0 <= j < |rows| ==> rows[j].employee != e
  {
    if rows == [] then None
    else
      var last := |rows| - 1;
      if rows[last].employee == e then Some(last)
      else LastRowIndex(rows[..last], e)
  }

  /** The row `findByUserId` picks is the employee's row with the highest id. */
  lemma LastRowHasHighestId(rows: seq<Attendance>, e: EmpId)
    requires IdsAscending(rows)
    requires LastRowIndex(rows, e).Some?
    ensures forall x :: x in rows && x.employee == e ==>
              x.attendanceId <= rows[LastRowIndex(rows, e).value].attendanceId
  {
    var i := LastRowIndex(rows, e).value;
    forall x | x in rows && x.employee == e
      ensures x.attendanceId <= rows[i].attendanceId
    {
      var j :| 0 <= j < |rows| && rows[j] == x;
      assert j <= i;
    }
  }

  /** The first row that the by-date lookup lists is the day's row with the
      lowest id. */
  lemma FirstRowOfDayHasLowestId(rows: seq<Attendance>, e: EmpId, d: Date)
    requires IdsAscending(rows)
    requires RowsOn(rows, e, d) != []
    ensures forall x :: x in rows && x.employee == e && x.date == d ==>
              RowsOn(rows, e, d)[0].attendanceId <= x.attendanceId
  {
    var day := RowsOn(rows, e, d);
    forall x | x in rows && x.employee == e && x.date == d
      ensures day[0].attendanceId <= x.attendanceId
    {
      var k :| 0 <= k < |day| && day[k] == x;
      assert k == 0 || day[0].attendanceId < day[k].attendanceId;
    }
  }

  // ---------------------------------------------------------------------------
  // Check-in
  // ---------------------------------------------------------------------------

  /** `findTopByEmployeeEmployeeIdOrderByEmployeeEmployeeIdDesc` orders rows
      that all share the same employee id, so which row it returns is up to the
      store: `pick` is the position, among the employee's rows, of the row it
      returns. The query returns null when the employee has no rows. */
  ghost predicate ValidPick(rows: seq<Attendance>, e: EmpId, pick: nat)
  {
    EmployeeRows(rows, e) == [] || pick < |EmployeeRows(rows, e)|
  }

  /** Check-in is refused when the row the store returns is open. */
  function CheckInRefused(rows: seq<Attendance>, e: EmpId, pick: nat): (b: bool)
    requires ValidPick(rows, e, pick)
    ensures b ==> exists x :: x in rows && x.employee == e && x.checkOut.None?
    ensures (forall x :: x in rows && x.employee == e ==> x.checkOut.None?) ==>
              (b <==> exists x :: x in rows && x.employee == e)
  {
    var mine := EmployeeRows(rows, e);
    mine != [] && mine[pick].checkOut.None?
  }

  /** An open row does not stop a check-in when the store returns another,
      closed row of the same employee: a second open row can be opened. */
  lemma CheckInMayOpenSecondRow()
    ensures var closed := Attendance(1, 7, Date(2024, 1, 1), 32400, Some(64800), Some(32400));
            var open := Attendance(2, 7, Date(2024, 1, 2), 32400, None, None);
            var rows := [closed, open];
            ValidPick(rows, 7, 0) && !CheckInRefused(rows, 7, 0) && open in rows
  {
    var closed := Attendance(1, 7, Date(2024, 1, 1), 32400, Some(64800), Some(32400));
    var open := Attendance(2, 7, Date(2024, 1, 2), 32400, None, None);
    assert EmployeeRows([open], 7) == [open];
    assert EmployeeRows([closed, open], 7) == [closed, open];
  }

  // ---------------------------------------------------------------------------
  // Check-out
  // ---------------------------------------------------------------------------

  /** The check-out time that `checkOutAttendance` writes on the open row
      `last`: the clock when the row is of today, and otherwise the half-day
      rule, the check-in of the first row of that date (the lowest-id one)
      plus four hours. */
  function CheckOutTime(rows: seq<Attendance>, last: Attendance, today: Date, now: Tod): (t: Tod)
    requires last in rows
    ensures today == last.date ==> t == now
    ensures today != last.date ==>
              exists x :: x in rows && x.employee == last.employee && x.date == last.date &&
                t == PlusHours(x.checkIn, 4) &&
                (IdsAscending(rows) ==> forall y :: y in rows && y.employee == last.employee && y.date == last.date ==>
                   x.attendanceId <= y.attendanceId)
  {
    if today == last.date then now
    else
      var first := RowsOn(rows, last.employee, last.date);
      assert last in first;
      assert first[0] in first;
      assert IdsAscending(rows) ==> forall y :: y in rows && y.employee == last.employee && y.date == last.date ==>
               first[0].attendanceId <= y.attendanceId by {
        if IdsAscending(rows) {
          FirstRowOfDayHasLowestId(rows, last.employee, last.date);
        }
      }
      PlusHours(first[0].checkIn, 4)
  }

  /** A row of today is closed at the clock time. */
  lemma SameDayCheckOutIsNow(rows: seq<Attendance>, last: Attendance, today: Date, now: Tod)
    requires last in rows && last.date == today
    ensures CheckOutTime(rows, last, today, now) == now
  {
  }

  /** A row of an earlier date is closed at four hours past the check-in of
      that date's first row, whatever the clock says; `PlusHours` advances
      the hour field modulo 24 and keeps minutes and seconds
      (`PlusHoursAdvancesHourField`). */
  lemma StaleCheckOutIsHalfDay(rows: seq<Attendance>, last: Attendance, today: Date, now: Tod, now': Tod)
    requires last in rows && last.date != today
    ensures RowsOn(rows, last.employee, last.date) != []
    ensures var first := RowsOn(rows, last.employee, last.date)[0];
            CheckOutTime(rows, last, today, now) == PlusHours(first.checkIn, 4) &&
            CheckOutTime(rows, last, today, now') == PlusHours(first.checkIn, 4)
  {
    assert last in RowsOn(rows, last.employee, last.date);
  }

  /** The half-day rule can put the check-out before the check-in of the row
      it closes (a later row of the day), or wrap it past midnight. */
  lemma HalfDayMayPrecedeCheckIn()
    ensures var first := Attendance(1, 7, Date(2024, 1, 1), 32400, Some(36000), Some(3600));
            var last := Attendance(2, 7, Date(2024, 1, 1), 50400, None, None);
            var rows := [first, last];
            CheckOutTime(rows, last, Date(2024, 1, 2), 0) == 46800 < last.checkIn
    ensures var late := Attendance(3, 7, Date(2024, 1, 1), 79200, None, None);
            CheckOutTime([late], late, Date(2024, 1, 2), 0) == 7200 < late.checkIn
  {
    var first := Attendance(1, 7, Date(2024, 1, 1), 32400, Some(36000), Some(3600));
    var last := Attendance(2, 7, Date(2024, 1, 1), 50400, None, None);
    assert RowsOn([last], 7, Date(2024, 1, 1)) == [last];
    assert RowsOn([first, last], 7, Date(2024, 1, 1)) == [first, last];
    var late := Attendance(3, 7, Date(2024, 1, 1), 79200, None, None);
    assert RowsOn([late], 7, Date(2024, 1, 1)) == [late];
  }

  /** The row as `checkOutAttendance` saves it: check-out and spent time set
      (the helper's duration from check-in to check-out), nothing else
      changed. */
  function Closed(last: Attendance, out: Tod, helper: RepoHelper): (c: Attendance)
    ensures c.checkOut == Some(out)
    ensures c.spentHours == Some(helper.findTimeBetweenTimestamps(last.checkIn, out))
    ensures c.(checkOut := last.checkOut, spentHours := last.spentHours) == last
  {
    last.(checkOut := Some(out), spentHours := Some(helper.findTimeBetweenTimestamps(last.checkIn, out)))
  }

  // ---------------------------------------------------------------------------
  // Regularize
  // ---------------------------------------------------------------------------

  /** What the index loop of `regularize` finds among the day's rows from
      position `i` on. It reads rows 0 .. size-2 only: a row whose check-out is
      before `from` is a fit, and a row with no check-out makes the loop
      dereference null. */
  datatype Scan = FitsAfter(index: nat) | NullCheckOutAt(index: nat) | NoFit

  function ScanFrom(day: seq<Attendance>, from: Tod, i: nat): (s: Scan)
    decreases |day| - i
    ensures s.FitsAfter? ==> (i <= s.index < |day| - 1 &&
              day[s.index].checkOut.Some? && IsBefore(day[s.index].checkOut.value, from))
    ensures s.NullCheckOutAt? ==> i <= s.index < |day| - 1 && day[s.index].checkOut.None?
    ensures !s.NoFit? ==> forall k :: i <= k < s.index ==>
              day[k].checkOut.Some? && !IsBefore(day[k].checkOut.value, from)
    ensures s.NoFit? ==> forall k :: i <= k < |day| - 1 ==>
              day[k].checkOut.Some? && !IsBefore(day[k].checkOut.value, from)
  {
    if i >= |day| - 1 then NoFit
    else if day[i].checkOut.None? then NullCheckOutAt(i)
    else if IsBefore(day[i].checkOut.value, from) then FitsAfter(i)
    else ScanFrom(day, from, i + 1)
  }

  /** With a single row of the day the loop body never runs. */
  lemma OneRowNeverFits(day: seq<Attendance>, from: Tod)
    requires |day| == 1
    ensures ScanFrom(day, from, 0) == NoFit
  {
  }

  /** The loop never looks at the end of the requested window: a window that
      overlaps the next row of the day is accepted. */
  lemma OverlappingWindowFits()
    ensures var morning := Attendance(1, 7, Date(2024, 1, 1), 28800, Some(32400), Some(3600));
            var noon := Attendance(2, 7, Date(2024, 1, 1), 34200, Some(43200), Some(9000));
            // 09:10 to 10:10 overlaps the row from 09:30 to 12:00
            ScanFrom([morning, noon], 33000, 0) == FitsAfter(0) && IsAfter(36600, noon.checkIn)
  {
  }

  /** No fit is looked for before the first row of the day: a window before
      every row is refused. */
  lemma WindowBeforeFirstRowRefused()
    ensures var morning := Attendance(1, 7, Date(2024, 1, 1), 28800, Some(32400), Some(3600));
            var noon := Attendance(2, 7, Date(2024, 1, 1), 34200, Some(43200), Some(9000));
            // 07:00 to 08:00 is before both rows
            ScanFrom([morning, noon], 25200, 0) == NoFit
  {
  }

  /** The row that `regularize` inserts: the row a check-in at `from`
      followed by a check-out at `to` would leave. */
  function RegularizedRow(id: nat, e: EmpId, d: Date, from: Tod, to: Tod, helper: RepoHelper): (r: Attendance)
    ensures r == Closed(Attendance(id, e, d, from, None, None), to, helper)
  {
    Attendance(id, e, d, from, Some(to), Some(helper.findTimeBetweenTimestamps(from, to)))
  }

  // ---------------------------------------------------------------------------
  // Partial update (`BeanUtils.copyProperties` with the null property names)
  // ---------------------------------------------------------------------------

  /** The writable properties of an attendance row. */
  datatype Property = DateProperty | CheckInProperty | CheckOutProperty | SpentHoursProperty | EmployeeProperty

  const Properties: seq<Property> :=
    [DateProperty, CheckInProperty, CheckOutProperty, SpentHoursProperty, EmployeeProperty]

  /** The attendance object a caller sends as the update: None is a null
      property. */
  datatype AttendancePatch = AttendancePatch(
    date: Option<Date>,
    checkIn: Option<Tod>,
    checkOut: Option<Tod>,
    spentHours: Option<Tod>,
    employee: Option<EmpId>)

  predicate IsNull(p: AttendancePatch, f: Property)
  {
    match f
    case DateProperty => p.date.None?
    case CheckInProperty => p.checkIn.None?
    case CheckOutProperty => p.checkOut.None?
    case SpentHoursProperty => p.spentHours.None?
    case EmployeeProperty => p.employee.None?
  }

  /** `getNullPropertyNames`: the set of the patch's null properties. */
  method GetNullPropertyNames(p: AttendancePatch) returns (names: set<Property>)
    ensures forall f :: f in names <==> IsNull(p, f)
  {
    names := {};
    for i := 0 to |Properties|
      invariant forall f :: f in names <==> f in Properties[..i] && IsNull(p, f)
    {
      if IsNull(p, Properties[i]) {
        names := names + {Properties[i]};
      }
    }
    assert Properties[..|Properties|] == Properties;
    forall f ensures f in Properties {
      match f
      case DateProperty =>
      case CheckInProperty =>
      case CheckOutProperty =>
      case SpentHoursProperty =>
      case EmployeeProperty => assert Properties[4] == f;
    }
  }

  /** `BeanUtils.copyProperties(src, dst, ignore)`: every property not ignored
      is copied from the source; the caller ignores at least the null ones.
      The id is never copied, and ignoring every property changes nothing. */
  function CopyProperties(src: AttendancePatch, dst: Attendance, ignore: set<Property>): (r: Attendance)
    requires forall f :: f !in ignore ==> !IsNull(src, f)
    ensures r.attendanceId == dst.attendanceId
    ensures (forall f :: f in ignore) ==> r == dst
  {
    assert DateProperty !in ignore ==> !IsNull(src, DateProperty);
    assert CheckInProperty !in ignore ==> !IsNull(src, CheckInProperty);
    assert EmployeeProperty !in ignore ==> !IsNull(src, EmployeeProperty);
    dst.(
      date := CopyValue(DateProperty in ignore, dst.date, src.date),
      checkIn := CopyValue(CheckInProperty in ignore, dst.checkIn, src.checkIn),
      checkOut := CopyReference(CheckOutProperty in ignore, dst.checkOut, src.checkOut),
      spentHours := CopyReference(SpentHoursProperty in ignore, dst.spentHours, src.spentHours),
      employee := CopyValue(EmployeeProperty in ignore, dst.employee, src.employee))
  }

  /** The patch semantics: a non-null field overwrites, a null field keeps the
      stored value. */
  ghost predicate IsPatchOf(r: Attendance, stored: Attendance, p: AttendancePatch)
  {
    r.attendanceId == stored.attendanceId &&
    r.date == p.date.GetOr(stored.date) &&
    r.checkIn == p.checkIn.GetOr(stored.checkIn) &&
    r.checkOut == p.checkOut.Or(stored.checkOut) &&
    r.spentHours == p.spentHours.Or(stored.spentHours) &&
    r.employee == p.employee.GetOr(stored.employee)
  }

  /** Copying while ignoring exactly the null properties is the patch. */
  lemma CopyIgnoringNullsIsPatch(p: AttendancePatch, stored: Attendance, names: set<Property>)
    requires forall f :: f in names <==> IsNull(p, f)
    ensures IsPatchOf(CopyProperties(p, stored, names), stored, p)
  {
  }

  /** The patch semantics determines the row, so applying a patch twice is
      the same as applying it once, and an all-null patch changes nothing. */
  lemma PatchIsDeterminedAndIdempotent(r: Attendance, r': Attendance, stored: Attendance, p: AttendancePatch)
    requires IsPatchOf(r, stored, p)
    ensures IsPatchOf(r', stored, p) <==> r' == r
    ensures IsPatchOf(r', r, p) <==> r' == r
    ensures p == AttendancePatch(None, None, None, None, None) ==> r == stored
  {
  }

  // ---------------------------------------------------------------------------
  // Monthly rollup
  // ---------------------------------------------------------------------------

  /** `getAttendanceByMonthAndEmployeeId`: one summary per day of the month,
      day 1 first. The day count is unboxed into the loop bound, so a count
      below 1 gives an empty list. */
  method GetAttendanceByMonthAndEmployeeId(helper: RepoHelper, month: int, year: int, e: EmpId)
    returns (days: seq<DayAttendance>)
    ensures |days| == if helper.getDaysInMonth(month, year) < 1 then 0 else helper.getDaysInMonth(month, year)
    ensures forall k :: 0 <= k < |days| ==>
              days[k] == helper.getTotalTimeInDay(Date(year, month, k + 1), e)
  {
    var count := helper.getDaysInMonth(month, year);
    days := [];
    var i := 1;
    while i <= count
      invariant 1 <= i <= (if count < 1 then 1 else count + 1)
      invariant |days| == i - 1
      invariant forall k :: 0 <= k < |days| ==>
                  days[k] == helper.getTotalTimeInDay(Date(year, month, k + 1), e)
    {
      var summary := helper.getTotalTimeInDay(Date(year, month, i), e);
      days := days + [summary];
      i := i + 1;
    }
  }

  // ---------------------------------------------------------------------------
  // The service over its table
  // ---------------------------------------------------------------------------

  /** Replacing a row by one with the same id keeps the ids ascending. */
  lemma SameIdReplacementKeepsIdsAscending(rows: seq<Attendance>, i: nat, x: Attendance)
    requires IdsAscending(rows) && i < |rows| && x.attendanceId == rows[i].attendanceId
    ensures IdsAscending(rows[i := x])
    ensures forall y :: y in rows[i := x] ==> y in rows || y == x
  {
    var r := rows[i := x];
    assert forall a :: 0 <= a < |r| ==> r[a].attendanceId == rows[a].attendanceId;
    forall y | y in r ensures y in rows || y == x {
      var a :| 0 <= a < |r| && r[a] == y;
      if a != i {
        assert y == rows[a];
      }
    }
  }

  /** Removing one row keeps the remaining ids ascending, and the removed
      id is then absent because ids are distinct. */
  lemma RemovalKeepsIdsAscending(rows: seq<Attendance>, i: nat)
    requires IdsAscending(rows) && i < |rows|
    ensures IdsAscending(rows[..i] + rows[i + 1..])
    ensures forall x :: x in rows[..i] + rows[i + 1..] ==>
              x in rows && x.attendanceId != rows[i].attendanceId
  {
    var rest := rows[..i] + rows[i + 1..];
    assert forall a :: 0 <= a < |rest| ==> rest[a] == rows[if a < i then a else a + 1];
    forall x | x in rest
      ensures x in rows && x.attendanceId != rows[i].attendanceId
    {
      var a :| 0 <= a < |rest| && rest[a] == x;
    }
  }

  class AttendanceTracker {
    /** The attendance table, in the order rows were saved. */
    var rows: seq<Attendance>
    /** The id the store generates for the next saved row. */
    var nextId: nat

    ghost predicate Valid()
      reads this
    {
      IdsAscending(rows) && forall x :: x in rows ==> x.attendanceId < nextId
    }

    constructor ()
      ensures Valid() && rows == [] && nextId == 1
    {
      rows := [];
      nextId := 1;
    }

    /** Saves a new row under the next generated id. */
    method Insert(row: Attendance) returns (saved: Attendance)
      requires Valid()
      modifies this
      ensures Valid()
      ensures saved == row.(attendanceId := old(nextId))
      ensures rows == old(rows) + [saved] && nextId == old(nextId) + 1
    {
      saved := row.(attendanceId := nextId);
      rows := rows + [saved];
      nextId := nextId + 1;
    }

    /** `checkInAttendance`: refused for an unknown employee and when the row
        the store returns is open; otherwise appends one open row of today
        and changes no existing row. `staff` is the set of employee ids. */
    method CheckInAttendance(staff: set<EmpId>, e: EmpId, pick: nat, today: Date, now: Tod)
      returns (r: Result<Attendance>)
      requires Valid()
      requires ValidPick(rows, e, pick)
      modifies this
      ensures Valid()
      ensures r.Err? ==> nextId == old(nextId)
      ensures r.Ok? ==> nextId == old(nextId) + 1
      ensures e !in staff ==>
                r == Err(Failure(EmployeeException, EmployeeNotFoundWithId(e))) && rows == old(rows)
      ensures e in staff && CheckInRefused(old(rows), e, pick) ==>
                r == Err(Failure(AttendanceException, CheckOutFirstToCheckIn)) && rows == old(rows)
      ensures e in staff && !CheckInRefused(old(rows), e, pick) ==>
                r == Ok(Attendance(old(nextId), e, today, now, None, None)) &&
                rows == old(rows) + [r.value]
    {
      if e !in staff {
        return Err(Failure(EmployeeException, EmployeeNotFoundWithId(e)));
      }
      var mine := EmployeeRows(rows, e);
      var last: Option<Attendance> := if mine == [] then None else Some(mine[pick]);
      if last.Some? && last.value.checkOut.None? {
        return Err(Failure(AttendanceException, CheckOutFirstToCheckIn));
      }
      var row := Attendance(0, e, today, now, None, None);
      if last.None? {
        var saved := Insert(row);
        return Ok(saved);
      }
      if last.Some? && last.value.checkOut.None? {
        // `NeedToCheckOutBeforeCheckIn` would be thrown here: the test above already threw
        assert false;
      } else {
        var saved := Insert(row);
        return Ok(saved);
      }
    }

    /** `checkOutAttendance`: closes the employee's highest-id row, refusing
        when that row is already closed; with no row at all, `get(0)` of the
        empty query result fails first. Only that row changes. */
    method CheckOutAttendance(helper: RepoHelper, e: EmpId, today: Date, now: Tod)
      returns (r: Result<Attendance>)
      requires Valid()
      modifies this
      ensures Valid() && nextId == old(nextId)
      ensures !helper.isEmployeeExist(e) ==>
                r == Err(Failure(EmployeeException, EmployeeNotFoundWithId(e))) && rows == old(rows)
      ensures helper.isEmployeeExist(e) && LastRowIndex(old(rows), e).None? ==>
                r == Err(Failure(IndexOutOfBoundsException, NoMessage)) && rows == old(rows)
      ensures helper.isEmployeeExist(e) && LastRowIndex(old(rows), e).Some? ==>
                var i := LastRowIndex(old(rows), e).value;
                var last := old(rows)[i];
                if last.checkOut.Some? then
                  r == Err(Failure(AttendanceException, CheckInFirstToCheckOut)) && rows == old(rows)
                else
                  r == Ok(Closed(last, CheckOutTime(old(rows), last, today, now), helper)) &&
                  rows == old(rows)[i := r.value]
    {
      if !helper.isEmployeeExist(e) {
        return Err(Failure(EmployeeException, EmployeeNotFoundWithId(e)));
      }
      var index := LastRowIndex(rows, e);
      if index.None? {
        return Err(Failure(IndexOutOfBoundsException, NoMessage));
      }
      var i := index.value;
      var last := rows[i];
      var sameDay := GetAttendanceByDateAndEmployeeId(rows, last.date, e);
      assert last in RowsOn(rows, e, last.date);
      var first := sameDay.value[0];
      if last.checkOut.None? {
        var out: Tod;
        if today == last.date {
          out := now;
        } else {
          out := PlusHours(first.checkIn, 4);
        }
        var spent := helper.findTimeBetweenTimestamps(last.checkIn, out);
        var saved := last.(checkOut := Some(out), spentHours := Some(spent));
        assert out == CheckOutTime(rows, last, today, now);
        SameIdReplacementKeepsIdsAscending(rows, i, saved);
        rows := rows[i := saved];
        return Ok(saved);
      } else {
        return Err(Failure(AttendanceException, CheckInFirstToCheckOut));
      }
    }

    /** `regularize`: refuses an unknown employee, then a window whose length
        has an hour field above 2, then a date with no rows; it then inserts
        one closed row for the window after the first row (other than the
        last) whose check-out is before `from`. "Attendance Time is
        Overlapping" and the final empty-list error are never thrown. */
    method Regularize(helper: RepoHelper, staff: set<EmpId>, e: EmpId, date: Date, from: Tod, to: Tod)
      returns (r: Result<Attendance>)
      requires Valid()
      modifies this
      ensures Valid()
      ensures r.Err? ==> rows == old(rows) && nextId == old(nextId)
      ensures r.Err? ==> r.error.message != AttendanceTimeOverlapping && r.error.message != AttendanceNotFound
      ensures e !in staff ==> r == Err(Failure(EmployeeException, EmployeeNotFoundWithId(e)))
      ensures e in staff && HourOf(helper.findTimeBetweenTimestamps(from, to)) > 2 ==>
                r == Err(Failure(AttendanceException, NotRegularizable))
      ensures e in staff && HourOf(helper.findTimeBetweenTimestamps(from, to)) <= 2 ==>
                var day := RowsOn(old(rows), e, date);
                if day == [] then
                  r == Err(Failure(AttendanceException, AttendanceNotFoundWithEmployeeIdAndDate(e, date)))
                else match ScanFrom(day, from, 0)
                  case FitsAfter(_) =>
                    r == Ok(RegularizedRow(old(nextId), e, date, from, to, helper)) &&
                    rows == old(rows) + [r.value] && nextId == old(nextId) + 1
                  case NullCheckOutAt(_) => r == Err(Failure(NullPointerException, NoMessage))
                  case NoFit => r == Err(Failure(AttendanceException, CannotRegularize))
    {
      var spentHours := helper.findTimeBetweenTimestamps(from, to);
      if e !in staff {
        return Err(Failure(EmployeeException, EmployeeNotFoundWithId(e)));
      }
      if HourOf(spentHours) > 2 {
        return Err(Failure(AttendanceException, NotRegularizable));
      }
      var present := GetAttendanceByDateAndEmployeeId(rows, date, e);
      if present.Err? {
        return Err(present.error);
      }
      var day := present.value;
      var i := 0;
      while i < |day| - 1
        invariant 0 <= i <= |day| - 1
        invariant ScanFrom(day, from, i) == ScanFrom(day, from, 0)
      {
        if day[i].checkOut.None? {
          return Err(Failure(NullPointerException, NoMessage));
        }
        if IsBefore(day[i].checkOut.value, from) {
          if i != |day| - 1 {
            var saved := Insert(RegularizedRow(0, e, date, from, to, helper));
            return Ok(saved);
          } else {
            // the comparison with the next row and "Attendance Time is
            // Overlapping": the loop bound keeps i below size - 1
            assert false;
          }
        }
        i := i + 1;
      }
      if day == [] {
        // "Attendance not found": the lookup already threw for an empty list
        assert false;
      }
      return Err(Failure(AttendanceException, CannotRegularize));
    }

    /** `updateAttendance`: refused for an unknown id; otherwise the stored
        row takes every non-null field of the patch and keeps the rest. */
    method UpdateAttendance(id: int, patch: AttendancePatch) returns (r: Result<Attendance>)
      requires Valid()
      modifies this
      ensures Valid() && nextId == old(nextId)
      ensures IndexOfId(old(rows), id).None? ==>
                r == Err(Failure(AttendanceException, AttendanceNotFoundWithAttendanceId(id))) &&
                rows == old(rows)
      ensures IndexOfId(old(rows), id).Some? ==>
                var i := IndexOfId(old(rows), id).value;
                r.Ok? && IsPatchOf(r.value, old(rows)[i], patch) && rows == old(rows)[i := r.value]
    {
      if !IsAttendanceExist(rows, id) {
        return Err(Failure(AttendanceException, AttendanceNotFoundWithAttendanceId(id)));
      }
      var i := IndexOfId(rows, id).value;
      var stored := rows[i];
      var names := GetNullPropertyNames(patch);
      var updated := CopyProperties(patch, stored, names);
      CopyIgnoringNullsIsPatch(patch, stored, names);
      SameIdReplacementKeepsIdsAscending(rows, i, updated);
      rows := rows[i := updated];
      return Ok(updated);
    }

    /** `deleteAttendance`: refused for an unknown id; otherwise removes that
        row and returns it as it was before the deletion. */
    method DeleteAttendance(id: int) returns (r: Result<Attendance>)
      requires Valid()
      modifies this
      ensures Valid() && nextId == old(nextId)
      ensures IndexOfId(old(rows), id).None? ==>
                r == Err(Failure(AttendanceException, AttendanceNotFoundWithAttendanceId(id))) &&
                rows == old(rows)
      ensures IndexOfId(old(rows), id).Some? ==>
                var i := IndexOfId(old(rows), id).value;
                r == Ok(old(rows)[i]) && rows == old(rows)[..i] + old(rows)[i + 1..]
      ensures forall x :: x in rows ==> x.attendanceId != id
    {
      var index := IndexOfId(rows, id);
      if index.None? {
        return Err(Failure(AttendanceException, AttendanceNotFoundWithAttendanceId(id)));
      }
      var i := index.value;
      var removed := rows[i];
      RemovalKeepsIdsAscending(rows, i);
      rows := rows[..i] + rows[i + 1..];
      return Ok(removed);
    }
  }
}
