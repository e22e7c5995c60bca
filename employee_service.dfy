/** The employee service: grouping shifts under their employees, splitting an
    employee's time into per-day buckets and allocating each day into regular
    time and overtime, detecting which edited records changed, and the
    bookkeeping done while the changed records are saved.

    The two calls into the local-time `Date` library are parameters:
    `dayOfMonth` is `new Date(t).getDate()` and `untilMidnight` is
    `millisecondsUntilMidnight` (see `DateUtils.MillisecondsUntilMidnight`). */
module EmployeeService {
  import opened Models
  import opened JsArray
  import DateUtils

  const MaxNonOvertimeHourPerDay: real := 8.0
  const MaxNonOvertimeMsPerDay: real := DateUtils.HoursToMs(MaxNonOvertimeHourPerDay)

  /** The daily threshold is eight hours in milliseconds. */
  lemma MaxNonOvertimeMsPerDayIsEightHours()
    ensures MaxNonOvertimeMsPerDay == 28800000.0
  {
  }

  // ===========================================================================
  // Grouping shifts under employees (groupEmployeesShifts)

  /** The comparator `(a, b) => a.clockIn - b.clockIn`. */
  function ByClockIn(a: Shift, b: Shift): (r: int)
    ensures r < 0 <==> a.clockIn < b.clockIn
    ensures r == 0 <==> a.clockIn == b.clockIn
  {
    a.clockIn - b.clockIn
  }

  predicate ClockInNotAfter(a: Shift, b: Shift) {
    a.clockIn <= b.clockIn
  }

  function OwnedBy(id: string): Shift -> bool {
    (s: Shift) => s.employeeId == id
  }

  /** `shifts.filter((shift) => shift.employeeId === id)`. */
  function ShiftsOf(shifts: seq<Shift>, id: string): (r: seq<Shift>)
    ensures |r| <= |shifts|
    ensures forall k :: 0 <= k < |r| ==> r[k].employeeId == id
    ensures forall k :: 0 <= k < |shifts| && shifts[k].employeeId == id ==> shifts[k] in r
  {
    Filter(shifts, OwnedBy(id))
  }

  /** `{ ...employee, shifts: <its shifts sorted by clock-in> }`. */
  function Attach(e: Employee, shifts: seq<Shift>): (r: EmployeeWithShifts)
    ensures r.AsEmployee() == e
    ensures |r.shifts| == |ShiftsOf(shifts, e.id)|
  {
    WithShifts(e, SortWith(ShiftsOf(shifts, e.id), ByClockIn))
  }

  /** `employees.map(employee => Attach(employee, shifts))`. */
  function AttachShifts(employees: seq<Employee>, shifts: seq<Shift>): (r: seq<EmployeeWithShifts>)
    ensures |r| == |employees|
    ensures forall i :: 0 <= i < |r| ==> r[i] == Attach(employees[i], shifts)
    decreases |employees|
  {
    if employees == [] then []
    else AttachShifts(employees[..|employees| - 1], shifts) + [Attach(employees[|employees| - 1], shifts)]
  }

  function HasIdIn(ids: seq<string>): EmployeeWithShifts -> bool {
    (e: EmployeeWithShifts) => e.id in ids
  }

  function EmployeeIdIn(ids: seq<string>): Employee -> bool {
    (e: Employee) => e.id in ids
  }

  /** Shifts attached to every employee; with a non-empty `ids` (absent is
      `None`) only the employees whose id is listed are kept. */
  function GroupEmployeesShifts(employees: seq<Employee>, shifts: seq<Shift>, ids: Option<seq<string>>)
    : (r: seq<EmployeeWithShifts>)
    ensures ids.None? || ids.value == [] ==> |r| == |employees|
  {
    var result := AttachShifts(employees, shifts);
    if ids.Some? && |ids.value| != 0 then Filter(result, HasIdIn(ids.value)) else result
  }

  /** The employees the grouping keeps, in their input order. */
  function SelectedEmployees(employees: seq<Employee>, ids: Option<seq<string>>): (r: seq<Employee>)
    ensures |r| <= |employees|
  {
    if ids.Some? && |ids.value| != 0 then Filter(employees, EmployeeIdIn(ids.value)) else employees
  }

  /** Selection keeps all employees when no ids are given and otherwise
      exactly those with a listed id. */
  lemma SelectedEmployeesSpec(employees: seq<Employee>, ids: Option<seq<string>>)
    ensures ids.None? || ids.value == [] ==> SelectedEmployees(employees, ids) == employees
    ensures ids.Some? && ids.value != [] ==>
      (forall k :: 0 <= k < |employees| && employees[k].id in ids.value ==> employees[k] in SelectedEmployees(employees, ids))
      && (forall e :: e in SelectedEmployees(employees, ids) ==> e in employees && e.id in ids.value)
  {
    if ids.Some? && ids.value != [] {
      var sel := SelectedEmployees(employees, ids);
      forall e | e in sel ensures e in employees && e.id in ids.value {
        var k :| 0 <= k < |sel| && sel[k] == e;
      }
    }
  }

  /** Filtering the grouped records by id is grouping the filtered employees. */
  lemma {:induction false} FilterAttachCommute(employees: seq<Employee>, shifts: seq<Shift>, ids: seq<string>)
    ensures Filter(AttachShifts(employees, shifts), HasIdIn(ids))
         == AttachShifts(Filter(employees, EmployeeIdIn(ids)), shifts)
    decreases |employees|
  {
    if employees != [] {
      var init, last := employees[..|employees| - 1], employees[|employees| - 1];
      FilterAttachCommute(init, shifts, ids);
      var a := AttachShifts(employees, shifts);
      assert a[..|a| - 1] == AttachShifts(init, shifts);
      assert HasIdIn(ids)(Attach(last, shifts)) == EmployeeIdIn(ids)(last);
      var f := Filter(employees, EmployeeIdIn(ids));
      if EmployeeIdIn(ids)(last) {
        assert f[..|f| - 1] == Filter(init, EmployeeIdIn(ids));
      }
    }
  }

  lemma OwnShiftsSortedPermutation(e: Employee, shifts: seq<Shift>)
    ensures SortedBy(Attach(e, shifts).shifts, ClockInNotAfter)
    ensures forall sh :: multiset(Attach(e, shifts).shifts)[sh]
                         == if sh.employeeId == e.id then multiset(shifts)[sh] else 0
  {
    SortWithSorted(ShiftsOf(shifts, e.id), ByClockIn, ClockInNotAfter);
    SortWithPermutation(ShiftsOf(shifts, e.id), ByClockIn);
    forall sh ensures multiset(ShiftsOf(shifts, e.id))[sh] == if sh.employeeId == e.id then multiset(shifts)[sh] else 0 {
      FilterMultiset(shifts, OwnedBy(e.id), sh);
    }
  }

  function ClockInIs(c: int): Shift -> bool {
    (s: Shift) => s.clockIn == c
  }

  /** The sort is stable: an employee's shifts that clock in at the same
      instant keep the order they had in the input. */
  lemma EqualClockInsKeepInputOrder(e: Employee, shifts: seq<Shift>, c: int)
    ensures Filter(Attach(e, shifts).shifts, ClockInIs(c)) == Filter(ShiftsOf(shifts, e.id), ClockInIs(c))
  {
    SortWithStable(ShiftsOf(shifts, e.id), ByClockIn, ClockInIs(c));
  }

  /** The grouping returns the selected employees in input order, each with
      exactly its own shifts (as a multiset) ordered by clock-in. */
  lemma GroupEmployeesShiftsSpec(employees: seq<Employee>, shifts: seq<Shift>, ids: Option<seq<string>>)
    ensures var r := GroupEmployeesShifts(employees, shifts, ids);
      var sel := SelectedEmployees(employees, ids);
      && |r| == |sel|
      && forall i :: 0 <= i < |r| ==>
           && r[i].AsEmployee() == sel[i]
           && SortedBy(r[i].shifts, ClockInNotAfter)
           && forall sh :: multiset(r[i].shifts)[sh] == if sh.employeeId == r[i].id then multiset(shifts)[sh] else 0
  {
    if ids.Some? && |ids.value| != 0 {
      FilterAttachCommute(employees, shifts, ids.value);
    }
    var sel := SelectedEmployees(employees, ids);
    forall i | 0 <= i < |sel| {
      OwnShiftsSortedPermutation(sel[i], shifts);
    }
  }

  // ===========================================================================
  // Splitting an employee's time into days (getEmployeesHoursInfo, first loop)

  /** The state of the first loop: the buckets `msByDays` and the carry `msFromMidnight`. */
  datatype DaySplit = DaySplit(msByDays: seq<real>, msFromMidnight: real)

  predicate Crosses(shift: Shift, dayOfMonth: int -> int) {
    dayOfMonth(shift.clockIn) != dayOfMonth(shift.clockOut)
  }

  function CrossesMidnight(dayOfMonth: int -> int): Shift -> bool {
    (s: Shift) => Crosses(s, dayOfMonth)
  }

  /** One iteration of the loop over the shifts: a bucket is added exactly
      when the shift crosses midnight. */
  function AddShift(st: DaySplit, shift: Shift, dayOfMonth: int -> int, untilMidnight: int -> real): (r: DaySplit)
    requires st.msByDays != []
    ensures |r.msByDays| == |st.msByDays| + if Crosses(shift, dayOfMonth) then 1 else 0
  {
    var days, carry := st.msByDays, st.msFromMidnight;
    if dayOfMonth(shift.clockIn) == dayOfMonth(shift.clockOut) then
      var last := |days| - 1;
      var days' := days[last := days[last] + (shift.clockOut - shift.clockIn) as real];
      if carry != 0.0 then DaySplit(days'[last := days'[last] + carry], 0.0)
      else DaySplit(days', carry)
    else
      var pushed := days + [0.0];
      var msUntilMidnight := untilMidnight(shift.clockIn);
      DaySplit(pushed[|days| := pushed[|days|] + msUntilMidnight], shift.clockOut as real - msUntilMidnight)
  }

  /** The buckets and carry after the loop has seen `shifts`, from `[0]` and 0. */
  function SplitDays(shifts: seq<Shift>, dayOfMonth: int -> int, untilMidnight: int -> real): (r: DaySplit)
    ensures 1 <= |r.msByDays| <= |shifts| + 1
    decreases |shifts|
  {
    if shifts == [] then DaySplit([0.0], 0.0)
    else AddShift(SplitDays(shifts[..|shifts| - 1], dayOfMonth, untilMidnight), shifts[|shifts| - 1],
                  dayOfMonth, untilMidnight)
  }

  /** What one more shift does. A same-day shift adds its duration and the
      pending carry to the last bucket and clears the carry; earlier buckets
      are untouched. A crossing shift leaves every bucket as it was, pushes a
      bucket holding `untilMidnight(clockIn)` and replaces the carry, pending
      or not, by `clockOut - untilMidnight(clockIn)`. */
  lemma AddShiftStep(st: DaySplit, shift: Shift, dayOfMonth: int -> int, untilMidnight: int -> real)
    requires st.msByDays != []
    ensures var r := AddShift(st, shift, dayOfMonth, untilMidnight);
      var n := |st.msByDays|;
      if !Crosses(shift, dayOfMonth) then
        && r.msByDays[..n - 1] == st.msByDays[..n - 1]
        && r.msByDays[n - 1] == st.msByDays[n - 1] + (shift.clockOut - shift.clockIn) as real + st.msFromMidnight
        && r.msFromMidnight == 0.0
      else
        && r.msByDays[..n] == st.msByDays
        && r.msByDays[n] == untilMidnight(shift.clockIn)
        && r.msFromMidnight == shift.clockOut as real - untilMidnight(shift.clockIn)
  {
  }

  /** One bucket to start with and one more per shift that crosses midnight. */
  lemma {:induction false} SplitDaysBucketCount(shifts: seq<Shift>, dayOfMonth: int -> int, untilMidnight: int -> real)
    ensures |SplitDays(shifts, dayOfMonth, untilMidnight).msByDays| == 1 + |Filter(shifts, CrossesMidnight(dayOfMonth))|
    decreases |shifts|
  {
    if shifts != [] {
      var init := shifts[..|shifts| - 1];
      SplitDaysBucketCount(init, dayOfMonth, untilMidnight);
      assert init + [shifts[|shifts| - 1]] == shifts;
    }
  }

  /** Once a later bucket exists, an earlier bucket never changes again. */
  lemma {:induction false} ClosedBucketsAreFinal(shifts: seq<Shift>, k: nat, dayOfMonth: int -> int, untilMidnight: int -> real)
    requires k <= |shifts|
    ensures var b := SplitDays(shifts[..k], dayOfMonth, untilMidnight).msByDays;
      var f := SplitDays(shifts, dayOfMonth, untilMidnight).msByDays;
      |b| <= |f| && b[..|b| - 1] == f[..|b| - 1]
    decreases |shifts| - k
  {
    if k < |shifts| {
      var init := shifts[..|shifts| - 1];
      assert init[..k] == shifts[..k];
      ClosedBucketsAreFinal(init, k, dayOfMonth, untilMidnight);
      assert init + [shifts[|shifts| - 1]] == shifts;
    } else {
      assert shifts[..k] == shifts;
    }
  }

  /** The total clocked time of some shifts: `sum(clockOut - clockIn)`. */
  function TotalWorked(shifts: seq<Shift>): real
    decreases |shifts|
  {
    if shifts == [] then 0.0
    else TotalWorked(shifts[..|shifts| - 1]) + (shifts[|shifts| - 1].clockOut - shifts[|shifts| - 1].clockIn) as real
  }

  /** With no shift crossing midnight, everything lands in one bucket, which
      holds the total clocked time, and no carry is left. */
  lemma {:induction false} SplitDaysWithoutCrossing(shifts: seq<Shift>, dayOfMonth: int -> int, untilMidnight: int -> real)
    requires forall k :: 0 <= k < |shifts| ==> !Crosses(shifts[k], dayOfMonth)
    ensures SplitDays(shifts, dayOfMonth, untilMidnight) == DaySplit([TotalWorked(shifts)], 0.0)
    decreases |shifts|
  {
    if shifts != [] {
      var init := shifts[..|shifts| - 1];
      SplitDaysWithoutCrossing(init, dayOfMonth, untilMidnight);
    }
  }

  // ===========================================================================
  // Allocating each day into regular time and overtime (second loop)

  /** The part of a day's time paid at the regular rate. */
  function RegularPart(msOfDay: real): (r: real)
    ensures r <= MaxNonOvertimeMsPerDay
    ensures msOfDay < MaxNonOvertimeMsPerDay ==> r == msOfDay
    ensures msOfDay >= MaxNonOvertimeMsPerDay ==> r == MaxNonOvertimeMsPerDay
  {
    if msOfDay < MaxNonOvertimeMsPerDay then msOfDay else MaxNonOvertimeMsPerDay
  }

  /** The part of a day's time paid at the overtime rate. */
  function OvertimePart(msOfDay: real): (r: real)
    ensures r >= 0.0
    ensures r > 0.0 <==> msOfDay > MaxNonOvertimeMsPerDay
    ensures msOfDay >= MaxNonOvertimeMsPerDay ==> r == msOfDay - MaxNonOvertimeMsPerDay
    ensures RegularPart(msOfDay) + r == msOfDay
  {
    if msOfDay < MaxNonOvertimeMsPerDay then 0.0 else msOfDay - MaxNonOvertimeMsPerDay
  }

  function Sum(days: seq<real>): real
    decreases |days|
  {
    if days == [] then 0.0 else Sum(days[..|days| - 1]) + days[|days| - 1]
  }

  /** The regular time of the buckets: at most eight hours per bucket. */
  function RegularTotal(days: seq<real>): (r: real)
    ensures r <= MaxNonOvertimeMsPerDay * |days| as real
    decreases |days|
  {
    if days == [] then 0.0 else RegularTotal(days[..|days| - 1]) + RegularPart(days[|days| - 1])
  }

  /** The overtime of the buckets: never negative. */
  function OvertimeTotal(days: seq<real>): (r: real)
    ensures r >= 0.0
    decreases |days|
  {
    if days == [] then 0.0 else OvertimeTotal(days[..|days| - 1]) + OvertimePart(days[|days| - 1])
  }

  /** Regular time and overtime together are all the time in the buckets. */
  lemma {:induction false} AllocationConservesTime(days: seq<real>)
    ensures RegularTotal(days) + OvertimeTotal(days) == Sum(days)
    decreases |days|
  {
    if days != [] {
      AllocationConservesTime(days[..|days| - 1]);
    }
  }

  /** Days under the threshold give no overtime: all their time is regular. */
  lemma {:induction false} ShortDaysHaveNoOvertime(days: seq<real>)
    requires forall k :: 0 <= k < |days| ==> days[k] < MaxNonOvertimeMsPerDay
    ensures OvertimeTotal(days) == 0.0
    ensures RegularTotal(days) == Sum(days)
    decreases |days|
  {
    if days != [] {
      ShortDaysHaveNoOvertime(days[..|days| - 1]);
    }
  }

  /** The time information of one grouped employee. */
  function HoursInfo(employee: EmployeeWithShifts, dayOfMonth: int -> int, untilMidnight: int -> real): (r: EmployeeTimeInfo)
    ensures r.employee == employee.AsEmployee()
    ensures r.regularMs + r.overtimeMs == Sum(SplitDays(employee.shifts, dayOfMonth, untilMidnight).msByDays)
    ensures r.overtimeMs >= 0.0
  {
    var days := SplitDays(employee.shifts, dayOfMonth, untilMidnight).msByDays;
    AllocationConservesTime(days);
    EmployeeTimeInfo(employee.AsEmployee(), OvertimeTotal(days), RegularTotal(days))
  }

  /** The body of the `map` in getEmployeesHoursInfo: both loops. The carry
      left after the last shift is not part of any bucket, so it is not paid. */
  method EmployeeHoursInfo(employee: EmployeeWithShifts, dayOfMonth: int -> int, untilMidnight: int -> real)
    returns (info: EmployeeTimeInfo)
    ensures info == HoursInfo(employee, dayOfMonth, untilMidnight)
  {
    var msFromMidnight := 0.0;
    var msByDays: seq<real> := [0.0];
    for i := 0 to |employee.shifts|
      invariant DaySplit(msByDays, msFromMidnight) == SplitDays(employee.shifts[..i], dayOfMonth, untilMidnight)
    {
      assert employee.shifts[..i + 1][..i] == employee.shifts[..i];
      ghost var before := DaySplit(msByDays, msFromMidnight);
      var shift := employee.shifts[i];
      if dayOfMonth(shift.clockIn) == dayOfMonth(shift.clockOut) {
        msByDays := msByDays[|msByDays| - 1 := msByDays[|msByDays| - 1] + (shift.clockOut - shift.clockIn) as real];
        if msFromMidnight != 0.0 {
          msByDays := msByDays[|msByDays| - 1 := msByDays[|msByDays| - 1] + msFromMidnight];
          msFromMidnight := 0.0;
        }
      } else {
        msByDays := msByDays + [0.0];
        var msUntilMidnight := untilMidnight(shift.clockIn);
        msByDays := msByDays[|msByDays| - 1 := msByDays[|msByDays| - 1] + msUntilMidnight];
        msFromMidnight := shift.clockOut as real - msUntilMidnight;
      }
      assert DaySplit(msByDays, msFromMidnight) == AddShift(before, shift, dayOfMonth, untilMidnight);
    }
    assert employee.shifts[..|employee.shifts|] == employee.shifts;

    var regularMs, overtimeMs := 0.0, 0.0;
    for k := 0 to |msByDays|
      invariant regularMs == RegularTotal(msByDays[..k])
      invariant overtimeMs == OvertimeTotal(msByDays[..k])
    {
      assert msByDays[..k + 1][..k] == msByDays[..k];
      var msOfDay := msByDays[k];
      if msOfDay < MaxNonOvertimeMsPerDay {
        regularMs := regularMs + msOfDay;
      } else {
        regularMs := regularMs + MaxNonOvertimeMsPerDay;
        overtimeMs := overtimeMs + msOfDay - MaxNonOvertimeMsPerDay;
      }
    }
    assert msByDays[..|msByDays|] == msByDays;
    info := EmployeeTimeInfo(employee.AsEmployee(), overtimeMs, regularMs);
  }

  /** getEmployeesHoursInfo: every employee, in input order, with the time
      information of its grouped shifts. */
  method GetEmployeesHoursInfo(employees: seq<Employee>, shifts: seq<Shift>,
                               dayOfMonth: int -> int, untilMidnight: int -> real)
    returns (infos: seq<EmployeeTimeInfo>)
    ensures |infos| == |employees|
    ensures forall i :: 0 <= i < |infos| ==>
      && infos[i].employee == employees[i]
      && infos[i] == HoursInfo(Attach(employees[i], shifts), dayOfMonth, untilMidnight)
  {
    var grouped := GroupEmployeesShifts(employees, shifts, None);
    assert grouped == AttachShifts(employees, shifts);
    infos := [];
    for i := 0 to |grouped|
      invariant |infos| == i
      invariant forall j :: 0 <= j < i ==> infos[j] == HoursInfo(grouped[j], dayOfMonth, untilMidnight)
    {
      var info := EmployeeHoursInfo(grouped[i], dayOfMonth, untilMidnight);
      infos := infos + [info];
    }
    forall i | 0 <= i < |infos|
      ensures infos[i].employee == employees[i]
      ensures infos[i] == HoursInfo(Attach(employees[i], shifts), dayOfMonth, untilMidnight)
    {
      assert grouped[i] == Attach(employees[i], shifts);
    }
  }

  // ===========================================================================
  // Change detection (getEntitiesToUpdate)

  datatype DataToUpdate = DataToUpdate(employees: seq<Employee>, shifts: seq<Shift>)

  predicate EmployeeChanged(edited: EmployeeWithShifts, original: EmployeeWithShifts) {
    || edited.name != original.name
    || edited.hourlyRate != original.hourlyRate
    || edited.hourlyRateOvertime != original.hourlyRateOvertime
  }

  predicate ShiftChanged(edited: Shift, original: Shift) {
    edited.clockIn != original.clockIn || edited.clockOut != original.clockOut
  }

  /** Only the compared fields count: an employee whose only edit is its
      email, and a shift whose only edit is its owner, are not changed; and a
      changed record differs from its original. */
  lemma ChangesAreToComparedFields(e: EmployeeWithShifts, o: EmployeeWithShifts, s: Shift, t: Shift)
    ensures e.(email := o.email, shifts := o.shifts) == o ==> !EmployeeChanged(e, o)
    ensures EmployeeChanged(e, o) ==> e.AsEmployee() != o.AsEmployee()
    ensures s.(employeeId := t.employeeId) == t ==> !ShiftChanged(s, t)
    ensures ShiftChanged(s, t) ==> s != t
  {
  }

  /** The inner `forEach`: each original shift found by id among the edited
      shifts with a different clock-in or clock-out gives the edited shift. */
  function ChangedShiftsOf(oldShifts: seq<Shift>, newShifts: seq<Shift>): (r: seq<Shift>)
    decreases |oldShifts|
  {
    if oldShifts == [] then []
    else
      var prev := ChangedShiftsOf(oldShifts[..|oldShifts| - 1], newShifts);
      var oldShift := oldShifts[|oldShifts| - 1];
      match FindById(newShifts, ShiftId, oldShift.id)
      case Some(newShift) => if ShiftChanged(newShift, oldShift) then prev + [newShift] else prev
      case None => prev
  }

  /** What the outer loop collects over `oldData`, in its order. */
  function ChangeSet(oldData: seq<EmployeeWithShifts>, edited: seq<EmployeeWithShifts>): (r: DataToUpdate)
    decreases |oldData|
  {
    if oldData == [] then DataToUpdate([], [])
    else
      var prev := ChangeSet(oldData[..|oldData| - 1], edited);
      var oldItem := oldData[|oldData| - 1];
      match FindById(edited, EmployeeWithShiftsId, oldItem.id)
      case None => prev
      case Some(newItem) =>
        DataToUpdate(prev.employees + (if EmployeeChanged(newItem, oldItem) then [newItem.AsEmployee()] else []),
                     prev.shifts + ChangedShiftsOf(oldItem.shifts, newItem.shifts))
  }

  /** The inner loop of getEntitiesToUpdate, over the shifts of one original record. */
  method ChangedShifts(oldShifts: seq<Shift>, newShifts: seq<Shift>) returns (changed: seq<Shift>)
    ensures changed == ChangedShiftsOf(oldShifts, newShifts)
  {
    changed := [];
    for j := 0 to |oldShifts|
      invariant changed == ChangedShiftsOf(oldShifts[..j], newShifts)
    {
      assert oldShifts[..j + 1][..j] == oldShifts[..j];
      var oldShift := oldShifts[j];
      var newShift := FindById(newShifts, ShiftId, oldShift.id);
      if newShift.Some? && ShiftChanged(newShift.value, oldShift) {
        changed := changed + [newShift.value];
      }
    }
    assert oldShifts[..|oldShifts|] == oldShifts;
  }

  /** getEntitiesToUpdate: the outer loop over the original records, pushing
      into the two result arrays. */
  method GetEntitiesToUpdate(oldData: seq<EmployeeWithShifts>, employees: seq<EmployeeWithShifts>)
    returns (result: DataToUpdate)
    ensures result == ChangeSet(oldData, employees)
  {
    result := DataToUpdate([], []);
    for i := 0 to |oldData|
      invariant result == ChangeSet(oldData[..i], employees)
    {
      assert oldData[..i + 1][..i] == oldData[..i];
      var oldDataItem := oldData[i];
      var found := FindById(employees, EmployeeWithShiftsId, oldDataItem.id);
      if found.Some? {
        var newDataItem := found.value;
        var changedEmployees := result.employees;
        if EmployeeChanged(newDataItem, oldDataItem) {
          changedEmployees := changedEmployees + [newDataItem.AsEmployee()];
        }
        var changedShifts := ChangedShifts(oldDataItem.shifts, newDataItem.shifts);
        result := DataToUpdate(changedEmployees, result.shifts + changedShifts);
      }
    }
    assert oldData[..|oldData|] == oldData;
  }

  /** `o` is an original record whose edited counterpart (found by id) is `e`
      with a different name or rate. */
  predicate EmployeeEdit(o: EmployeeWithShifts, edited: seq<EmployeeWithShifts>, e: Employee) {
    var n := FindById(edited, EmployeeWithShiftsId, o.id);
    n.Some? && EmployeeChanged(n.value, o) && n.value.AsEmployee() == e
  }

  /** `os` is an original shift whose edited counterpart among `newShifts`
      (found by id) is `sh` with a different clock-in or clock-out. */
  predicate ShiftEdit(os: Shift, newShifts: seq<Shift>, sh: Shift) {
    FindById(newShifts, ShiftId, os.id) == Some(sh) && ShiftChanged(sh, os)
  }

  /** `os`, a shift of the original record `o`, was edited into `sh`. */
  predicate ShiftEditOf(o: EmployeeWithShifts, os: Shift, edited: seq<EmployeeWithShifts>, sh: Shift) {
    var n := FindById(edited, EmployeeWithShiftsId, o.id);
    n.Some? && ShiftEdit(os, n.value.shifts, sh)
  }

  /** The inner loop reports at most one shift per original shift. */
  lemma {:induction false} ChangedShiftsOfSize(oldShifts: seq<Shift>, newShifts: seq<Shift>)
    ensures |ChangedShiftsOf(oldShifts, newShifts)| <= |oldShifts|
    decreases |oldShifts|
  {
    if oldShifts != [] {
      ChangedShiftsOfSize(oldShifts[..|oldShifts| - 1], newShifts);
    }
  }

  /** The outer loop reports at most one employee per original record. */
  lemma {:induction false} ChangeSetSize(oldData: seq<EmployeeWithShifts>, edited: seq<EmployeeWithShifts>)
    ensures |ChangeSet(oldData, edited).employees| <= |oldData|
    decreases |oldData|
  {
    if oldData != [] {
      ChangeSetSize(oldData[..|oldData| - 1], edited);
    }
  }

  /** An employee record is reported exactly when it is the changed edited
      counterpart of some original record. */
  lemma {:induction false} ChangedEmployeesExactly(oldData: seq<EmployeeWithShifts>, edited: seq<EmployeeWithShifts>, e: Employee)
    ensures e in ChangeSet(oldData, edited).employees
        <==> exists k :: 0 <= k < |oldData| && EmployeeEdit(oldData[k], edited, e)
    decreases |oldData|
  {
    if oldData != [] {
      var init := oldData[..|oldData| - 1];
      ChangedEmployeesExactly(init, edited, e);
      assert forall k :: 0 <= k < |init| ==> init[k] == oldData[k];
      if exists k :: 0 <= k < |oldData| && EmployeeEdit(oldData[k], edited, e) {
        var k :| 0 <= k < |oldData| && EmployeeEdit(oldData[k], edited, e);
        if k < |init| {
          assert EmployeeEdit(init[k], edited, e);
        }
      }
    }
  }

  lemma {:induction false} ChangedShiftsOfExactly(oldShifts: seq<Shift>, newShifts: seq<Shift>, sh: Shift)
    ensures sh in ChangedShiftsOf(oldShifts, newShifts)
        <==> exists m :: 0 <= m < |oldShifts| && ShiftEdit(oldShifts[m], newShifts, sh)
    decreases |oldShifts|
  {
    if oldShifts != [] {
      var init := oldShifts[..|oldShifts| - 1];
      ChangedShiftsOfExactly(init, newShifts, sh);
      assert forall m :: 0 <= m < |init| ==> init[m] == oldShifts[m];
      if exists m :: 0 <= m < |oldShifts| && ShiftEdit(oldShifts[m], newShifts, sh) {
        var m :| 0 <= m < |oldShifts| && ShiftEdit(oldShifts[m], newShifts, sh);
        if m < |init| {
          assert ShiftEdit(init[m], newShifts, sh);
        }
      }
    }
  }

  /** Some shift of the original record `o` was edited into `sh`. */
  predicate ShiftEditIn(o: EmployeeWithShifts, edited: seq<EmployeeWithShifts>, sh: Shift) {
    exists m :: 0 <= m < |o.shifts| && ShiftEditOf(o, o.shifts[m], edited, sh)
  }

  /** For one original record: some shift of it was edited into `sh` exactly
      when its edited counterpart exists and the inner loop reports `sh`. */
  lemma ShiftEditInOne(o: EmployeeWithShifts, edited: seq<EmployeeWithShifts>, sh: Shift)
    ensures var n := FindById(edited, EmployeeWithShiftsId, o.id);
      ShiftEditIn(o, edited, sh) <==> n.Some? && sh in ChangedShiftsOf(o.shifts, n.value.shifts)
  {
    var n := FindById(edited, EmployeeWithShiftsId, o.id);
    if n.Some? {
      ChangedShiftsOfExactly(o.shifts, n.value.shifts, sh);
    }
  }

  /** The outer loop's last step: `sh` is reported after it exactly when it
      was reported before or is an edit of a shift of the last record. */
  lemma ChangeSetShiftsStep(oldData: seq<EmployeeWithShifts>, edited: seq<EmployeeWithShifts>, sh: Shift)
    requires oldData != []
    ensures sh in ChangeSet(oldData, edited).shifts
        <==> sh in ChangeSet(oldData[..|oldData| - 1], edited).shifts || ShiftEditIn(oldData[|oldData| - 1], edited, sh)
  {
    var init, o := oldData[..|oldData| - 1], oldData[|oldData| - 1];
    var prev := ChangeSet(init, edited).shifts;
    var n := FindById(edited, EmployeeWithShiftsId, o.id);
    ShiftEditInOne(o, edited, sh);
    if n.Some? {
      assert ChangeSet(oldData, edited).shifts == prev + ChangedShiftsOf(o.shifts, n.value.shifts);
    } else {
      assert ChangeSet(oldData, edited).shifts == prev;
    }
  }

  /** Some record of `all`, which is `init` followed by `o`, has a shift
      edited into `sh` exactly when some record of `init` has, or `o` has. */
  lemma ShiftEditsSplit(all: seq<EmployeeWithShifts>, init: seq<EmployeeWithShifts>, o: EmployeeWithShifts,
                        edited: seq<EmployeeWithShifts>, sh: Shift)
    requires all == init + [o]
    ensures (exists k :: 0 <= k < |all| && ShiftEditIn(all[k], edited, sh))
        <==> (exists k :: 0 <= k < |init| && ShiftEditIn(init[k], edited, sh)) || ShiftEditIn(o, edited, sh)
  {
    if exists k :: 0 <= k < |all| && ShiftEditIn(all[k], edited, sh) {
      var k :| 0 <= k < |all| && ShiftEditIn(all[k], edited, sh);
      if k < |init| {
        assert all[k] == init[k];
      }
    }
    if exists k :: 0 <= k < |init| && ShiftEditIn(init[k], edited, sh) {
      var k :| 0 <= k < |init| && ShiftEditIn(init[k], edited, sh);
      assert all[k] == init[k];
    }
    if ShiftEditIn(o, edited, sh) {
      assert all[|init|] == o;
    }
  }

  /** A shift record is reported exactly when it is the changed edited
      counterpart of a shift of some original record whose edited counterpart exists. */
  lemma {:induction false} ChangedShiftsExactly(oldData: seq<EmployeeWithShifts>, edited: seq<EmployeeWithShifts>, sh: Shift)
    ensures sh in ChangeSet(oldData, edited).shifts
        <==> exists k :: 0 <= k < |oldData| && ShiftEditIn(oldData[k], edited, sh)
    decreases |oldData|
  {
    if oldData != [] {
      var init, o := oldData[..|oldData| - 1], oldData[|oldData| - 1];
      ChangedShiftsExactly(init, edited, sh);
      ChangeSetShiftsStep(oldData, edited, sh);
      assert oldData == init + [o];
      ShiftEditsSplit(oldData, init, o, edited, sh);
    }
  }

  /** Records that are absent from the original snapshot are never reported:
      every reported id is the id of an original employee or of an original shift. */
  lemma ChangesComeFromOriginals(oldData: seq<EmployeeWithShifts>, edited: seq<EmployeeWithShifts>)
    ensures forall e :: e in ChangeSet(oldData, edited).employees ==>
      exists k :: 0 <= k < |oldData| && oldData[k].id == e.id
    ensures forall sh :: sh in ChangeSet(oldData, edited).shifts ==>
      exists k, m :: 0 <= k < |oldData| && 0 <= m < |oldData[k].shifts| && oldData[k].shifts[m].id == sh.id
  {
    forall e | e in ChangeSet(oldData, edited).employees
      ensures exists k :: 0 <= k < |oldData| && oldData[k].id == e.id
    {
      ChangedEmployeesExactly(oldData, edited, e);
      var k :| 0 <= k < |oldData| && EmployeeEdit(oldData[k], edited, e);
      assert oldData[k].id == e.id;
    }
    forall sh | sh in ChangeSet(oldData, edited).shifts
      ensures exists k, m :: 0 <= k < |oldData| && 0 <= m < |oldData[k].shifts| && oldData[k].shifts[m].id == sh.id
    {
      ChangedShiftsExactly(oldData, edited, sh);
      var k :| 0 <= k < |oldData| && ShiftEditIn(oldData[k], edited, sh);
      var m :| 0 <= m < |oldData[k].shifts| && ShiftEditOf(oldData[k], oldData[k].shifts[m], edited, sh);
      assert oldData[k].shifts[m].id == sh.id;
    }
  }

  /** Every original record is either not found among the edited ones or found equal in name, rates and shift times. */
  predicate Unedited(o: EmployeeWithShifts, edited: seq<EmployeeWithShifts>) {
    match FindById(edited, EmployeeWithShiftsId, o.id)
    case None => true
    case Some(n) =>
      && !EmployeeChanged(n, o)
      && forall m :: 0 <= m < |o.shifts| ==>
           match FindById(n.shifts, ShiftId, o.shifts[m].id)
           case None => true
           case Some(ns) => !ShiftChanged(ns, o.shifts[m])
  }

  lemma {:induction false} UneditedShiftsGiveNothing(oldShifts: seq<Shift>, newShifts: seq<Shift>)
    requires forall m :: 0 <= m < |oldShifts| ==>
      match FindById(newShifts, ShiftId, oldShifts[m].id)
      case None => true
      case Some(ns) => !ShiftChanged(ns, oldShifts[m])
    ensures ChangedShiftsOf(oldShifts, newShifts) == []
    decreases |oldShifts|
  {
    if oldShifts != [] {
      var init := oldShifts[..|oldShifts| - 1];
      assert forall m :: 0 <= m < |init| ==> init[m] == oldShifts[m];
      UneditedShiftsGiveNothing(init, newShifts);
    }
  }

  lemma {:induction false} UneditedGivesNothing(oldData: seq<EmployeeWithShifts>, edited: seq<EmployeeWithShifts>)
    requires forall k :: 0 <= k < |oldData| ==> Unedited(oldData[k], edited)
    ensures ChangeSet(oldData, edited) == DataToUpdate([], [])
    decreases |oldData|
  {
    if oldData != [] {
      var init, o := oldData[..|oldData| - 1], oldData[|oldData| - 1];
      assert forall k :: 0 <= k < |init| ==> init[k] == oldData[k];
      UneditedGivesNothing(init, edited);
      var n := FindById(edited, EmployeeWithShiftsId, o.id);
      if n.Some? {
        assert Unedited(o, edited);
        UneditedShiftsGiveNothing(o.shifts, n.value.shifts);
      }
    }
  }

  /** Comparing a snapshot with itself finds nothing to update, provided
      employee ids are distinct and each employee's shift ids are distinct
      (`find` returns the first match, so a duplicate id can pair a record
      with a different one). */
  lemma IdenticalSnapshotsHaveNoChanges(snapshot: seq<EmployeeWithShifts>)
    requires DistinctKeys(snapshot, EmployeeWithShiftsId)
    requires forall k :: 0 <= k < |snapshot| ==> DistinctKeys(snapshot[k].shifts, ShiftId)
    ensures ChangeSet(snapshot, snapshot) == DataToUpdate([], [])
  {
    forall k | 0 <= k < |snapshot| ensures Unedited(snapshot[k], snapshot) {
      FindByIdOfDistinct(snapshot, EmployeeWithShiftsId, k);
      var o := snapshot[k];
      forall m | 0 <= m < |o.shifts|
        ensures FindById(o.shifts, ShiftId, o.shifts[m].id) == Some(o.shifts[m])
      {
        FindByIdOfDistinct(o.shifts, ShiftId, m);
      }
    }
    UneditedGivesNothing(snapshot, snapshot);
  }

  // ===========================================================================
  // Saving (saveData): the empty check and the per-completion handlers

  /** `employees.map((employee) => employee.id)`. */
  function IdsOf(employees: seq<EmployeeWithShifts>): seq<string> {
    seq(|employees|, i requires 0 <= i < |employees| => employees[i].id)
  }

  /** The synchronous start of saveData over the cached lists: compare the
      cached records of the edited employees with the edited ones. With
      nothing to update, progress 100 is reported and no update is issued;
      otherwise the records to update are returned and nothing is reported yet. */
  method SaveData(cachedEmployees: seq<Employee>, cachedShifts: seq<Shift>, employees: seq<EmployeeWithShifts>)
    returns (dataToUpdate: DataToUpdate, reported: seq<int>)
    ensures dataToUpdate
         == ChangeSet(GroupEmployeesShifts(cachedEmployees, cachedShifts, Some(IdsOf(employees))), employees)
    ensures dataToUpdate.employees == [] && dataToUpdate.shifts == [] ==> reported == [100]
    ensures dataToUpdate.employees != [] || dataToUpdate.shifts != [] ==> reported == []
  {
    var employeesIds := IdsOf(employees);
    var oldData := GroupEmployeesShifts(cachedEmployees, cachedShifts, Some(employeesIds));
    dataToUpdate := GetEntitiesToUpdate(oldData, employees);
    if |dataToUpdate.employees| == 0 && |dataToUpdate.shifts| == 0 {
      reported := [100];
    } else {
      reported := [];
    }
  }

  /** Saving the grouped cache unedited issues no update (so saveData reports
      100 at once), when employee ids and shift ids are distinct. */
  lemma SavingUneditedDataIsNoop(employees: seq<Employee>, shifts: seq<Shift>)
    requires DistinctKeys(employees, EmployeeId)
    requires DistinctKeys(shifts, ShiftId)
    ensures var edited := GroupEmployeesShifts(employees, shifts, None);
      ChangeSet(GroupEmployeesShifts(employees, shifts, Some(IdsOf(edited))), edited) == DataToUpdate([], [])
  {
    var edited := GroupEmployeesShifts(employees, shifts, None);
    var ids := IdsOf(edited);
    if ids != [] {
      forall k | 0 <= k < |edited| ensures HasIdIn(ids)(edited[k]) {
        assert ids[k] == edited[k].id;
      }
      FilterAll(edited, HasIdIn(ids));
    }
    assert GroupEmployeesShifts(employees, shifts, Some(ids)) == edited;
    forall k | 0 <= k < |edited| ensures DistinctKeys(edited[k].shifts, ShiftId) {
      FilterDistinct(shifts, OwnedBy(employees[k].id), ShiftId);
      SortWithDistinct(ShiftsOf(shifts, employees[k].id), ByClockIn, ShiftId);
    }
    IdenticalSnapshotsHaveNoChanges(edited);
  }

  /** The state the saveData handlers share: the cached arrays (the very
      arrays the service holds, updated in place), the number of updates
      issued, the completion counter, and the values passed to `progress` so
      far. `getPercentage` is the helper of that name, whose definition is
      not part of this model. */
  class SaveProgress {
    const currEmployees: array<Employee>
    const currShifts: array<Shift>
    const progressTotal: nat
    const getPercentage: (int, int) -> int
    var progressCounter: nat
    var reported: seq<int>

    ghost predicate Valid()
      reads this
    {
      && progressCounter <= progressTotal
      && |reported| == progressCounter
      && forall k :: 0 <= k < |reported| ==> reported[k] == getPercentage(k + 1, progressTotal)
    }

    /** Set up once the change set is known to be non-empty. */
    constructor (currEmployees: array<Employee>, currShifts: array<Shift>, dataToUpdate: DataToUpdate,
                 getPercentage: (int, int) -> int)
      requires |dataToUpdate.employees| + |dataToUpdate.shifts| > 0
      ensures Valid()
      ensures this.currEmployees == currEmployees && this.currShifts == currShifts
      ensures this.getPercentage == getPercentage
      ensures progressTotal == |dataToUpdate.employees| + |dataToUpdate.shifts|
      ensures progressCounter == 0 && reported == []
    {
      this.currEmployees := currEmployees;
      this.currShifts := currShifts;
      this.getPercentage := getPercentage;
      progressTotal := |dataToUpdate.employees| + |dataToUpdate.shifts|;
      progressCounter := 0;
      reported := [];
    }

    /** An employee update completed with the saved record `savedEmployee`:
        count it, report progress, and put the record in place of the first
        cached employee with its id. */
    method EmployeeSaved(savedEmployee: Employee)
      requires Valid() && progressCounter < progressTotal
      modifies this`progressCounter, this`reported, currEmployees
      ensures Valid()
      ensures progressCounter == old(progressCounter) + 1
      ensures reported == old(reported) + [getPercentage(progressCounter, progressTotal)]
      ensures currEmployees[..] == ReplaceFirstById(old(currEmployees[..]), EmployeeId, savedEmployee)
      ensures progressCounter == progressTotal ==> reported[|reported| - 1] == getPercentage(progressTotal, progressTotal)
    {
      progressCounter := progressCounter + 1;
      reported := reported + [getPercentage(progressCounter, progressTotal)];
      var updateAt := IndexOfId(currEmployees, EmployeeId, savedEmployee.id);
      if updateAt >= 0 {
        currEmployees[updateAt] := savedEmployee;
      }
    }

    /** A shift update completed with the saved record `savedShift`. */
    method ShiftSaved(savedShift: Shift)
      requires Valid() && progressCounter < progressTotal
      modifies this`progressCounter, this`reported, currShifts
      ensures Valid()
      ensures progressCounter == old(progressCounter) + 1
      ensures reported == old(reported) + [getPercentage(progressCounter, progressTotal)]
      ensures currShifts[..] == ReplaceFirstById(old(currShifts[..]), ShiftId, savedShift)
      ensures progressCounter == progressTotal ==> reported[|reported| - 1] == getPercentage(progressTotal, progressTotal)
    {
      progressCounter := progressCounter + 1;
      reported := reported + [getPercentage(progressCounter, progressTotal)];
      var updateAt := IndexOfId(currShifts, ShiftId, savedShift.id);
      if updateAt >= 0 {
        currShifts[updateAt] := savedShift;
      }
    }
  }
}
