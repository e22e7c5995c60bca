/** The day split the time computation evidently intends: a shift's time up
    to midnight goes to the bucket of its clock-in day, opened when the last
    bucket belongs to another day, and a shift that crosses midnight is cut
    there, its remainder opening the bucket of its clock-out day. No time is
    lost or invented. Beside it, concrete inputs on which the split as
    written in the service loses or invents time. */
module CorrectedHours {
  import opened Models
  import opened EmployeeService
  import opened JsArray
  import DateUtils

  /** The intended distance to the midnight that follows `timestamp`, in
      milliseconds. */
  function MsUntilMidnight(midnightAfter: int, timestamp: int): (ms: int)
    ensures timestamp + ms == midnightAfter
    ensures timestamp < midnightAfter ==> ms > 0
    ensures DateUtils.MillisecondsUntilMidnight(midnightAfter, timestamp) * 60000.0 == ms as real
  {
    midnightAfter - timestamp
  }

  /** The buckets so far and the day the last bucket belongs to. */
  datatype CalendarSplit = CalendarSplit(msByDays: seq<real>, day: Option<int>)

  /** One shift: a bucket is opened when the shift starts on a new day; a
      same-day shift adds its duration to that bucket; a crossing shift adds
      the time up to `midnightAfter(clockIn)` to it and opens a bucket for the
      time after that midnight. */
  function AddShiftByCalendar(st: CalendarSplit, shift: Shift, dayOf: int -> int, midnightAfter: int -> int)
    : (r: CalendarSplit)
    ensures r.msByDays != []
    ensures |st.msByDays| <= |r.msByDays| <= |st.msByDays| + 2
    ensures r.day == Some(dayOf(shift.clockOut))
  {
    var current := if st.day == Some(dayOf(shift.clockIn)) && st.msByDays != [] then st.msByDays
                  else st.msByDays + [0.0];
    var last := |current| - 1;
    if dayOf(shift.clockIn) == dayOf(shift.clockOut) then
      CalendarSplit(current[last := current[last] + (shift.clockOut - shift.clockIn) as real], Some(dayOf(shift.clockIn)))
    else
      var msUntilMidnight := MsUntilMidnight(midnightAfter(shift.clockIn), shift.clockIn);
      CalendarSplit(current[last := current[last] + msUntilMidnight as real]
                      + [(shift.clockOut - shift.clockIn - msUntilMidnight) as real],
                    Some(dayOf(shift.clockOut)))
  }

  /** What one shift does to the buckets. Its clock-in day's bucket is the
      last one when the last bucket belongs to that day, and a new one
      otherwise; every earlier bucket is kept. That bucket receives the
      whole shift, or for a crossing shift the time up to midnight, and the
      time after midnight goes to one new bucket, for the clock-out day. */
  lemma AddShiftByCalendarStep(st: CalendarSplit, shift: Shift, dayOf: int -> int, midnightAfter: int -> int)
    ensures var r := AddShiftByCalendar(st, shift, dayOf, midnightAfter).msByDays;
      var n := |st.msByDays|;
      var sameDay := st.day == Some(dayOf(shift.clockIn)) && n > 0;
      var crosses := dayOf(shift.clockIn) != dayOf(shift.clockOut);
      var worked := (shift.clockOut - shift.clockIn) as real;
      var beforeMidnight := (midnightAfter(shift.clockIn) - shift.clockIn) as real;
      var k := if sameDay then n - 1 else n;
      && r[..k] == st.msByDays[..k]
      && |r| == (if crosses then k + 2 else k + 1)
      && r[k] == (if sameDay then st.msByDays[n - 1] else 0.0) + (if crosses then beforeMidnight else worked)
      && (crosses ==> r[k + 1] == worked - beforeMidnight)
  {
  }

  function SplitDaysByCalendar(shifts: seq<Shift>, dayOf: int -> int, midnightAfter: int -> int): (r: CalendarSplit)
    ensures |r.msByDays| <= 2 * |shifts|
    ensures shifts != [] ==> r.msByDays != [] && r.day == Some(dayOf(shifts[|shifts| - 1].clockOut))
    decreases |shifts|
  {
    if shifts == [] then CalendarSplit([], None)
    else AddShiftByCalendar(SplitDaysByCalendar(shifts[..|shifts| - 1], dayOf, midnightAfter),
                            shifts[|shifts| - 1], dayOf, midnightAfter)
  }

  lemma SumOfUpdatedLast(s: seq<real>, v: real)
    requires s != []
    ensures Sum(s[|s| - 1 := v]) == Sum(s) - s[|s| - 1] + v
  {
    assert s[|s| - 1 := v][..|s| - 1] == s[..|s| - 1];
  }

  /** One shift adds exactly its clocked time to the buckets. */
  lemma AddShiftByCalendarAddsItsTime(st: CalendarSplit, shift: Shift, dayOf: int -> int, midnightAfter: int -> int)
    ensures Sum(AddShiftByCalendar(st, shift, dayOf, midnightAfter).msByDays)
         == Sum(st.msByDays) + (shift.clockOut - shift.clockIn) as real
  {
    var current := if st.day == Some(dayOf(shift.clockIn)) && st.msByDays != [] then st.msByDays
                  else st.msByDays + [0.0];
    assert Sum(current) == Sum(st.msByDays);
    var last := |current| - 1;
    if dayOf(shift.clockIn) == dayOf(shift.clockOut) {
      SumOfUpdatedLast(current, current[last] + (shift.clockOut - shift.clockIn) as real);
    } else {
      var msUntilMidnight := MsUntilMidnight(midnightAfter(shift.clockIn), shift.clockIn);
      var updated := current[last := current[last] + msUntilMidnight as real];
      SumOfUpdatedLast(current, current[last] + msUntilMidnight as real);
      assert (updated + [(shift.clockOut - shift.clockIn - msUntilMidnight) as real])[..|updated|] == updated;
    }
  }

  /** No time is lost or invented: the buckets hold exactly the clocked time. */
  lemma {:induction false} SplitDaysByCalendarConservesTime(shifts: seq<Shift>, dayOf: int -> int, midnightAfter: int -> int)
    ensures Sum(SplitDaysByCalendar(shifts, dayOf, midnightAfter).msByDays) == TotalWorked(shifts)
    decreases |shifts|
  {
    if shifts != [] {
      var init, shift := shifts[..|shifts| - 1], shifts[|shifts| - 1];
      SplitDaysByCalendarConservesTime(init, dayOf, midnightAfter);
      AddShiftByCalendarAddsItsTime(SplitDaysByCalendar(init, dayOf, midnightAfter), shift, dayOf, midnightAfter);
    }
  }

  /** The time information the service evidently intends. */
  function IntendedHoursInfo(employee: EmployeeWithShifts, dayOf: int -> int, midnightAfter: int -> int): (r: EmployeeTimeInfo)
    ensures r.employee == employee.AsEmployee()
    ensures r.regularMs + r.overtimeMs == Sum(SplitDaysByCalendar(employee.shifts, dayOf, midnightAfter).msByDays)
    ensures r.overtimeMs >= 0.0
  {
    var days := SplitDaysByCalendar(employee.shifts, dayOf, midnightAfter).msByDays;
    AllocationConservesTime(days);
    EmployeeTimeInfo(employee.AsEmployee(), OvertimeTotal(days), RegularTotal(days))
  }

  /** Regular time and overtime together are the employee's clocked time. */
  lemma IntendedHoursAreClockedTime(employee: EmployeeWithShifts, dayOf: int -> int, midnightAfter: int -> int)
    ensures var info := IntendedHoursInfo(employee, dayOf, midnightAfter);
      info.regularMs + info.overtimeMs == TotalWorked(employee.shifts) && info.overtimeMs >= 0.0
  {
    SplitDaysByCalendarConservesTime(employee.shifts, dayOf, midnightAfter);
  }

  // ---------------------------------------------------------------------------
  // Concrete inputs. Time 0 is a local midnight and days are 24 hours long.

  const Hour := 3600000
  const Day := 86400000

  function DayOf(t: int): int { t / Day }
  function MidnightAfter(t: int): int { (t / Day + 1) * Day }

  /** The time to the midnight after `t` in milliseconds, which is what the
      split as written needs in place of the minutes it gets. */
  function ExactUntilMidnight(t: int): real { MsUntilMidnight(MidnightAfter(t), t) as real }

  function Employee1(shifts: seq<Shift>): EmployeeWithShifts {
    EmployeeWithShifts("1", "Name", "test@test.test", 2.0, 1.0, shifts)
  }

  lemma AllocationOfOneDay(a: real)
    ensures RegularTotal([a]) == RegularPart(a) && OvertimeTotal([a]) == OvertimePart(a)
  {
    assert [a][..0] == [];
  }

  lemma AllocationOfTwoDays(a: real, b: real)
    ensures RegularTotal([a, b]) == RegularPart(a) + RegularPart(b)
    ensures OvertimeTotal([a, b]) == OvertimePart(a) + OvertimePart(b)
  {
    assert [a, b][..1] == [a];
    AllocationOfOneDay(a);
  }

  /** 23:00 to 11:00 the next day. */
  const NightShift := Shift("1", "1", 23 * Hour, Day + 11 * Hour)

  /** As written, even with the distance to midnight in milliseconds, the
      hours after midnight of a last crossing shift are never counted: of 12
      clocked hours only 1 is paid. */
  lemma CrossingShiftLosesWorkedTime()
    ensures TotalWorked([NightShift]) == 12.0 * Hour as real
    ensures SplitDays([NightShift], DayOf, ExactUntilMidnight) == DaySplit([0.0, Hour as real], (Day + 10 * Hour) as real)
    ensures HoursInfo(Employee1([NightShift]), DayOf, ExactUntilMidnight).regularMs == Hour as real
    ensures HoursInfo(Employee1([NightShift]), DayOf, ExactUntilMidnight).overtimeMs == 0.0
  {
    assert [NightShift][..0] == [];
    MaxNonOvertimeMsPerDayIsEightHours();
    AllocationOfTwoDays(0.0, Hour as real);
  }

  /** The calendar split pays the same shift as 9 regular hours and 3 hours of
      overtime: 1 hour before midnight and 11 after. */
  lemma NightShiftByCalendar()
    ensures SplitDaysByCalendar([NightShift], DayOf, MidnightAfter).msByDays == [Hour as real, 11.0 * Hour as real]
    ensures IntendedHoursInfo(Employee1([NightShift]), DayOf, MidnightAfter).regularMs == 9.0 * Hour as real
    ensures IntendedHoursInfo(Employee1([NightShift]), DayOf, MidnightAfter).overtimeMs == 3.0 * Hour as real
  {
    assert [NightShift][..0] == [];
    assert DayOf(NightShift.clockIn) == 0 && DayOf(NightShift.clockOut) == 1;
    assert MidnightAfter(NightShift.clockIn) == Day;
    MaxNonOvertimeMsPerDayIsEightHours();
    AllocationOfTwoDays(Hour as real, 11.0 * Hour as real);
  }

  /** 23:00 to 01:00, then 02:00 to 03:00. */
  const LateShift := Shift("1", "1", 23 * Hour, Day + Hour)
  const EarlyShift := Shift("2", "1", Day + 2 * Hour, Day + 3 * Hour)

  /** As written, the carry is `clockOut - msUntilMidnight`, a timestamp
      rather than the hour worked after midnight; the next same-day shift adds
      it to its bucket, and 3 clocked hours become a 26-hour day with 18 hours
      of overtime. */
  lemma CarryIsATimestamp()
    ensures TotalWorked([LateShift, EarlyShift]) == 3.0 * Hour as real
    ensures SplitDays([LateShift], DayOf, ExactUntilMidnight).msFromMidnight == Day as real
    ensures SplitDays([LateShift, EarlyShift], DayOf, ExactUntilMidnight).msByDays == [0.0, 26.0 * Hour as real]
    ensures HoursInfo(Employee1([LateShift, EarlyShift]), DayOf, ExactUntilMidnight).overtimeMs == 18.0 * Hour as real
  {
    assert [LateShift, EarlyShift][..1] == [LateShift];
    assert [LateShift][..0] == [];
    assert DayOf(LateShift.clockIn) == 0 && DayOf(LateShift.clockOut) == 1;
    assert DayOf(EarlyShift.clockIn) == 1 && DayOf(EarlyShift.clockOut) == 1;
    assert TotalWorked([LateShift]) == 2.0 * Hour as real;
    assert ExactUntilMidnight(LateShift.clockIn) == Hour as real;
    assert SplitDays([LateShift], DayOf, ExactUntilMidnight) == DaySplit([0.0, Hour as real], Day as real);
    MaxNonOvertimeMsPerDayIsEightHours();
    AllocationOfTwoDays(0.0, 26.0 * Hour as real);
  }

  /** The distance to midnight as the program computes it: minutes to
      `nextMidnight`, the midnight after the moment of the call. */
  function SourceUntilMidnight(nextMidnight: int): int -> real {
    (t: int) => DateUtils.MillisecondsUntilMidnight(nextMidnight, t)
  }

  /** With the program's own distance helper the night shift fares worse.
      The helper measures to `callMidnight`, the midnight after the moment
      the dashboard computes the hours, and returns minutes; the bucket
      before midnight receives that count, which is all that is paid. Called
      on the evening of the shift it is 60, so 60 ms are paid; each day of
      delay adds 1440 ms, and for any call up to 20000 days later it is all
      regular time. */
  lemma CrossingShiftWithMinutes(callMidnight: int)
    ensures var u := SourceUntilMidnight(callMidnight)(NightShift.clockIn);
      && u * 60000.0 == (callMidnight - 23 * Hour) as real
      && SourceUntilMidnight(callMidnight + Day)(NightShift.clockIn) == u + 1440.0
      && SplitDays([NightShift], DayOf, SourceUntilMidnight(callMidnight)).msByDays == [0.0, u]
      && HoursInfo(Employee1([NightShift]), DayOf, SourceUntilMidnight(callMidnight)).regularMs == RegularPart(u)
      && HoursInfo(Employee1([NightShift]), DayOf, SourceUntilMidnight(callMidnight)).overtimeMs == OvertimePart(u)
    ensures callMidnight == Day ==>
      HoursInfo(Employee1([NightShift]), DayOf, SourceUntilMidnight(callMidnight)).regularMs == 60.0
    ensures Day <= callMidnight <= 20000 * Day ==>
      var info := HoursInfo(Employee1([NightShift]), DayOf, SourceUntilMidnight(callMidnight));
      info.regularMs == SourceUntilMidnight(callMidnight)(NightShift.clockIn) && info.overtimeMs == 0.0
  {
    var u := SourceUntilMidnight(callMidnight)(NightShift.clockIn);
    assert [NightShift][..0] == [];
    assert DayOf(NightShift.clockIn) == 0 && DayOf(NightShift.clockOut) == 1;
    MaxNonOvertimeMsPerDayIsEightHours();
    AllocationOfTwoDays(0.0, u);
  }

  /** Real timestamps count milliseconds from the Unix epoch. In a time zone
      at UTC, `EpochEvening` is 23:00 on 3 February 2023 and `EpochMidnight`
      the midnight that follows it. */
  const EpochEvening := 1675465200000
  const EpochMidnight := 1675468800000

  /** 23:00 to 01:00, then 02:00 to 03:00, on real timestamps. */
  const EpochLateShift := Shift("1", "1", EpochEvening, EpochEvening + 2 * Hour)
  const EpochEarlyShift := Shift("2", "1", EpochEvening + 3 * Hour, EpochEvening + 4 * Hour)

  /** The carry on real timestamps, with the program's own distance helper
      measuring to `callMidnight`: the carry is a timestamp minus the minutes
      the helper returns (60 when called that evening), and whatever the call
      time the second shift's bucket holds `EpochEvening + 3h`, about 1.7e12
      ms, all but 8 hours of it overtime. */
  lemma EpochCarryIsATimestamp(callMidnight: int)
    ensures TotalWorked([EpochLateShift, EpochEarlyShift]) == 3.0 * Hour as real
    ensures var u := SourceUntilMidnight(callMidnight)(EpochLateShift.clockIn);
      SplitDays([EpochLateShift], DayOf, SourceUntilMidnight(callMidnight)).msFromMidnight
        == (EpochEvening + 2 * Hour) as real - u
    ensures callMidnight == EpochMidnight ==> SourceUntilMidnight(callMidnight)(EpochLateShift.clockIn) == 60.0
    ensures SplitDays([EpochLateShift, EpochEarlyShift], DayOf, SourceUntilMidnight(callMidnight)).msByDays
         == [0.0, (EpochEvening + 3 * Hour) as real]
    ensures HoursInfo(Employee1([EpochLateShift, EpochEarlyShift]), DayOf, SourceUntilMidnight(callMidnight)).overtimeMs
         == (EpochEvening - 5 * Hour) as real
  {
    var untilMidnight := SourceUntilMidnight(callMidnight);
    var u := untilMidnight(EpochLateShift.clockIn);
    assert [EpochLateShift, EpochEarlyShift][..1] == [EpochLateShift];
    assert [EpochLateShift][..0] == [];
    assert DayOf(EpochLateShift.clockIn) == 19391 && DayOf(EpochLateShift.clockOut) == 19392;
    assert DayOf(EpochEarlyShift.clockIn) == 19392 && DayOf(EpochEarlyShift.clockOut) == 19392;
    assert TotalWorked([EpochLateShift]) == 2.0 * Hour as real;
    assert SplitDays([EpochLateShift], DayOf, untilMidnight)
        == DaySplit([0.0, u], (EpochEvening + 2 * Hour) as real - u);
    MaxNonOvertimeMsPerDayIsEightHours();
    AllocationOfTwoDays(0.0, (EpochEvening + 3 * Hour) as real);
  }

  /** The calendar split pays the same shifts as 3 regular hours. */
  lemma LateAndEarlyShiftsByCalendar()
    ensures SplitDaysByCalendar([LateShift, EarlyShift], DayOf, MidnightAfter).msByDays == [Hour as real, 2.0 * Hour as real]
    ensures IntendedHoursInfo(Employee1([LateShift, EarlyShift]), DayOf, MidnightAfter).regularMs == 3.0 * Hour as real
    ensures IntendedHoursInfo(Employee1([LateShift, EarlyShift]), DayOf, MidnightAfter).overtimeMs == 0.0
  {
    assert [LateShift, EarlyShift][..1] == [LateShift];
    assert [LateShift][..0] == [];
    assert DayOf(LateShift.clockIn) == 0 && DayOf(LateShift.clockOut) == 1;
    assert DayOf(EarlyShift.clockIn) == 1 && DayOf(EarlyShift.clockOut) == 1;
    assert MidnightAfter(LateShift.clockIn) == Day;
    assert SplitDaysByCalendar([LateShift], DayOf, MidnightAfter) == CalendarSplit([Hour as real, Hour as real], Some(1));
    MaxNonOvertimeMsPerDayIsEightHours();
    AllocationOfTwoDays(Hour as real, 2.0 * Hour as real);
  }

  /** 09:00 to 15:00 on two consecutive days. */
  const MondayShift := Shift("1", "1", 9 * Hour, 15 * Hour)
  const TuesdayShift := Shift("2", "1", Day + 9 * Hour, Day + 15 * Hour)

  /** As written, a bucket is only opened by a shift that crosses midnight, so
      two 6-hour days share one 12-hour bucket and 4 hours become overtime. */
  lemma SeparateDaysShareOneBucket()
    ensures SplitDays([MondayShift, TuesdayShift], DayOf, ExactUntilMidnight).msByDays == [12.0 * Hour as real]
    ensures HoursInfo(Employee1([MondayShift, TuesdayShift]), DayOf, ExactUntilMidnight).overtimeMs == 4.0 * Hour as real
  {
    assert [MondayShift, TuesdayShift][..1] == [MondayShift];
    assert [MondayShift][..0] == [];
    assert DayOf(MondayShift.clockIn) == 0 && DayOf(MondayShift.clockOut) == 0;
    assert DayOf(TuesdayShift.clockIn) == 1 && DayOf(TuesdayShift.clockOut) == 1;
    assert SplitDays([MondayShift], DayOf, ExactUntilMidnight) == DaySplit([6.0 * Hour as real], 0.0);
    MaxNonOvertimeMsPerDayIsEightHours();
    AllocationOfOneDay(12.0 * Hour as real);
  }

  /** The calendar split gives each day its own bucket and no overtime. */
  lemma SeparateDaysByCalendar()
    ensures SplitDaysByCalendar([MondayShift, TuesdayShift], DayOf, MidnightAfter).msByDays == [6.0 * Hour as real, 6.0 * Hour as real]
    ensures IntendedHoursInfo(Employee1([MondayShift, TuesdayShift]), DayOf, MidnightAfter).overtimeMs == 0.0
  {
    assert [MondayShift, TuesdayShift][..1] == [MondayShift];
    assert [MondayShift][..0] == [];
    assert DayOf(MondayShift.clockIn) == 0 && DayOf(MondayShift.clockOut) == 0;
    assert DayOf(TuesdayShift.clockIn) == 1 && DayOf(TuesdayShift.clockOut) == 1;
    assert SplitDaysByCalendar([MondayShift], DayOf, MidnightAfter) == CalendarSplit([6.0 * Hour as real], Some(0));
    MaxNonOvertimeMsPerDayIsEightHours();
    AllocationOfTwoDays(6.0 * Hour as real, 6.0 * Hour as real);
  }

  /** As written, the distance from 23:00 to midnight comes out as 60: minutes,
      not the 3600000 milliseconds the split adds it to. And it is measured to
      the midnight after the moment of the call, so a shift from an earlier
      day gets more than a day. */
  lemma UntilMidnightReturnsMinutes()
    ensures DateUtils.MillisecondsUntilMidnight(Day, 23 * Hour) == 60.0
    ensures MsUntilMidnight(Day, 23 * Hour) == Hour
    ensures DateUtils.MillisecondsUntilMidnight(3 * Day, 23 * Hour) * 60000.0 > Day as real
  {
  }
}
