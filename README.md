# Employees productivity dashboard — a Dafny model of its core

The dashboard lists employees with the shifts they clocked and pays each day
of work at a regular rate up to eight hours and at an overtime rate beyond.
This project models its core:

- **the employee service** (`EmployeeService`, file `employee_service.dfy`):
  grouping shifts under their employees, splitting an employee's clocked time
  into day buckets and allocating each bucket into regular time and overtime,
  detecting which records an edit changed, and the bookkeeping of a save
  (the empty-change short cut, the progress counter and the in-place update of
  the cached arrays, modelled as a class over two arrays);
- **the employees table data source** (`EmployeesTable`, file
  `employees_table_datasource.dfy`): the column comparator, sorting and paging
  of the rows, and one emission of `connect`, which sorts and pages a copy of
  the rows and throws when the paginator or the sort is missing;
- **the date helpers** (`DateUtils`, file `date.dfy`): hours/milliseconds
  conversions and the distance to midnight.

`JsArray` (file `js_array.dfy`) gives the JavaScript array operations the code
relies on their exact meaning: `find`/`findIndex` return the first match,
`filter` keeps order, `sort` is stable (modelled as an insertion sort that
moves an element left past the elements it compares below, the test V8's
binary insertion sort makes, with an in-place array version proved equal to it), `splice` returns the removed run.
`Models` (file `models.dfy`) holds the record shapes. `CorrectedHours` (file
`corrected_hours.dfy`) holds the day split the service evidently intends and
concrete inputs on which the split as written goes wrong (see Findings).

Calls into the local-time `Date` library are parameters: `dayOfMonth`
(`new Date(t).getDate()`), `untilMidnight` (`millisecondsUntilMidnight`) and,
in `DateUtils.MillisecondsUntilMidnight`, the value of the next midnight after
the clock time of the call. `getPercentage` is a function parameter of the
save bookkeeping. Numbers are exact reals (amounts) or integers (timestamps in
milliseconds).

The time computation is modelled as the code is written, including the
behaviour recorded under Findings; the corrected split sits beside it in
`CorrectedHours` with the property the code evidently intends proved about it.

## Model

| member | source | states |
|---|---|---|
| `JsArray.FindIndexById` | src/app/features/dashboard/services/employee.service.ts:142 | `findIndex` by id: -1 exactly when no element has the id, otherwise the index of the first element with it |
| `JsArray.FindById` | src/app/features/dashboard/services/employee.service.ts:174 | `find` by id: absent exactly when no element has the id, otherwise the first element carrying it |
| `JsArray.FindByIdOfDistinct` | src/app/features/dashboard/services/employee.service.ts:184 | with distinct ids, looking up an element's own id finds that very element at its own index |
| `JsArray.IndexOfId` | src/app/features/dashboard/services/employee.service.ts:151 | the `findIndex` scan over an array returns the first index with the id, or -1 |
| `JsArray.ReplaceFirstById` | src/app/features/dashboard/services/employee.service.ts:142-143 | the cache keeps its length, and every element is either what it was or the saved record |
| `JsArray.ReplaceFirstByIdSpec` | src/app/features/dashboard/services/employee.service.ts:142-143 | writing at the found index: only the first element with the record's id is replaced, by the record; with no such element nothing changes; the ids of all elements stay as they were |
| `JsArray.ReplaceFirstByIdIdempotent` | src/app/features/dashboard/services/employee.service.ts:151-152 | saving the same record twice leaves the cache as saving it once |
| `JsArray.Filter` | src/app/features/dashboard/services/employee.service.ts:109 | `filter` keeps only elements satisfying the test, and keeps every element that satisfies it |
| `JsArray.FilterAppend` | src/app/features/dashboard/services/employee.service.ts:114 | filtering keeps the input order: a filtered concatenation is the concatenation of the filtered parts |
| `JsArray.FilterMultiset` | src/app/features/dashboard/services/employee.service.ts:109 | each kept value occurs as often as in the input, each rejected value not at all |
| `JsArray.FilterDistinct` | src/app/features/dashboard/services/employee.service.ts:109 | filtering keeps ids distinct |
| `JsArray.FilterAll` | src/app/features/dashboard/services/employee.service.ts:113-114 | when every element passes, the filter returns the input unchanged |
| `JsArray.Insert` | src/app/features/dashboard/components/employees-table/employees-table-datasource.ts:94 | one step of the stable sort, which moves the element left past the trailing elements it compares below: the result has one more element |
| `JsArray.SortWith` | src/app/features/dashboard/services/employee.service.ts:110 | `[...s].sort(cmp)` keeps the number of elements; its contents and order are stated by the lemmas below |
| `JsArray.SortWithPermutation` | src/app/features/dashboard/services/employee.service.ts:110 | `sort` only rearranges: the result is a permutation of the input |
| `JsArray.SortWithSorted` | src/app/features/dashboard/services/employee.service.ts:110 | the sorted result is ordered by any transitive relation the comparator respects in both directions |
| `JsArray.SortWithKeepsOrder` | src/app/features/dashboard/components/employees-table/employees-table-datasource.ts:107-108 | stability: a comparator that never compares an element below another leaves the order unchanged |
| `JsArray.InsertKeepsTiedOrder` | src/app/features/dashboard/services/employee.service.ts:110 | inserting an element lands it after every element it is tied with (none compares below another), keeping the tied elements in order |
| `JsArray.SortWithStable` | src/app/features/dashboard/services/employee.service.ts:110 | stability: elements the comparator ties with one another (none compares below another) come out in their input order |
| `JsArray.SortWithDistinct` | src/app/features/dashboard/services/employee.service.ts:110 | sorting keeps ids distinct |
| `JsArray.InsertAt` | src/app/features/dashboard/components/employees-table/employees-table-datasource.ts:94 | one insertion step in place: the prefix up to the moved element becomes the insertion of that element into the old prefix, the rest of the array is untouched |
| `JsArray.SortInPlace` | src/app/features/dashboard/components/employees-table/employees-table-datasource.ts:94 | `data.sort(cmp)` on the array leaves exactly the stable sort of its old contents |
| `JsArray.SpliceRemoved` | src/app/features/dashboard/components/employees-table/employees-table-datasource.ts:79 | `splice(start, count)` returns `min(count, length - start)` elements from `start` on, in order, and none when `start` is past the end |
| `Models.WithShifts` | src/app/features/dashboard/services/employee.service.ts:106-111 | `{ ...employee, shifts }` keeps every employee field and carries exactly the given shifts |
| `DateUtils.MsToHours` | src/utils/date.ts:7-9 | hours times 3,600,000 give back the milliseconds |
| `DateUtils.HoursToMs` | src/utils/date.ts:11-13 | `msToHours` undoes `hoursToMs` |
| `DateUtils.HoursToMsOfMsToHours` | src/utils/date.ts:7-13 | `hoursToMs` undoes `msToHours` |
| `DateUtils.HoursToMsStrictlyIncreasing` | src/utils/date.ts:11-13 | more hours are more milliseconds |
| `DateUtils.MsToHoursStrictlyIncreasing` | src/utils/date.ts:7-9 | more milliseconds are more hours |
| `DateUtils.MillisecondsUntilMidnight` | src/utils/date.ts:1-5 | the result times 60,000 is the distance in milliseconds from the timestamp to the midnight after the call's clock time: it counts minutes |
| `DateUtils.MillisecondsUntilMidnightDecreasing` | src/utils/date.ts:1-5 | a later timestamp is closer to that midnight |
| `EmployeeService.MaxNonOvertimeMsPerDayIsEightHours` | src/app/features/dashboard/services/employee.service.ts:18-19 | the daily threshold `hoursToMs(8)` is 28,800,000 ms |
| `EmployeeService.ByClockIn` | src/app/features/dashboard/services/employee.service.ts:110 | the comparator is negative exactly when the first shift clocks in earlier, zero exactly when both clock in together |
| `EmployeeService.ShiftsOf` | src/app/features/dashboard/services/employee.service.ts:108-109 | the filtered shifts all carry the employee's id, and every input shift with that id is among them |
| `EmployeeService.Attach` | src/app/features/dashboard/services/employee.service.ts:105-111 | the record keeps every field of the employee and has as many shifts as the employee owns |
| `EmployeeService.EqualClockInsKeepInputOrder` | src/app/features/dashboard/services/employee.service.ts:110 | an employee's shifts that clock in at the same instant keep their input order after the sort |
| `EmployeeService.AttachShifts` | src/app/features/dashboard/services/employee.service.ts:104-112 | one record per employee, in input order, the i-th being the i-th employee with its own sorted shifts |
| `EmployeeService.GroupEmployeesShifts` | src/app/features/dashboard/services/employee.service.ts:103-117 | with `ids` absent or empty, one record per employee |
| `EmployeeService.SelectedEmployees` | src/app/features/dashboard/services/employee.service.ts:113-116 | selection never adds employees |
| `EmployeeService.SelectedEmployeesSpec` | src/app/features/dashboard/services/employee.service.ts:113-116 | absent or empty `ids` select every employee; otherwise exactly the employees whose id is listed |
| `EmployeeService.FilterAttachCommute` | src/app/features/dashboard/services/employee.service.ts:104-116 | filtering the grouped records by id equals grouping only the listed employees, so input order is kept |
| `EmployeeService.OwnShiftsSortedPermutation` | src/app/features/dashboard/services/employee.service.ts:107-111 | an employee's attached shifts are non-decreasing by clock-in and are, as a multiset, exactly the input shifts with its id |
| `EmployeeService.GroupEmployeesShiftsSpec` | src/app/features/dashboard/services/employee.service.ts:103-117 | the grouping returns the selected employees in input order, each with exactly its own shifts (as a multiset) ordered by clock-in |
| `EmployeeService.AddShift` | src/app/features/dashboard/services/employee.service.ts:63-77 | one iteration adds a bucket exactly when the shift crosses midnight |
| `EmployeeService.AddShiftStep` | src/app/features/dashboard/services/employee.service.ts:63-77 | a same-day shift adds its duration and the pending carry to the last bucket, clears the carry and leaves earlier buckets alone; a crossing shift keeps all buckets, pushes one holding `untilMidnight(clockIn)` and overwrites the carry with `clockOut - untilMidnight(clockIn)`, dropping any pending carry |
| `EmployeeService.SplitDays` | src/app/features/dashboard/services/employee.service.ts:61-78 | starting from `[0]`, there is at least one bucket and at most one more than there are shifts |
| `EmployeeService.SplitDaysBucketCount` | src/app/features/dashboard/services/employee.service.ts:62-77 | the number of buckets is one plus the number of shifts that cross midnight |
| `EmployeeService.ClosedBucketsAreFinal` | src/app/features/dashboard/services/employee.service.ts:63-78 | a bucket that is no longer the last one never changes again |
| `EmployeeService.SplitDaysWithoutCrossing` | src/app/features/dashboard/services/employee.service.ts:62-71 | when no shift crosses midnight there is one bucket holding the total clocked time, and no carry |
| `EmployeeService.RegularPart` | src/app/features/dashboard/services/employee.service.ts:87-90 | a day's regular time is all of the day when shorter than eight hours, and exactly eight hours otherwise |
| `EmployeeService.OvertimePart` | src/app/features/dashboard/services/employee.service.ts:87-91 | a day's overtime is non-negative, positive exactly beyond eight hours, exactly the time beyond eight hours at or above the threshold, and with the regular time makes up the day |
| `EmployeeService.AllocationConservesTime` | src/app/features/dashboard/services/employee.service.ts:86-93 | regular time plus overtime is the sum of the buckets |
| `EmployeeService.RegularTotal` | src/app/features/dashboard/services/employee.service.ts:86-90 | the regular time over all buckets is at most eight hours per bucket |
| `EmployeeService.OvertimeTotal` | src/app/features/dashboard/services/employee.service.ts:86-92 | the overtime over all buckets is never negative |
| `EmployeeService.ShortDaysHaveNoOvertime` | src/app/features/dashboard/services/employee.service.ts:87-88 | when every bucket is under eight hours there is no overtime and all time is regular |
| `EmployeeService.HoursInfo` | src/app/features/dashboard/services/employee.service.ts:60-95 | the result is for the employee itself; regular time plus overtime is the sum of the buckets of its shifts, and overtime is non-negative |
| `EmployeeService.EmployeeHoursInfo` | src/app/features/dashboard/services/employee.service.ts:60-95 | both loops compute exactly `HoursInfo` of the grouped record: the allocation of its day split, so regular plus overtime is the sum of the buckets (the final carry is not paid) and overtime is non-negative |
| `EmployeeService.GetEmployeesHoursInfo` | src/app/features/dashboard/services/employee.service.ts:57-98 | one result per employee, in input order, for that employee, computed on its grouped shifts |
| `EmployeeService.ChangedShifts` | src/app/features/dashboard/services/employee.service.ts:183-188 | the inner loop collects the changed edited counterparts of the original shifts, in their order |
| `EmployeeService.GetEntitiesToUpdate` | src/app/features/dashboard/services/employee.service.ts:168-192 | the nested loops collect the change set of the original records against the edited ones, in the original order |
| `EmployeeService.ChangesAreToComparedFields` | src/app/features/dashboard/services/employee.service.ts:176-185 | an employee whose only edit is its email, and a shift whose only edit is its owner, are not reported; a reported record differs from its original |
| `EmployeeService.ChangedShiftsOfSize` | src/app/features/dashboard/services/employee.service.ts:183-188 | the inner loop reports at most one shift per original shift |
| `EmployeeService.ChangeSetSize` | src/app/features/dashboard/services/employee.service.ts:173-190 | the outer loop reports at most one employee per original record |
| `EmployeeService.ChangedEmployeesExactly` | src/app/features/dashboard/services/employee.service.ts:173-182 | an employee is reported if and only if it is the edited counterpart, found by id, of an original record whose name or rates it changes |
| `EmployeeService.ChangedShiftsOfExactly` | src/app/features/dashboard/services/employee.service.ts:183-188 | a shift is reported for a record if and only if it is the edited counterpart, found by id, of one of its original shifts with a different clock-in or clock-out |
| `EmployeeService.ChangedShiftsExactly` | src/app/features/dashboard/services/employee.service.ts:173-190 | a shift is reported if and only if it is such a counterpart for some original record that has an edited counterpart |
| `EmployeeService.ChangesComeFromOriginals` | src/app/features/dashboard/services/employee.service.ts:173-190 | records absent from the original snapshot are never reported: every reported id is an original employee's or shift's id |
| `EmployeeService.UneditedShiftsGiveNothing` | src/app/features/dashboard/services/employee.service.ts:183-188 | when no original shift's counterpart changes its times, no shift is reported |
| `EmployeeService.UneditedGivesNothing` | src/app/features/dashboard/services/employee.service.ts:173-190 | when no original record's counterpart changes anything compared, the change set is empty |
| `EmployeeService.IdenticalSnapshotsHaveNoChanges` | src/app/features/dashboard/services/employee.service.ts:168-192 | a snapshot compared with itself gives an empty change set, given distinct employee ids and distinct shift ids per employee |
| `EmployeeService.SaveData` | src/app/features/dashboard/services/employee.service.ts:121-135 | the change set is computed from the cached records of the edited employees; progress 100 is reported exactly when it is empty, and nothing is reported otherwise |
| `EmployeeService.SavingUneditedDataIsNoop` | src/app/features/dashboard/services/employee.service.ts:121-134 | saving the grouped cache unedited issues no update, given distinct ids |
| `EmployeeService.SaveProgress.constructor` | src/app/features/dashboard/services/employee.service.ts:135-136 | the total is the number of employees plus shifts to update, the counter starts at 0 |
| `EmployeeService.SaveProgress.EmployeeSaved` | src/app/features/dashboard/services/employee.service.ts:140-144 | a completed employee update increments the counter, reports `getPercentage(counter, total)`, and replaces only the first cached employee with the saved id |
| `EmployeeService.SaveProgress.ShiftSaved` | src/app/features/dashboard/services/employee.service.ts:149-153 | a completed shift update increments the counter, reports `getPercentage(counter, total)`, and replaces only the first cached shift with the saved id |
| `EmployeesTable.StringLessAsymmetric` | src/app/features/dashboard/components/employees-table/employees-table-datasource.ts:121 | string `<` never holds both ways |
| `EmployeesTable.StringLessTotal` | src/app/features/dashboard/components/employees-table/employees-table-datasource.ts:121 | of two different strings one is less than the other |
| `EmployeesTable.StringLessTransitive` | src/app/features/dashboard/components/employees-table/employees-table-datasource.ts:121 | string `<` is transitive |
| `EmployeesTable.StringLess` | src/app/features/dashboard/components/employees-table/employees-table-datasource.ts:121 | string `<` is irreflexive, and a proper prefix is less than the string it starts |
| `EmployeesTable.Less` | src/app/features/dashboard/components/employees-table/employees-table-datasource.ts:121 | `<` only holds between two different values of the same kind |
| `EmployeesTable.NotLessTransitive` | src/app/features/dashboard/components/employees-table/employees-table-datasource.ts:121 | on values of one column, "not less" is transitive and `<` is asymmetric |
| `EmployeesTable.Compare` | src/app/features/dashboard/components/employees-table/employees-table-datasource.ts:120-122 | `compare` is -1 or 1, never 0; ascending it is -1 exactly when `a < b`, descending 1 exactly when `a < b` |
| `EmployeesTable.CompareDirections` | src/app/features/dashboard/components/employees-table/employees-table-datasource.ts:121 | the descending result is the negated ascending one, and equal values compare as 1 ascending and -1 descending |
| `EmployeesTable.ColumnKey` | src/app/features/dashboard/components/employees-table/employees-table-datasource.ts:96-106 | the name and email columns hold text, the three amount columns numbers |
| `EmployeesTable.SortComparator` | src/app/features/dashboard/components/employees-table/employees-table-datasource.ts:94-110 | on a recognised column the comparator is `compare` of the two rows' values of that column; on any other it is 0 |
| `EmployeesTable.SortedData` | src/app/features/dashboard/components/employees-table/employees-table-datasource.ts:89-111 | the sorted rows are as many as the rows |
| `EmployeesTable.SortedDataSpec` | src/app/features/dashboard/components/employees-table/employees-table-datasource.ts:89-111 | the sorted rows are a permutation of the rows; unchanged with no sort, no active column, an empty direction or an unrecognised column; otherwise ordered by the column, ascending or descending |
| `EmployeesTable.AscendingKeepsEqualRowsInOrder` | src/app/features/dashboard/components/employees-table/employees-table-datasource.ts:94-110 | sorting ascending by a recognised column keeps the rows with equal values in that column in their input order, since `compare` gives 1 for them |
| `EmployeesTable.EqualRowsByDirection` | src/app/features/dashboard/components/employees-table/employees-table-datasource.ts:94-121 | two rows with equal total clocked time stay in their order sorted ascending and are swapped sorted descending |
| `EmployeesTable.PagedData` | src/app/features/dashboard/components/employees-table/employees-table-datasource.ts:76-83 | with a paginator, the page is the run of at most `pageSize` rows starting at `pageIndex * pageSize`, in order, empty past the end; without one, the rows unchanged |
| `EmployeesTable.TableItem` | src/app/features/dashboard/components/employees-table/employees-table-datasource.ts:55-64 | a row keeps the employee's id, name and email; its clocked hours are regular plus overtime time in hours, its amounts the hours of each kind times the matching rate |
| `EmployeesTable.EmployeesTableDataSource.constructor` | src/app/features/dashboard/components/employees-table/employees-table-datasource.ts:23-31 | a new data source has no rows, no paginator and no sort |
| `EmployeesTable.EmployeesTableDataSource.ReceiveHoursInfo` | src/app/features/dashboard/components/employees-table/employees-table-datasource.ts:52-69 | the rows become one row per time information, in order |
| `EmployeesTable.EmployeesTableDataSource.GetSortedData` | src/app/features/dashboard/components/employees-table/employees-table-datasource.ts:89-111 | the array is left holding the sorted rows of its old contents |
| `EmployeesTable.EmployeesTableDataSource.GetPagedData` | src/app/features/dashboard/components/employees-table/employees-table-datasource.ts:76-83 | the page has `min(pageSize, length - start)` rows copied from `start = pageIndex * pageSize` on (none past the end); without a paginator, all rows |
| `EmployeesTable.EmployeesTableDataSource.Connect` | src/app/features/dashboard/components/employees-table/employees-table-datasource.ts:38-50 | fails with the source's message exactly when the paginator or the sort is missing; otherwise emits the sorted then paged rows; the rows field is not modified |
| `CorrectedHours.MsUntilMidnight` | src/utils/date.ts:1-5 | the intended distance reaches the midnight from the timestamp, is positive for a timestamp before it, and is 60,000 times what the code returns |
| `CorrectedHours.AddShiftByCalendar` | src/app/features/dashboard/services/employee.service.ts:63-77 | one shift adds at most two buckets, never removes one, and leaves the split on the day of its clock-out |
| `CorrectedHours.AddShiftByCalendarAddsItsTime` | src/app/features/dashboard/services/employee.service.ts:63-77 | one shift adds exactly its clocked time to the buckets |
| `CorrectedHours.AddShiftByCalendarStep` | src/app/features/dashboard/services/employee.service.ts:63-77 | one shift keeps every earlier bucket; its time up to midnight goes to the last bucket when that bucket is its clock-in day's and to a new bucket otherwise; a crossing shift's time after midnight goes to one more new bucket |
| `CorrectedHours.SplitDaysByCalendar` | src/app/features/dashboard/services/employee.service.ts:61-78 | at most two buckets per shift, and after at least one shift the split is on the last shift's clock-out day |
| `CorrectedHours.SplitDaysByCalendarConservesTime` | src/app/features/dashboard/services/employee.service.ts:61-78 | the intended split puts all clocked time in the buckets: their sum is the total of `clockOut - clockIn` |
| `CorrectedHours.IntendedHoursInfo` | src/app/features/dashboard/services/employee.service.ts:60-95 | the result is for the employee itself; regular plus overtime is the sum of the intended buckets, and overtime is non-negative |
| `CorrectedHours.IntendedHoursAreClockedTime` | src/app/features/dashboard/services/employee.service.ts:57-98 | with the intended split, regular plus overtime is the employee's clocked time and overtime is non-negative |
| `CorrectedHours.CrossingShiftLosesWorkedTime` | src/app/features/dashboard/services/employee.service.ts:72-78 | as written, even with the distance to midnight supplied in milliseconds, a 23:00 to 11:00 shift yields buckets of 0 and 1 hour and a dropped carry: 1 of 12 hours is paid |
| `CorrectedHours.CrossingShiftWithMinutes` | src/app/features/dashboard/services/employee.service.ts:72-78 | as written, with the program's own helper returning minutes to the midnight after the call, the same shift yields buckets of 0 and that count, which is all that is paid: 60 ms when the helper is called on the evening of the shift, 1440 ms more for each day of delay, all of it regular time for any call up to 20000 days later |
| `CorrectedHours.NightShiftByCalendar` | src/app/features/dashboard/services/employee.service.ts:61-93 | the intended split pays the same shift as 9 regular hours and 3 hours of overtime |
| `CorrectedHours.CarryIsATimestamp` | src/app/features/dashboard/services/employee.service.ts:76 | as written, with time 0 at a local midnight and the distance to midnight in milliseconds, 23:00 to 01:00 then 02:00 to 03:00 leaves a 24-hour carry and yields a 26-hour day with 18 hours of overtime for 3 clocked hours |
| `CorrectedHours.EpochCarryIsATimestamp` | src/app/features/dashboard/services/employee.service.ts:74-76 | as written, on real epoch timestamps and with the program's own minutes helper, the same two shifts leave a carry of a timestamp minus the helper's minutes (minus 60 when it is called that evening) and, whatever the call time, a second bucket of about 1.7e12 ms, all but 8 hours of it overtime |
| `CorrectedHours.LateAndEarlyShiftsByCalendar` | src/app/features/dashboard/services/employee.service.ts:61-93 | the intended split pays the same shifts as 3 regular hours |
| `CorrectedHours.SeparateDaysShareOneBucket` | src/app/features/dashboard/services/employee.service.ts:66-71 | as written, two 6-hour shifts on consecutive days share one 12-hour bucket and give 4 hours of overtime |
| `CorrectedHours.SeparateDaysByCalendar` | src/app/features/dashboard/services/employee.service.ts:61-93 | the intended split gives the two days their own 6-hour buckets and no overtime |
| `CorrectedHours.UntilMidnightReturnsMinutes` | src/utils/date.ts:1-5 | one hour before midnight comes out as 60, not 3,600,000; measured to a later midnight it exceeds a day |

## Left out

- HTTP transport (`getEmployees`, `getShifts`, `updateEmployee`, `updateShift`): I/O; their results are inputs or arguments of the model.
- RxJS plumbing: the `combineLatest`/`filter` null gating, `take(1)`/`switchMap`, the `forkJoin` fan-out, `merge` of the table's streams, `takeUntil`/`disconnect`, and the final publication of the cached arrays or of an error; only the sequential bodies are modelled, and `EmployeeService.SaveProgress` receives completions one at a time in some order.
- `getPercentage` (utils/progress) is not part of this model; it is a function parameter.
- The `Date` library: the day-of-month test, the next midnight and the distance to it are parameters; calendars and time zones are not modelled.
- Floating point: all amounts are exact reals, so rounding of `msToHours`, of the running sums and of the pay amounts is not modelled.
- Pay totals (`getRegularHoursTotalPaid`, `getOvertimeHoursTotalPaid`): floating-point folds over the time information, not modelled beyond the per-row amounts of `EmployeesTable.TableItem`.
- UI components (dashboard, info card, table component, edit dialog, module wiring): not core logic; the dashboard's total-time fold is the helper `EmployeeService.TotalWorked`.
- EmployeeService.GetEntitiesToUpdate: pushes the edited record with its `shifts` property; the model reports its `Employee` part only.
- EmployeeService.HoursInfo: the source's time information holds the whole `employeeWithShifts` record; the model keeps its `Employee` part, which is all the table reads. `CorrectedHours.IntendedHoursInfo` does the same.
- EmployeeService.SaveData: the cached lists are assumed present (the source casts the subjects' values without checking for `null`).
- EmployeeService.SaveProgress.EmployeeSaved: when no cached record has the saved id, the source writes at index -1, which adds a non-index property to the array; the model leaves the elements unchanged and does not model that property.
- EmployeeService.SaveProgress.ShiftSaved: the same for shifts.
- EmployeesTable.Compare: comparing a string with a number (JavaScript coerces the string) is never done by the table and is taken as "not less".
- EmployeesTable.StringLessTotal: characters are compared as Unicode scalar values, while JavaScript compares UTF-16 code units; the orders differ only for characters outside the Basic Multilingual Plane.
- EmployeesTable.SortedDataSpec: the table's comparator never returns 0 and is not consistent for equal values, so ECMAScript leaves the order implementation-defined; only the permutation holds for every engine. Column order is proved for the modelled insertion sort.
- EmployeesTable.SortedData: the modelled insertion moves a row left exactly when the comparator puts it below the row before, the test of V8's binary insertion sort, which V8 uses for arrays of fewer than 64 elements. Equal rows therefore keep their input order ascending (`EmployeesTable.AscendingKeepsEqualRowsInOrder`) and are reversed descending (`EmployeesTable.EqualRowsByDirection`). The run merging V8 applies to 64 rows or more, and other engines' sorts, are not modelled. The rows of `EmployeesTable.EmployeesTableDataSource.GetSortedData` and `EmployeesTable.EmployeesTableDataSource.Connect` follow this order.
- EmployeesTable.EmployeesTableDataSource.GetPagedData: `splice` also removes the page from the copied array; the copy is discarded afterwards, so only the returned page is modelled.
- EmployeesTable.EmployeesTableDataSource.Connect: one emission for the current state; which event triggers it is not modelled.
- CorrectedHours.SplitDaysByCalendarConservesTime: a shift spanning more than one midnight is cut at the first one and its remainder counted on the clock-out day.

## Findings

| source | as written | input that shows it | evidently intended | confidence | as-written member | corrected member |
|---|---|---|---|---|---|---|
| src/app/features/dashboard/services/employee.service.ts:76 | the carry after a crossing shift is `clockOut - msUntilMidnight`, an absolute timestamp minus a duration, and the next same-day shift adds it to its bucket | with time 0 at a local midnight and the distance in ms, shifts 23:00–01:00 and 02:00–03:00 (3 hours) give a 26-hour day and 18 hours of overtime; on real epoch timestamps (23:00 UTC on 3 February 2023 is 1675465200000) with the program's minutes helper, whenever it is called, the second bucket is about 1.7e12 ms | the carry is the time worked after midnight, `clockOut - clockIn - msUntilMidnight` | high (not executed) | `CorrectedHours.EpochCarryIsATimestamp` | `CorrectedHours.SplitDaysByCalendarConservesTime` |
| src/app/features/dashboard/services/employee.service.ts:72-78 | the time after midnight of a crossing shift is only counted if a later same-day shift picks up the carry, and the time before midnight goes to a newly pushed bucket | the single shift 23:00–11:00 (12 hours) pays 1 regular hour and no overtime with the distance to midnight in ms; with the program's minutes helper it pays 60 ms when the helper is called on the evening of the shift, and 1440 ms more for each day the dashboard is opened later | 1 hour on the first day and 11 on the second: 9 regular hours and 3 hours of overtime | high (not executed) | `CorrectedHours.CrossingShiftWithMinutes` | `CorrectedHours.NightShiftByCalendar` |
| src/app/features/dashboard/services/employee.service.ts:66-71 | a new bucket is opened only by a shift that crosses midnight, so shifts on different days share a bucket | 09:00–15:00 on two consecutive days gives one 12-hour day and 4 hours of overtime | two 6-hour days and no overtime | high (not executed) | `CorrectedHours.SeparateDaysShareOneBucket` | `CorrectedHours.AddShiftByCalendarStep` |
| src/utils/date.ts:1-5 | the result is divided by 1000 and 60 (minutes) and measured to the midnight after the moment of the call | a timestamp one hour before that midnight gives 60 | milliseconds to the midnight after the timestamp | high (not executed) | `CorrectedHours.UntilMidnightReturnsMinutes` | `CorrectedHours.MsUntilMidnight` |
