/** The record shapes of the dashboard: employees, their shifts, and the
    per-employee result of the time computation. Timestamps are milliseconds
    since the epoch; rates are currency per hour. */
module Models {

  datatype Employee = Employee(
    id: string,
    name: string,
    email: string,
    hourlyRate: real,
    hourlyRateOvertime: real)

  /** One clock-in/clock-out interval worked by the employee `employeeId`. */
  datatype Shift = Shift(id: string, employeeId: string, clockIn: int, clockOut: int)

  /** An employee with its shifts attached (`EmployeeWithShifts extends Employee`). */
  datatype EmployeeWithShifts = EmployeeWithShifts(
    id: string,
    name: string,
    email: string,
    hourlyRate: real,
    hourlyRateOvertime: real,
    shifts: seq<Shift>)
  {
    /** The `Employee` part of the record. */
    function AsEmployee(): Employee {
      Employee(id, name, email, hourlyRate, hourlyRateOvertime)
    }
  }

  /** `{ ...employee, shifts }`. */
  function WithShifts(e: Employee, shifts: seq<Shift>): (r: EmployeeWithShifts)
    ensures r.AsEmployee() == e && r.shifts == shifts
  {
    EmployeeWithShifts(e.id, e.name, e.email, e.hourlyRate, e.hourlyRateOvertime, shifts)
  }

  datatype EmployeeTimeInfo = EmployeeTimeInfo(employee: Employee, overtimeMs: real, regularMs: real)

  // Keys for the lookups by id.
  function EmployeeId(e: Employee): string { e.id }
  function EmployeeWithShiftsId(e: EmployeeWithShifts): string { e.id }
  function ShiftId(s: Shift): string { s.id }
}
