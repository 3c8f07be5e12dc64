/** The admin timesheet page (`new-frontend/pages/admin/timesheet.js`): each
    row of the attendance report is reduced to total and current-month
    hours, and the rows are searched by their text fields. */
module AdminTimesheet {
  import opened Wrappers
  import opened Seqs
  import opened Strings
  import opened Models
  import opened Records
  import opened Backend

  datatype Summary = Summary(firstName: string, lastName: string, designation: string,
                             totalHours: int, currentMonthHours: int)

  /** `getFullYear() === currentYear && getMonth() === currentMonth`;
      `getMonth()` counts from 0. */
  predicate InMonth(year: int, month0: int, a: Attendance) {
    a.date.year == year && a.date.month - 1 == month0
  }

  /** The records of one report row that fall in the given month. */
  function MonthRecords(row: ReportRow, year: int, month0: int): (r: seq<Attendance>)
    ensures forall a :: a in r <==> a in row.attendance && a.date.year == year && a.date.month == month0 + 1
  {
    FilterSpec(row.attendance, a => InMonth(year, month0, a));
    Filter(row.attendance, a => InMonth(year, month0, a))
  }

  /** One aggregated row: the names and designation as reported, the total
      hours and the hours of the current month. */
  function Aggregate(row: ReportRow, year: int, month0: int): (s: Summary)
    ensures s.firstName == row.firstName && s.lastName == row.lastName && s.designation == row.designation
    ensures s.totalHours == TotalHours(row.attendance)
    ensures s.currentMonthHours == TotalHours(MonthRecords(row, year, month0))
  {
    Summary(row.firstName, row.lastName, row.designation,
            TotalHours(row.attendance), TotalHours(MonthRecords(row, year, month0)))
  }

  /** `data.map(...)`: one summary per report row, in the same order. */
  function AggregateAll(rows: seq<ReportRow>, year: int, month0: int): (r: seq<Summary>)
    ensures |r| == |rows|
    ensures forall k :: 0 <= k < |rows| ==> r[k] == Aggregate(rows[k], year, month0)
  {
    seq(|rows|, k requires 0 <= k < |rows| => Aggregate(rows[k], year, month0))
  }

  /** With non-negative hours, the current month's hours are at most the
      total. */
  lemma CurrentMonthAtMostTotal(row: ReportRow, year: int, month0: int)
    requires forall k :: 0 <= k < |row.attendance| ==> HoursOf(row.attendance[k]) >= 0
    ensures 0 <= Aggregate(row, year, month0).currentMonthHours <= Aggregate(row, year, month0).totalHours
  {
    TotalOfFilter(row.attendance, a => InMonth(year, month0, a));
  }

  /** `Object.values(record).some(v => typeof v === "string" &&
      v.toLowerCase().includes(term.toLowerCase()))`: the three text fields;
      the two numbers never match. */
  predicate Matches(s: Summary, term: string) {
    ContainsIgnoreCase(s.firstName, term) || ContainsIgnoreCase(s.lastName, term)
    || ContainsIgnoreCase(s.designation, term)
  }

  function Search(rows: seq<Summary>, term: string): (r: seq<Summary>)
    ensures forall s :: s in r <==> s in rows && Matches(s, term)
    ensures IsSubsequence(r, rows)
  {
    FilterSpec(rows, s => Matches(s, term));
    Filter(rows, s => Matches(s, term))
  }

  /** Every row has its text fields, so the empty term keeps them all. */
  lemma SearchEmpty(rows: seq<Summary>)
    ensures Search(rows, "") == rows
  {
    forall k | 0 <= k < |rows| ensures Matches(rows[k], "") {
      ContainsIgnoreCaseEmpty(rows[k].firstName);
    }
    FilterAll(rows, s => Matches(s, ""));
  }

  /** The CSV and PDF downloads: refused (`None`) for an empty list,
      otherwise made of exactly the filtered rows. */
  function Export(filtered: seq<Summary>): (r: Option<seq<Summary>>)
    ensures r.None? <==> filtered == []
    ensures r.Some? ==> r.value == filtered
  {
    if |filtered| == 0 then None else Some(filtered)
  }
}
