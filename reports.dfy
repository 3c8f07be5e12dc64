/** The admin reports page (`new-frontend/pages/admin/reports.js`): the
    interns ordered by `internId`, the timesheet of the selected intern in
    date order with its monthly totals, average and salary, and the list of
    pending tasks. */
module Reports {
  import opened Wrappers
  import opened Seqs
  import opened Strings
  import opened Calendar
  import opened Assoc
  import opened Models
  import opened Records

  // ---------------------------------------------------------------------
  // Interns in `internId` order

  /** `a.internId.localeCompare(b.internId) <= 0`, as code-point order. */
  predicate InternIdLe(a: Intern, b: Intern) {
    !LexLess(b.internId.GetOr(""), a.internId.GetOr(""))
  }

  lemma InternIdLeTotalPreorder()
    ensures TotalPreorder(InternIdLe)
  {
    forall a: Intern, b: Intern ensures InternIdLe(a, b) || InternIdLe(b, a) {
      var x, y := a.internId.GetOr(""), b.internId.GetOr("");
      if LexLess(x, y) {
        LexLessAsymmetric(x, y);
      }
    }
    forall a: Intern, b: Intern, c: Intern | InternIdLe(a, b) && InternIdLe(b, c) ensures InternIdLe(a, c) {
      var x, y, z := a.internId.GetOr(""), b.internId.GetOr(""), c.internId.GetOr("");
      if LexLess(z, x) {
        LexLessTotal(x, y);
        LexLessTotal(y, z);
        if LexLess(x, y) {
          LexLessTransitive(z, x, y);
        } else if x == y {
        } else {
          LexLessTransitive(y, z, x);
          LexLessAsymmetric(y, x);
        }
      }
    }
  }

  /** `internData.sort((a, b) => a.internId.localeCompare(b.internId))`
      over stored interns, each of which carries the `internId` its schema
      requires. */
  function SortInterns(interns: seq<Intern>): (r: seq<Intern>)
    requires forall i :: 0 <= i < |interns| ==> interns[i].internId.Some?
    ensures multiset(r) == multiset(interns) && SortedBy(r, InternIdLe)
    ensures forall i :: 0 <= i < |r| ==> r[i].internId.Some?
  {
    InternIdLeTotalPreorder();
    SortBySorted(interns, InternIdLe);
    var r := SortBy(interns, InternIdLe);
    assert forall i :: 0 <= i < |r| ==> r[i] in multiset(interns);
    r
  }

  // ---------------------------------------------------------------------
  // The selected intern's timesheet

  /** `new Date(a.date) - new Date(b.date) <= 0`. */
  predicate DateLe(a: Attendance, b: Attendance) {
    DayNumber(a.date) <= DayNumber(b.date)
  }

  predicate OfIntern(id: string, a: Attendance) {
    a.internId == id
  }

  /** The records of the selected intern, sorted by ascending date. */
  function Selection(records: seq<Attendance>, selected: string): (r: seq<Attendance>)
    ensures multiset(r) == multiset(Filter(records, a => OfIntern(selected, a)))
    ensures forall a :: a in r <==> a in records && a.internId == selected
    ensures SortedBy(r, DateLe)
  {
    var mine := Filter(records, a => OfIntern(selected, a));
    FilterSpec(records, a => OfIntern(selected, a));
    SortBySorted(mine, DateLe);
    var r := SortBy(mine, DateLe);
    assert forall a :: a in r <==> a in mine by {
      forall a ensures a in r <==> a in mine {
        assert a in r <==> a in multiset(r);
        assert a in mine <==> a in multiset(mine);
      }
    }
    r
  }

  /** The hours column: `record.hours || "Weekend"`. */
  datatype Shown = Number(value: int) | Weekend

  function DisplayHours(h: Option<int>): (s: Shown)
    ensures s == Weekend <==> h.None? || h == Some(0)
    ensures s.Number? ==> h == Some(s.value)
  {
    if h.None? || h == Some(0) then Weekend else Number(h.value)
  }

  /** `Number(record.hours) || 0`: "Weekend" is `NaN`, which is falsy. */
  function NumericHours(s: Shown): int {
    match s
    case Weekend => 0
    case Number(v) => v
  }

  /** Reading the displayed hours back as a number gives the record's hours
      with missing hours as 0. */
  lemma DisplayedHoursValue(a: Attendance)
    ensures NumericHours(DisplayHours(a.hours)) == HoursOf(a)
  {
  }

  /** A row of the table: the record, unchanged, and the displayed hours. */
  datatype SheetRow = SheetRow(record: Attendance, hours: Shown)

  function Rows(s: seq<Attendance>): (rows: seq<SheetRow>)
    ensures |rows| == |s|
    ensures forall i :: 0 <= i < |s| ==> rows[i].record == s[i] && rows[i].hours == DisplayHours(s[i].hours)
  {
    seq(|s|, i requires 0 <= i < |s| => SheetRow(s[i], DisplayHours(s[i].hours)))
  }

  function RowMonth(r: SheetRow): string {
    MonthKey(r.record.date)
  }

  function RowHours(r: SheetRow): int {
    NumericHours(r.hours)
  }

  /** The "YYYY-MM" totals of the rows. */
  function MonthlyTotals(rows: seq<SheetRow>): Dict<string> {
    GroupSum(rows, RowMonth, RowHours)
  }

  lemma {:induction false} RowsHours(s: seq<Attendance>)
    ensures SumBy(Rows(s), RowHours) == TotalHours(s)
  {
    if s != [] {
      var init := s[..|s| - 1];
      RowsHours(init);
      assert Rows(s)[..|s| - 1] == Rows(init);
      DisplayedHoursValue(s[|s| - 1]);
    }
  }

  /** The monthly totals hold each month once, add up to the hours of the
      selection (a "Weekend" row counting 0), and hold for month `m` the
      hours of the rows in `m`. */
  lemma MonthlyTotalsSpec(s: seq<Attendance>, m: string)
    ensures DistinctKeys(MonthlyTotals(Rows(s)))
    ensures Total(MonthlyTotals(Rows(s))) == TotalHours(s)
    ensures Get(MonthlyTotals(Rows(s)), m).GetOr(0) == SumBy(Filter(Rows(s), KeyIs(RowMonth, m)), RowHours)
  {
    GroupSumSpec(Rows(s), RowMonth, RowHours, m);
    RowsHours(s);
  }

  lemma MonthlyTotalsSum(rows: seq<SheetRow>, s: seq<Attendance>)
    requires rows == Rows(s)
    ensures Total(MonthlyTotals(rows)) == TotalHours(s)
  {
    MonthlyTotalsSpec(s, "");
  }

  /** `avgHours`: the sum of the monthly totals over the number of rows;
      `None` is the `NaN` of an empty selection. */
  function AvgHours(monthly: Dict<string>, rows: seq<SheetRow>): Option<real> {
    if |rows| == 0 then None else Some(Total(monthly) as real / |rows| as real)
  }

  /** So the average is the mean hours per record of the selection. */
  lemma AvgHoursMean(s: seq<Attendance>, rows: seq<SheetRow>, monthly: Dict<string>)
    requires rows == Rows(s) && monthly == MonthlyTotals(rows)
    ensures AvgHours(monthly, rows).None? <==> s == []
    ensures s != [] ==> AvgHours(monthly, rows).value * |s| as real == TotalHours(s) as real
  {
    MonthlyTotalsSum(rows, s);
    MeanOfTotal(s, rows, monthly);
  }

  lemma MeanOfTotal(s: seq<Attendance>, rows: seq<SheetRow>, monthly: Dict<string>)
    requires |rows| == |s| && Total(monthly) == TotalHours(s)
    ensures AvgHours(monthly, rows).None? <==> s == []
    ensures s != [] ==> AvgHours(monthly, rows).value * |s| as real == TotalHours(s) as real
  {
    if s != [] {
      QuotientTimes(Total(monthly), |s|);
    }
  }

  lemma QuotientTimes(t: int, n: int)
    requires n > 0
    ensures (t as real / n as real) * n as real == t as real
  {
  }

  /** The salary the effect sets: recomputed as current-month hours times
      the price only when the price is positive; otherwise the previous
      value stays. */
  function Salary(monthly: Dict<string>, currentMonth: string, price: real, previous: real): (r: real)
    ensures price <= 0.0 ==> r == previous
    ensures price > 0.0 && !HasKey(monthly, currentMonth) ==> r == 0.0
    ensures price > 0.0 && HasKey(monthly, currentMonth) ==> r == Get(monthly, currentMonth).value as real * price
  {
    if price > 0.0 then (Get(monthly, currentMonth).GetOr(0) as real) * price else previous
  }

  // ---------------------------------------------------------------------
  // Pending tasks

  predicate Dated(tasks: seq<Task>) {
    forall i :: 0 <= i < |tasks| ==> tasks[i].date.Some?
  }

  /** The day number of a task's date (the task schema requires one). */
  function TaskDay(t: Task): int {
    if t.date.Some? then DayNumber(t.date.value) else 0
  }

  /** `new Date(a.date) - new Date(b.date) <= 0`. */
  predicate ByDate(a: Task, b: Task) {
    TaskDay(a) <= TaskDay(b)
  }

  /** `statuses.map(task => task.internId)`. */
  function StatusInternIds(statuses: seq<TaskStatus>): (ids: seq<string>)
    ensures |ids| == |statuses| && forall k :: 0 <= k < |ids| ==> ids[k] == statuses[k].internId
  {
    seq(|statuses|, k requires 0 <= k < |statuses| => statuses[k].internId)
  }

  /** `statuses.map(task => task.taskId)`. */
  function StatusTaskIds(statuses: seq<TaskStatus>): (ids: seq<string>)
    ensures |ids| == |statuses| && forall k :: 0 <= k < |ids| ==> ids[k] == statuses[k].taskId
  {
    seq(|statuses|, k requires 0 <= k < |statuses| => statuses[k].taskId)
  }

  predicate Open(done: seq<string>, t: Task) {
    t.id !in done
  }

  /** The tasks whose `_id` is not in `done`, by ascending date. */
  function PendingAgainst(tasks: seq<Task>, done: seq<string>): (r: seq<Task>)
    requires Dated(tasks)
    ensures forall t :: t in r <==> t in tasks && t.id !in done
    ensures multiset(r) == multiset(Filter(tasks, (t: Task) => Open(done, t)))
    ensures |r| <= |tasks|
    ensures SortedBy(r, ByDate)
  {
    var kept := Filter(tasks, (t: Task) => Open(done, t));
    FilterSpec(tasks, (t: Task) => Open(done, t));
    ByDatePreorder();
    SortBySorted(kept, ByDate);
    var r := SortBy(kept, ByDate);
    assert forall t :: t in r <==> t in kept by {
      forall t ensures t in r <==> t in kept {
        assert t in r <==> t in multiset(r);
        assert t in kept <==> t in multiset(kept);
      }
    }
    r
  }

  lemma ByDatePreorder()
    ensures TotalPreorder(ByDate)
  {
  }

  /** The page as written: the ids it excludes are the `internId`s of the
      status records. */
  function PendingTasksAsWritten(tasks: seq<Task>, statuses: seq<TaskStatus>): (r: seq<Task>)
    requires Dated(tasks)
    ensures forall t :: t in r <==> t in tasks && forall k :: 0 <= k < |statuses| ==> statuses[k].internId != t.id
  {
    PendingAgainst(tasks, StatusInternIds(statuses))
  }

  /** The pending tasks meant: those no status record refers to by
      `taskId`. */
  function PendingTasks(tasks: seq<Task>, statuses: seq<TaskStatus>): (r: seq<Task>)
    requires Dated(tasks)
    ensures forall t :: t in r <==> t in tasks && forall k :: 0 <= k < |statuses| ==> statuses[k].taskId != t.id
    ensures SortedBy(r, ByDate)
  {
    PendingAgainst(tasks, StatusTaskIds(statuses))
  }

  /** The status records of one intern all carry that intern's `_id`, which
      no task has, so as written every task stays pending, even one with a
      "completed" record. */
  lemma CompletedTaskStaysPending(t: Task, d: Date, intern: string)
    requires t.date.Some? && intern != t.id
    ensures PendingTasksAsWritten([t], [TaskStatus(intern, t.id, "completed", d)]) == [t]
  {
    var st := [TaskStatus(intern, t.id, "completed", d)];
    var r := PendingTasksAsWritten([t], st);
    assert StatusInternIds(st)[0] == intern;
    assert t in r;
    assert |r| == 1;
    assert r[0] == t;
  }

  /** The corrected list drops that task. */
  lemma CompletedTaskDropped(t: Task, d: Date, intern: string)
    requires t.date.Some?
    ensures PendingTasks([t], [TaskStatus(intern, t.id, "completed", d)]) == []
  {
    var st := [TaskStatus(intern, t.id, "completed", d)];
    var q := PendingTasks([t], st);
    assert st[0].taskId == t.id;
  }
}
