/** The statistics of the intern dashboard
    (`new-frontend/pages/intern/dashboard.js`): total and average hours, the
    hours per weekday, the top day and the idle days of the intern's
    attendance, and the due-date notices of their tasks. */
module InternDashboard {
  import opened Wrappers
  import opened Seqs
  import opened Calendar
  import opened Assoc
  import opened Models
  import opened Records

  /** `total / (data.length || 1)`: an empty list averages 0. */
  function Average(s: seq<Attendance>): (avg: real)
    ensures |s| == 0 ==> avg == 0.0
    ensures |s| > 0 ==> avg * (|s| as real) == TotalHours(s) as real
  {
    var n := if |s| == 0 then 1 else |s|;
    TotalHours(s) as real / n as real
  }

  /** The `dateRange` statistic: `new Date(Math.min(...dates))` and
      `new Date(Math.max(...dates))`. Without records both are Invalid
      Dates (`None`); otherwise they are the earliest and the latest record
      day, each carried by some record. */
  function DateRange(s: seq<Attendance>): (r: Option<(Date, Date)>)
    ensures r.None? <==> |s| == 0
    ensures r.Some? ==> exists i :: 0 <= i < |s| && s[i].date == r.value.0
    ensures r.Some? ==> exists i :: 0 <= i < |s| && s[i].date == r.value.1
    ensures r.Some? ==> forall i :: 0 <= i < |s| ==>
      DayNumber(r.value.0) <= DayNumber(s[i].date) <= DayNumber(r.value.1)
  {
    if |s| == 0 then None
    else
      var init, last := s[..|s| - 1], s[|s| - 1];
      assert s == init + [last];
      var d := last.date;
      match DateRange(init)
      case None => Some((d, d))
      case Some(range) =>
        var lo := if DayNumber(d) < DayNumber(range.0) then d else range.0;
        var hi := if DayNumber(d) > DayNumber(range.1) then d else range.1;
        RangeStep(init, last, range, lo, hi);
        Some((lo, hi))
  }

  /** Extending the range of some records by one more record. */
  lemma RangeStep(init: seq<Attendance>, a: Attendance, range: (Date, Date), lo: Date, hi: Date)
    requires exists i :: 0 <= i < |init| && init[i].date == range.0
    requires exists i :: 0 <= i < |init| && init[i].date == range.1
    requires forall i :: 0 <= i < |init| ==> DayNumber(range.0) <= DayNumber(init[i].date) <= DayNumber(range.1)
    requires lo == if DayNumber(a.date) < DayNumber(range.0) then a.date else range.0
    requires hi == if DayNumber(a.date) > DayNumber(range.1) then a.date else range.1
    ensures var s := init + [a]; exists i :: 0 <= i < |s| && s[i].date == lo
    ensures var s := init + [a]; exists i :: 0 <= i < |s| && s[i].date == hi
    ensures var s := init + [a]; forall i :: 0 <= i < |s| ==> DayNumber(lo) <= DayNumber(s[i].date) <= DayNumber(hi)
  {
    var s := init + [a];
    var x :| 0 <= x < |init| && init[x].date == range.0;
    var y :| 0 <= y < |init| && init[y].date == range.1;
    if lo == range.0 { assert s[x].date == lo; } else { assert s[|init|].date == lo; }
    if hi == range.1 { assert s[y].date == hi; } else { assert s[|init|].date == hi; }
    forall i | 0 <= i < |s| ensures DayNumber(lo) <= DayNumber(s[i].date) <= DayNumber(hi) {
      if i < |init| { assert s[i] == init[i]; }
    }
  }

  /** `dailyMax`: `None` is the initial empty date. */
  datatype TopDay = TopDay(date: Option<Date>, hours: int)

  /** `record.hours > h`; missing hours compare false. */
  predicate Exceeds(a: Attendance, h: int) {
    a.hours.Some? && a.hours.value > h
  }

  /** `record.hours === 0`; missing hours are not idle. */
  predicate IsIdle(a: Attendance) {
    a.hours == Some(0)
  }

  /** The weekday bucket of a record. */
  function DayName(a: Attendance): string {
    WeekdayName(a.date)
  }

  /** Record `i` carries the top day, and no earlier record reaches its
      hours. */
  predicate FirstBest(s: seq<Attendance>, i: int, top: TopDay)
    requires 0 <= i < |s|
  {
    && top.date == Some(s[i].date) && s[i].hours == Some(top.hours)
    && forall j :: 0 <= j < i ==> !Exceeds(s[j], top.hours - 1)
  }

  /** `top` is the day the dashboard reports for `s`: no record beats it;
      it is the first record with the greatest hours when some record has
      more than 0 hours, and `("", 0)` otherwise. */
  predicate IsTopDay(s: seq<Attendance>, top: TopDay) {
    && top.hours >= 0
    && (top.date.None? <==> forall i :: 0 <= i < |s| ==> !Exceeds(s[i], 0))
    && (top.date.None? ==> top.hours == 0)
    && (forall i :: 0 <= i < |s| ==> !Exceeds(s[i], top.hours))
    && (top.date.Some? ==> (exists i :: 0 <= i < |s| && FirstBest(s, i, top)))
  }

  /** The loop step: a strictly greater record takes over. */
  lemma TopDayStep(s: seq<Attendance>, top: TopDay, a: Attendance)
    requires IsTopDay(s, top)
    ensures IsTopDay(s + [a], if Exceeds(a, top.hours) then TopDay(Some(a.date), a.hours.value) else top)
  {
    var t := s + [a];
    assert forall i :: 0 <= i < |s| ==> t[i] == s[i];
    assert t[|s|] == a;
    if Exceeds(a, top.hours) {
      forall j | 0 <= j < |s| ensures !Exceeds(t[j], a.hours.value - 1) {
        assert !Exceeds(s[j], top.hours);
      }
      assert FirstBest(t, |s|, TopDay(Some(a.date), a.hours.value));
    } else if top.date.Some? {
      var i :| 0 <= i < |s| && FirstBest(s, i, top);
      assert t[i] == s[i];
      assert FirstBest(t, i, top);
    }
  }

  /** The loop step of the top day on its own: a strictly greater record
      takes over. */
  function NextTop(top: TopDay, a: Attendance): TopDay {
    if Exceeds(a, top.hours) then TopDay(Some(a.date), a.hours.value) else top
  }

  /** The top day after the records of `s`, from `("", 0)`. */
  function TopOf(s: seq<Attendance>): TopDay {
    if s == [] then TopDay(None, 0) else NextTop(TopOf(s[..|s| - 1]), s[|s| - 1])
  }

  /** Folding the step over the records meets the specification. */
  lemma {:induction false} TopOfSpec(s: seq<Attendance>)
    ensures IsTopDay(s, TopOf(s))
  {
    if s != [] {
      var init := s[..|s| - 1];
      TopOfSpec(init);
      TopDayStep(init, TopOf(init), s[|s| - 1]);
      assert s == init + [s[|s| - 1]];
    }
  }

  /** The specification pins the top day down: at most one value meets it. */
  lemma TopDayUnique(s: seq<Attendance>, a: TopDay, b: TopDay)
    requires IsTopDay(s, a) && IsTopDay(s, b)
    ensures a == b
  {
    if a.date.Some? && b.date.Some? {
      var i :| 0 <= i < |s| && FirstBest(s, i, a);
      var k :| 0 <= k < |s| && FirstBest(s, k, b);
      assert !Exceeds(s[i], b.hours) && !Exceeds(s[k], a.hours);
    }
  }

  /** The `forEach` of `loadAttendanceData`: hours per weekday name (in
      first-seen order), the top day and the number of idle days. */
  method LoadAttendanceData(records: seq<Attendance>) returns (week: Dict<string>, top: TopDay, idle: nat)
    ensures week == GroupSum(records, DayName, HoursOf)
    ensures IsTopDay(records, top)
    ensures idle == |Filter(records, IsIdle)|
  {
    week, top, idle := [], TopDay(None, 0), 0;
    var k := 0;
    while k < |records|
      invariant 0 <= k <= |records|
      invariant week == GroupSum(records[..k], DayName, HoursOf)
      invariant top == TopOf(records[..k])
      invariant idle == |Filter(records[..k], IsIdle)|
    {
      var r := records[k];
      LoadStep(records, k, week, top, idle);
      week := Add(week, DayName(r), HoursOf(r));
      if Exceeds(r, top.hours) {
        top := TopDay(Some(r.date), r.hours.value);
      }
      if r.hours == Some(0) {
        idle := idle + 1;
      }
      k := k + 1;
    }
    assert records[..k] == records;
    TopOfSpec(records);
  }

  /** One iteration of `loadAttendanceData` extends all three results from
      the first `k` records to the first `k + 1`. */
  lemma LoadStep(records: seq<Attendance>, k: nat, week: Dict<string>, top: TopDay, idle: nat)
    requires k < |records|
    requires week == GroupSum(records[..k], DayName, HoursOf)
    requires top == TopOf(records[..k])
    requires idle == |Filter(records[..k], IsIdle)|
    ensures Add(week, DayName(records[k]), HoursOf(records[k])) == GroupSum(records[..k + 1], DayName, HoursOf)
    ensures NextTop(top, records[k]) == TopOf(records[..k + 1])
    ensures idle + (if records[k].hours == Some(0) then 1 else 0) == |Filter(records[..k + 1], IsIdle)|
  {
    var r := records[k];
    assert records[..k + 1] == records[..k] + [r];
    GroupSumSnoc(records[..k], r, DayName, HoursOf);
    FilterSnoc(records[..k], r, IsIdle);
    assert records[..k + 1][..k] == records[..k];
  }

  /** The weekday buckets hold distinct names, each holds the hours of the
      records on that weekday, and together they hold the total. */
  lemma WeekBuckets(s: seq<Attendance>, day: string)
    ensures DistinctKeys(GroupSum(s, DayName, HoursOf))
    ensures Total(GroupSum(s, DayName, HoursOf)) == TotalHours(s)
    ensures Get(GroupSum(s, DayName, HoursOf), day).GetOr(0) == TotalHours(Filter(s, KeyIs(DayName, day)))
    ensures HasKey(GroupSum(s, DayName, HoursOf), day) ==>
      day in {"Sunday", "Monday", "Tuesday", "Wednesday", "Thursday", "Friday", "Saturday"}
  {
    GroupSumSpec(s, DayName, HoursOf, day);
  }

  /** A moment: a calendar day and the milliseconds since its midnight. */
  datatype Instant = Instant(day: Date, ms: int)

  const MsPerDay: int := 86_400_000

  predicate ValidInstant(t: Instant) {
    0 <= t.ms < MsPerDay
  }

  /** The time value of a moment. */
  function Time(t: Instant): int {
    DayNumber(t.day) * MsPerDay + t.ms
  }

  datatype Notice = DueToday | Overdue | DueWithinDay | NoNotice

  /** The notice for one task. `due` is `None` for a missing or invalid
      date, which fails every comparison. */
  function Classify(due: Option<Instant>, now: Instant): (n: Notice)
    requires ValidInstant(now) && (due.Some? ==> ValidInstant(due.value))
    ensures n == DueToday <==> due.Some? && due.value.day == now.day
    ensures n == Overdue <==> due.Some? && DayNumber(due.value.day) < DayNumber(now.day)
    ensures n == DueWithinDay ==>
              due.Some? && DayNumber(due.value.day) == DayNumber(now.day) + 1 && Time(due.value) - Time(now) < MsPerDay
    ensures n == NoNotice ==> due.None? || Time(due.value) - Time(now) >= MsPerDay
  {
    match due
    case None => NoNotice
    case Some(d) =>
      DayNumberOrder(d.day, now.day);
      if d.day == now.day then DueToday
      else if Time(d) < Time(now) then Overdue
      else if Time(d) - Time(now) < MsPerDay then DueWithinDay
      else NoNotice
  }

  /** "due within 24 hours" fires only for the next calendar day, and only
      for a due time of day before the current one. */
  lemma WithinDayIsTomorrow(due: Instant, now: Instant)
    requires ValidInstant(now) && ValidInstant(due)
    requires Classify(Some(due), now) == DueWithinDay
    ensures due.ms < now.ms
  {
    var x := DayNumber(now.day);
    assert Time(due) == x * MsPerDay + MsPerDay + due.ms;
  }
}
