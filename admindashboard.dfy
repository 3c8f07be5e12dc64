/** The charts of the admin dashboard (`new-frontend/pages/admin/dashboard.js`):
    hours per day of the month and the histogram of hours, both over the
    records that fall on a weekday. */
module AdminDashboard {
  import opened Wrappers
  import opened Seqs
  import opened Calendar
  import opened Assoc
  import opened Models
  import opened Records

  /** `new Date(record.date).getDate()`. */
  function DayOfMonth(a: Attendance): int {
    a.date.day
  }

  /** The `forEach` that fills `daysInMonth`: weekend records are skipped,
      then each record adds its hours into the bucket of its day. */
  method DaysInMonthChart(attendance: seq<Attendance>) returns (days: Dict<int>)
    ensures days == GroupSum(WeekdayRecords(attendance), DayOfMonth, HoursOf)
  {
    var filtered := WeekdayRecords(attendance);
    days := [];
    var k := 0;
    while k < |filtered|
      invariant 0 <= k <= |filtered|
      invariant days == GroupSum(filtered[..k], DayOfMonth, HoursOf)
    {
      var r := filtered[k];
      assert filtered[..k + 1] == filtered[..k] + [r];
      GroupSumSnoc(filtered[..k], r, DayOfMonth, HoursOf);
      days := Add(days, DayOfMonth(r), HoursOf(r));
      k := k + 1;
    }
    assert filtered[..k] == filtered;
  }

  /** Each day appears once and lies in 1..31, its bucket holds the hours
      of the weekday records on that day, and the buckets add up to the
      weekday hours. */
  lemma DaysInMonthBuckets(attendance: seq<Attendance>, d: int)
    ensures DistinctKeys(GroupSum(WeekdayRecords(attendance), DayOfMonth, HoursOf))
    ensures Total(GroupSum(WeekdayRecords(attendance), DayOfMonth, HoursOf)) == TotalHours(WeekdayRecords(attendance))
    ensures Get(GroupSum(WeekdayRecords(attendance), DayOfMonth, HoursOf), d).GetOr(0)
      == TotalHours(Filter(WeekdayRecords(attendance), KeyIs(DayOfMonth, d)))
    ensures HasKey(GroupSum(WeekdayRecords(attendance), DayOfMonth, HoursOf), d) ==> 1 <= d <= 31
  {
    GroupSumSpec(WeekdayRecords(attendance), DayOfMonth, HoursOf, d);
  }
}
