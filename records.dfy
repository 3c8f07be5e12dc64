/** Folds over attendance records that several pages share: the hours of a
    record with missing hours counted as 0, the weekday filter of the charts
    and the histogram of hours. Records come from the attendance collection,
    whose schema requires a date. */
module Records {
  import opened Wrappers
  import opened Seqs
  import opened Calendar
  import opened Assoc
  import opened Models

  /** `record.hours || 0`. */
  function HoursOf(a: Attendance): int {
    a.hours.GetOr(0)
  }

  /** `records.reduce((sum, r) => sum + (r.hours || 0), 0)`. */
  function TotalHours(s: seq<Attendance>): int {
    SumBy(s, HoursOf)
  }

  /** With non-negative hours the total of a filtered list is at most the
      total of the list. */
  lemma TotalOfFilter(s: seq<Attendance>, p: Attendance -> bool)
    requires forall i :: 0 <= i < |s| ==> HoursOf(s[i]) >= 0
    ensures 0 <= TotalHours(Filter(s, p)) <= TotalHours(s)
  {
    SumByFilterAtMost(s, p, HoursOf);
    FilterSpec(s, p);
    var f := Filter(s, p);
    forall i | 0 <= i < |f| ensures HoursOf(f[i]) >= 0 {
      assert f[i] in s;
    }
    SumByNonNegative(f, HoursOf);
  }

  predicate OnWeekday(a: Attendance) {
    !IsWeekend(a.date)
  }

  /** `attendance.filter(r => { const day = new Date(r.date).getDay();
      return day !== 0 && day !== 6 })`. */
  function WeekdayRecords(s: seq<Attendance>): (r: seq<Attendance>)
    ensures forall a :: a in r <==> a in s && !IsWeekend(a.date)
    ensures IsSubsequence(r, s)
  {
    FilterSpec(s, OnWeekday);
    Filter(s, OnWeekday)
  }

  function One(a: Attendance): int {
    1
  }

  /** `acc[hours] = (acc[hours] || 0) + 1` with `hours = r.hours || 0`. */
  function HoursHistogram(s: seq<Attendance>): Dict<int> {
    GroupSum(s, HoursOf, One)
  }

  /** Each hours value appears once, its count is the number of records
      with those hours, and the counts add up to the number of records. */
  lemma HistogramCounts(s: seq<Attendance>, h: int)
    ensures DistinctKeys(HoursHistogram(s))
    ensures Total(HoursHistogram(s)) == |s|
    ensures Get(HoursHistogram(s), h).GetOr(0) == |Filter(s, KeyIs(HoursOf, h))|
    ensures HasKey(HoursHistogram(s), h) <==> exists i :: 0 <= i < |s| && HoursOf(s[i]) == h
  {
    GroupSumSpec(s, HoursOf, One, h);
    SumByConst(s, One, 1);
    SumByConst(Filter(s, KeyIs(HoursOf, h)), One, 1);
  }

  /** The "hours" chart of both dashboards: the histogram of the weekday
      records. */
  function WeekdayHistogram(s: seq<Attendance>): Dict<int> {
    HoursHistogram(WeekdayRecords(s))
  }

  /** Its counts add up to the number of weekday records, and the count for
      `h` is the number of weekday records with `h` hours. */
  lemma WeekdayHistogramCounts(s: seq<Attendance>, h: int)
    ensures Total(WeekdayHistogram(s)) == |WeekdayRecords(s)|
    ensures Get(WeekdayHistogram(s), h).GetOr(0) == |Filter(WeekdayRecords(s), KeyIs(HoursOf, h))|
    ensures HasKey(WeekdayHistogram(s), h) <==>
      exists a :: a in s && !IsWeekend(a.date) && HoursOf(a) == h
  {
    var w := WeekdayRecords(s);
    HistogramCounts(w, h);
    if exists a :: a in s && !IsWeekend(a.date) && HoursOf(a) == h {
      var a :| a in s && !IsWeekend(a.date) && HoursOf(a) == h;
      var i :| 0 <= i < |w| && w[i] == a;
    }
  }
}
