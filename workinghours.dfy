/** The default monthly working hours of `GET /admin/working-hours` (the
    part without an override): eight hours for every day of the month that is
    neither a Saturday nor a Sunday nor the day of a holiday. */
module WorkingHours {
  import opened Wrappers
  import opened Seqs
  import opened Strings
  import opened Calendar
  import opened Models

  /** The year the `Date` constructor uses: 0 to 99 stand for 1900 to 1999
      (section 21.4.2.1 of ECMA-262). */
  function ConstructorYear(y: int): int {
    if 0 <= y <= 99 then 1900 + y else y
  }

  /** The (year, month) of `new Date(year, month - 1, 1)`. */
  function TargetMonth(year: int, month: int): (ym: (int, int))
    ensures 1 <= ym.1 <= 12
  {
    NormaliseMonth(ConstructorYear(year), month - 1)
  }

  /** `new Date(year, month, 0).getDate()`. */
  function MonthLength(year: int, month: int): (n: nat)
    ensures n == DaysInMonth(TargetMonth(year, month).0, TargetMonth(year, month).1)
  {
    DaysInMonthOf(ConstructorYear(year), month)
  }

  /** Days 1 to `n` of a month: `new Date(year, month - 1, day)`. */
  function MonthDays(ym: (int, int), n: nat): (s: seq<Date>)
    requires 1 <= ym.1 <= 12 && n <= DaysInMonth(ym.0, ym.1)
    ensures |s| == n
    ensures forall i :: 0 <= i < n ==> s[i] == Ymd(ym.0, ym.1, i + 1)
  {
    if n == 0 then [] else MonthDays(ym, n - 1) + [Ymd(ym.0, ym.1, n)]
  }

  /** `Holiday.find({ date: { $gte: first, $lte: last } })`. */
  function HolidaysBetween(holidays: seq<Holiday>, first: Date, last: Date): (r: seq<Holiday>)
    ensures forall i :: 0 <= i < |r| ==> DayNumber(first) <= DayNumber(r[i].date) <= DayNumber(last)
  {
    Filter(holidays, (h: Holiday) => DayNumber(first) <= DayNumber(h.date) <= DayNumber(last))
  }

  /** `a.toISOString().split('T')[0] === b.toISOString().split('T')[0]`. */
  predicate SameIsoDay(a: Date, b: Date) {
    SplitPiece(IsoString(a), "T", 0) == SplitPiece(IsoString(b), "T", 0)
  }

  /** Comparing the date parts of the ISO strings compares the days. */
  lemma SameIsoDayIff(a: Date, b: Date)
    ensures SameIsoDay(a, b) <==> a == b
  {
    IsoStringDatePart(a);
    IsoStringDatePart(b);
    if SameIsoDay(a, b) {
      IsoDateInjective(a, b);
    }
  }

  /** `holidays.some(h => sameIsoDay(h.date, date))`. */
  predicate IsHoliday(holidays: seq<Holiday>, d: Date) {
    exists i :: 0 <= i < |holidays| && SameIsoDay(holidays[i].date, d)
  }

  predicate IsWorkingDay(holidays: seq<Holiday>, d: Date) {
    !IsWeekend(d) && !IsHoliday(holidays, d)
  }

  /** `d => !isWeekend(d) && !isHoliday(d)` over the holidays in range. */
  function WorkingIn(holidays: seq<Holiday>): Date -> bool {
    (d: Date) => IsWorkingDay(holidays, d)
  }

  /** The days the handler counts, in calendar order. */
  function WorkingDays(year: int, month: int, holidays: seq<Holiday>): (days: seq<Date>)
    ensures |days| <= MonthLength(year, month)
  {
    var ym := TargetMonth(year, month);
    var dim := MonthLength(year, month);
    var all := MonthDays(ym, dim);
    var inRange := HolidaysBetween(holidays, all[0], all[dim - 1]);
    Filter(all, WorkingIn(inRange))
  }

  /** `totalWorkingDays * 8`. */
  function DefaultHours(year: int, month: int, holidays: seq<Holiday>): (hours: nat)
    ensures hours % 8 == 0 && hours <= 8 * MonthLength(year, month)
  {
    8 * |WorkingDays(year, month, holidays)|
  }

  /** A date falls in the month the handler looks at. */
  predicate InMonth(year: int, month: int, d: Date) {
    (d.year, d.month) == TargetMonth(year, month)
  }

  /** Some holiday has exactly this day. */
  predicate HolidayOn(holidays: seq<Holiday>, d: Date) {
    exists i :: 0 <= i < |holidays| && holidays[i].date == d
  }

  /** A day of the month lies between the first and the last day. */
  lemma DayInRange(ym: (int, int), dim: nat, d: Date)
    requires 1 <= ym.1 <= 12 && dim == DaysInMonth(ym.0, ym.1)
    requires (d.year, d.month) == ym
    ensures DayNumber(Ymd(ym.0, ym.1, 1)) <= DayNumber(d) <= DayNumber(Ymd(ym.0, ym.1, dim))
  {
  }

  /** A holiday of a range is a holiday. */
  lemma HolidayOfRange(holidays: seq<Holiday>, first: Date, last: Date, d: Date)
    requires IsHoliday(HolidaysBetween(holidays, first, last), d)
    ensures HolidayOn(holidays, d)
  {
    var r := HolidaysBetween(holidays, first, last);
    var i :| 0 <= i < |r| && SameIsoDay(r[i].date, d);
    SameIsoDayIff(r[i].date, d);
    FilterMembership(holidays, (h: Holiday) => DayNumber(first) <= DayNumber(h.date) <= DayNumber(last), r[i]);
    var j :| 0 <= j < |holidays| && holidays[j] == r[i];
  }

  /** A holiday between the bounds is a holiday of the range. */
  lemma HolidayInRange(holidays: seq<Holiday>, first: Date, last: Date, d: Date)
    requires HolidayOn(holidays, d) && DayNumber(first) <= DayNumber(d) <= DayNumber(last)
    ensures IsHoliday(HolidaysBetween(holidays, first, last), d)
  {
    var r := HolidaysBetween(holidays, first, last);
    var i :| 0 <= i < |holidays| && holidays[i].date == d;
    FilterMembership(holidays, (h: Holiday) => DayNumber(first) <= DayNumber(h.date) <= DayNumber(last), holidays[i]);
    var j :| 0 <= j < |r| && r[j] == holidays[i];
    SameIsoDayIff(r[j].date, d);
  }

  /** Within the month, the range query loses no holiday: a day of the month
      is a holiday of the range exactly when some holiday falls on it. */
  lemma IsHolidayInRange(holidays: seq<Holiday>, ym: (int, int), dim: nat, d: Date)
    requires 1 <= ym.1 <= 12 && dim == DaysInMonth(ym.0, ym.1)
    requires (d.year, d.month) == ym
    ensures IsHoliday(HolidaysBetween(holidays, Ymd(ym.0, ym.1, 1), Ymd(ym.0, ym.1, dim)), d)
        <==> HolidayOn(holidays, d)
  {
    var first: Date := Ymd(ym.0, ym.1, 1);
    var last: Date := Ymd(ym.0, ym.1, dim);
    if IsHoliday(HolidaysBetween(holidays, first, last), d) {
      HolidayOfRange(holidays, first, last, d);
    }
    if HolidayOn(holidays, d) {
      DayInRange(ym, dim, d);
      HolidayInRange(holidays, first, last, d);
    }
  }

  /** A day is counted exactly when it is a day of the month, not a Saturday
      or Sunday, and no holiday falls on it. */
  lemma WorkingDaysSpec(year: int, month: int, holidays: seq<Holiday>, d: Date)
    ensures d in WorkingDays(year, month, holidays) <==>
      InMonth(year, month, d) && !IsWeekend(d) && !HolidayOn(holidays, d)
  {
    var ym := TargetMonth(year, month);
    var dim := MonthLength(year, month);
    var all := MonthDays(ym, dim);
    var inRange := HolidaysBetween(holidays, all[0], all[dim - 1]);
    FilterMembership(all, WorkingIn(inRange), d);
    if InMonth(year, month, d) {
      assert all[d.day - 1] == d;
      IsHolidayInRange(holidays, ym, dim, d);
    }
  }

  /** Two holiday lists that mark the same weekdays of the month give the
      same working days. */
  lemma HolidaysCongruent(year: int, month: int, hs: seq<Holiday>, gs: seq<Holiday>)
    requires forall d: Date :: InMonth(year, month, d) && !IsWeekend(d) ==>
      (HolidayOn(hs, d) <==> HolidayOn(gs, d))
    ensures WorkingDays(year, month, hs) == WorkingDays(year, month, gs)
  {
    var ym := TargetMonth(year, month);
    var dim := MonthLength(year, month);
    var all := MonthDays(ym, dim);
    var hr := HolidaysBetween(hs, all[0], all[dim - 1]);
    var gr := HolidaysBetween(gs, all[0], all[dim - 1]);
    forall i | 0 <= i < |all| ensures IsWorkingDay(hr, all[i]) == IsWorkingDay(gr, all[i]) {
      IsHolidayInRange(hs, ym, dim, all[i]);
      IsHolidayInRange(gs, ym, dim, all[i]);
    }
    FilterCongruent(all, WorkingIn(hr), WorkingIn(gr));
  }

  lemma HolidayOnAppend(hs: seq<Holiday>, h: Holiday, d: Date)
    ensures HolidayOn(hs + [h], d) <==> HolidayOn(hs, d) || h.date == d
  {
    if HolidayOn(hs + [h], d) {
      var i :| 0 <= i < |hs + [h]| && (hs + [h])[i].date == d;
      if i < |hs| {
        assert hs[i].date == d;
      }
    }
    if HolidayOn(hs, d) {
      var i :| 0 <= i < |hs| && hs[i].date == d;
      assert (hs + [h])[i].date == d;
    }
    assert (hs + [h])[|hs|] == h;
  }

  /** A holiday on a Saturday or Sunday, on a day that already is a holiday,
      or outside the month does not change the hours. */
  lemma RedundantHoliday(year: int, month: int, hs: seq<Holiday>, h: Holiday)
    requires IsWeekend(h.date) || HolidayOn(hs, h.date) || !InMonth(year, month, h.date)
    ensures DefaultHours(year, month, hs + [h]) == DefaultHours(year, month, hs)
  {
    forall d: Date | InMonth(year, month, d) && !IsWeekend(d)
      ensures HolidayOn(hs + [h], d) <==> HolidayOn(hs, d)
    {
      HolidayOnAppend(hs, h, d);
    }
    HolidaysCongruent(year, month, hs + [h], hs);
  }

  /** The days of a month are distinct. */
  lemma MonthDaysDistinct(ym: (int, int), n: nat)
    requires 1 <= ym.1 <= 12 && n <= DaysInMonth(ym.0, ym.1)
    ensures NoDuplicates(MonthDays(ym, n))
  {
    var s := MonthDays(ym, n);
    forall i, j | 0 <= i < j < |s| ensures s[i] != s[j] {
      assert s[i].day == i + 1 && s[j].day == j + 1;
    }
  }

  /** One more holiday removes at most one working day. */
  lemma OneHolidayAtMostOneDay(year: int, month: int, hs: seq<Holiday>, h: Holiday)
    ensures DefaultHours(year, month, hs) - 8 <= DefaultHours(year, month, hs + [h])
    ensures DefaultHours(year, month, hs + [h]) <= DefaultHours(year, month, hs)
  {
    var ym := TargetMonth(year, month);
    var dim := MonthLength(year, month);
    var all := MonthDays(ym, dim);
    var hr := HolidaysBetween(hs, all[0], all[dim - 1]);
    var gr := HolidaysBetween(hs + [h], all[0], all[dim - 1]);
    var p := WorkingIn(hr);
    var q := WorkingIn(gr);
    forall i | 0 <= i < |all| ensures q(all[i]) == (p(all[i]) && all[i] != h.date) {
      IsHolidayInRange(hs, ym, dim, all[i]);
      IsHolidayInRange(hs + [h], ym, dim, all[i]);
      HolidayOnAppend(hs, h, all[i]);
    }
    MonthDaysDistinct(ym, dim);
    FilterExceptOne(all, p, q, h.date);
  }

  /** 1 for a day number `x` whose weekday `x % 7` is neither Sunday (0) nor
      Saturday (6). */
  function WeekdayMark(x: int): (b: nat)
    ensures b <= 1
  {
    if x % 7 == 0 || x % 7 == 6 then 0 else 1
  }

  /** The number of days `k` in 1..n with `WeekdayMark(c + k) == 1`. */
  function WeekdayCount(c: int, n: nat): (k: nat)
    ensures k <= n
  {
    if n == 0 then 0 else WeekdayCount(c, n - 1) + WeekdayMark(c + n)
  }

  lemma WeekdayMarkShift(c: int, k: int)
    ensures WeekdayMark(c + k) == WeekdayMark(c % 7 + k)
  {
    assert (c + k) % 7 == (c % 7 + k) % 7;
  }

  /** Any seven consecutive days hold five weekdays. */
  lemma {:induction false} WeekdayCountWeek(c: int, n: nat)
    ensures WeekdayCount(c, n + 7) == WeekdayCount(c, n) + 5
  {
    if n == 0 {
      FirstWeek(c);
    } else {
      WeekdayCountWeek(c, n - 1);
      assert (c + n + 7) % 7 == (c + n) % 7;
    }
  }

  lemma FirstWeek(c: int)
    ensures WeekdayCount(c, 7) == 5
  {
    WeekUnfold(c);
    WeekdayMarkShift(c, 1);
    WeekdayMarkShift(c, 2);
    WeekdayMarkShift(c, 3);
    WeekdayMarkShift(c, 4);
    WeekdayMarkShift(c, 5);
    WeekdayMarkShift(c, 6);
    WeekdayMarkShift(c, 7);
    ResidueWeek(c % 7);
  }

  /** Seven days one mark each. */
  lemma WeekUnfold(c: int)
    ensures WeekdayCount(c, 7) == WeekdayMark(c + 1) + WeekdayMark(c + 2) + WeekdayMark(c + 3)
      + WeekdayMark(c + 4) + WeekdayMark(c + 5) + WeekdayMark(c + 6) + WeekdayMark(c + 7)
  {
    assert WeekdayCount(c, 1) == WeekdayMark(c + 1);
    assert WeekdayCount(c, 3) == WeekdayCount(c, 1) + WeekdayMark(c + 2) + WeekdayMark(c + 3);
    assert WeekdayCount(c, 5) == WeekdayCount(c, 3) + WeekdayMark(c + 4) + WeekdayMark(c + 5);
    assert WeekdayCount(c, 7) == WeekdayCount(c, 5) + WeekdayMark(c + 6) + WeekdayMark(c + 7);
  }

  /** Whatever weekday the week starts after, two of its seven days are a
      Saturday or a Sunday. */
  lemma ResidueWeek(r: int)
    requires 0 <= r < 7
    ensures WeekdayMark(r + 1) + WeekdayMark(r + 2) + WeekdayMark(r + 3) + WeekdayMark(r + 4)
      + WeekdayMark(r + 5) + WeekdayMark(r + 6) + WeekdayMark(r + 7) == 5
  {
  }

  /** Only the weekday of the starting day matters. */
  lemma {:induction false} WeekdayCountShift(c: int, n: nat)
    ensures WeekdayCount(c, n) == WeekdayCount(c % 7, n)
  {
    if n > 0 {
      WeekdayCountShift(c, n - 1);
      WeekdayMarkShift(c, n);
    }
  }

  /** Day `k` of a month has weekday `(c + k) % 7`. */
  lemma WeekDayOfMonthDay(ym: (int, int), k: int)
    requires 1 <= ym.1 <= 12 && 1 <= k <= DaysInMonth(ym.0, ym.1)
    ensures WeekDay(Ymd(ym.0, ym.1, k)) == (DayFromYear(ym.0) + DaysBeforeMonth(ym.0, ym.1) + 3 + k) % 7
  {
  }

  predicate NotWeekend(d: Date) {
    !IsWeekend(d)
  }

  lemma DayMark(ym: (int, int), n: nat, d: Date)
    requires 1 <= ym.1 <= 12 && 1 <= n <= DaysInMonth(ym.0, ym.1) && d == Ymd(ym.0, ym.1, n)
    ensures (if NotWeekend(d) then 1 else 0)
      == WeekdayMark(DayFromYear(ym.0) + DaysBeforeMonth(ym.0, ym.1) + 3 + n)
  {
    WeekDayOfMonthDay(ym, n);
  }

  /** Counting one mark at a time: when the `k`-th element of `s` passes `p`
      exactly when day number `c + k + 1` is a weekday, `s` holds
      `WeekdayCount(c, |s|)` elements that pass. */
  lemma {:induction false} CountMarks<T>(s: seq<T>, p: T -> bool, c: int)
    requires forall k :: 0 <= k < |s| ==> (if p(s[k]) then 1 else 0) == WeekdayMark(c + k + 1)
    ensures |Filter(s, p)| == WeekdayCount(c, |s|)
  {
    if s != [] {
      var init := s[..|s| - 1];
      assert forall k :: 0 <= k < |init| ==> init[k] == s[k];
      CountMarks(init, p, c);
    }
  }

  /** Counting the weekdays of a month by their day number. */
  lemma WeekdaysOfMonth(ym: (int, int), n: nat)
    requires 1 <= ym.1 <= 12 && n <= DaysInMonth(ym.0, ym.1)
    ensures |Filter(MonthDays(ym, n), NotWeekend)|
      == WeekdayCount(DayFromYear(ym.0) + DaysBeforeMonth(ym.0, ym.1) + 3, n)
  {
    var ds := MonthDays(ym, n);
    var c := DayFromYear(ym.0) + DaysBeforeMonth(ym.0, ym.1) + 3;
    forall k | 0 <= k < n ensures (if NotWeekend(ds[k]) then 1 else 0) == WeekdayMark(c + k + 1) {
      DayMark(ym, k + 1, ds[k]);
    }
    CountMarks(ds, NotWeekend, c);
  }

  /** Without holidays the working days are the weekdays of the month. */
  lemma NoHolidayCount(year: int, month: int)
    ensures var ym := TargetMonth(year, month);
      |WorkingDays(year, month, [])|
      == WeekdayCount(DayFromYear(ym.0) + DaysBeforeMonth(ym.0, ym.1) + 3, MonthLength(year, month))
  {
    var ym := TargetMonth(year, month);
    var dim := MonthLength(year, month);
    var all := MonthDays(ym, dim);
    var none := HolidaysBetween([], all[0], all[dim - 1]);
    assert none == [];
    FilterCongruent(all, WorkingIn(none), NotWeekend);
    WeekdaysOfMonth(ym, dim);
  }

  /** 28 to 31 consecutive days hold 20 to 23 weekdays. */
  lemma WeekdayCountMonth(c: int, n: nat)
    requires 28 <= n <= 31
    ensures 20 <= WeekdayCount(c, n) <= 20 + (n - 28)
  {
    WeekdayCountWeek(c, 0);
    WeekdayCountWeek(c, 7);
    WeekdayCountWeek(c, 14);
    WeekdayCountWeek(c, 21);
    assert WeekdayCount(c, 28) == 20;
    if n >= 29 {
      assert WeekdayCount(c, 29) <= 21;
      if n >= 30 {
        assert WeekdayCount(c, 30) <= 22;
      }
    }
  }

  /** Without holidays a month has 20 to 23 working days: 160 to 184 hours. */
  lemma NoHolidayBounds(year: int, month: int)
    ensures 160 <= DefaultHours(year, month, []) <= 184
  {
    var ym := TargetMonth(year, month);
    var c := DayFromYear(ym.0) + DaysBeforeMonth(ym.0, ym.1) + 3;
    var dim := MonthLength(year, month);
    NoHolidayCount(year, month);
    WeekdayCountMonth(c, dim);
    assert DefaultHours(year, month, []) == 8 * WeekdayCount(c, dim);
  }
}
