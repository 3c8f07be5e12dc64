/** Calendar days as JavaScript's `Date` sees them, following section 21.4.1
    of ECMA-262 (DayFromYear, MakeDay, WeekDay, with 0 = Sunday) for
    proleptic Gregorian dates, and the `YYYY-MM-DD` renderings of
    `toISOString()` and of moment's `format("YYYY-MM-DD")`, which agree for
    years 0 to 9999. Every date is a
    day at midnight UTC: times of day and time zones are not modelled. */
module Calendar {
  import opened Wrappers
  import opened Strings

  datatype Ymd = Ymd(year: int, month: int, day: int)

  predicate IsLeap(y: int) {
    y % 4 == 0 && (y % 100 != 0 || y % 400 == 0)
  }

  function DaysInYear(y: int): (n: nat)
    ensures n == 365 || n == 366
  {
    if IsLeap(y) then 366 else 365
  }

  /** Days of month `m` (1 = January) in year `y`. */
  function DaysInMonth(y: int, m: int): (n: nat)
    requires 1 <= m <= 12
    ensures 28 <= n <= 31
    ensures n == 29 <==> m == 2 && IsLeap(y)
  {
    if m == 2 then (if IsLeap(y) then 29 else 28)
    else if m == 4 || m == 6 || m == 9 || m == 11 then 30
    else 31
  }

  predicate ValidYmd(d: Ymd) {
    1 <= d.month <= 12 && 1 <= d.day <= DaysInMonth(d.year, d.month)
  }

  /** A calendar day. */
  type Date = d: Ymd | ValidYmd(d) witness Ymd(1970, 1, 1)

  /** DayFromYear(y): the day number of January 1st of `y`, day 0 being
      1970-01-01. Dafny's `/` by a positive constant is floor division. */
  function DayFromYear(y: int): int {
    365 * (y - 1970) + (y - 1969) / 4 - (y - 1901) / 100 + (y - 1601) / 400
  }

  /** The step from one January 1st to the next is the length of the year. */
  lemma DayFromYearStep(y: int)
    ensures DayFromYear(y + 1) == DayFromYear(y) + DaysInYear(y)
  {
    FourStep(y);
    HundredStep(y);
    FourHundredStep(y);
    DayFromYearUnfold(y);
  }

  lemma DayFromYearUnfold(y: int)
    ensures DayFromYear(y + 1) == 365 * (y - 1970) + 365 + (y - 1968) / 4 - (y - 1900) / 100 + (y - 1600) / 400
    ensures DayFromYear(y) == 365 * (y - 1970) + (y - 1969) / 4 - (y - 1901) / 100 + (y - 1601) / 400
  {
  }

  lemma FourStep(y: int)
    ensures (y - 1968) / 4 == (y - 1969) / 4 + (if y % 4 == 0 then 1 else 0)
  {
    var q, r := (y - 1969) / 4, (y - 1969) % 4;
    assert y - 1969 == 4 * q + r;
    if r == 3 {
      assert y == 4 * (q + 493);
      assert y - 1968 == 4 * (q + 1);
    } else {
      assert y - 1968 == 4 * q + (r + 1);
      assert y == 4 * (q + 492) + (r + 1);
    }
  }

  lemma HundredStep(y: int)
    ensures (y - 1900) / 100 == (y - 1901) / 100 + (if y % 100 == 0 then 1 else 0)
  {
    var q, r := (y - 1901) / 100, (y - 1901) % 100;
    assert y - 1901 == 100 * q + r;
    if r == 99 {
      assert y == 100 * (q + 20);
      assert y - 1900 == 100 * (q + 1);
    } else {
      assert y - 1900 == 100 * q + (r + 1);
      assert y == 100 * (q + 19) + (r + 1);
    }
  }

  lemma FourHundredStep(y: int)
    ensures (y - 1600) / 400 == (y - 1601) / 400 + (if y % 400 == 0 then 1 else 0)
  {
    var q, r := (y - 1601) / 400, (y - 1601) % 400;
    assert y - 1601 == 400 * q + r;
    if r == 399 {
      assert y == 400 * (q + 5);
      assert y - 1600 == 400 * (q + 1);
    } else {
      assert y - 1600 == 400 * q + (r + 1);
      assert y == 400 * (q + 4) + (r + 1);
    }
  }

  /** Days of year `y` before the first of month `m`. */
  function DaysBeforeMonth(y: int, m: int): (n: nat)
    requires 1 <= m <= 13
    decreases m
  {
    if m == 1 then 0 else DaysBeforeMonth(y, m - 1) + DaysInMonth(y, m - 1)
  }

  lemma {:induction false} DaysBeforeMonthYear(y: int)
    ensures DaysBeforeMonth(y, 13) == DaysInYear(y)
  {
    assert DaysBeforeMonth(y, 3) == 31 + DaysInMonth(y, 2);
  }

  /** Day number of a date, 1970-01-01 being 0. */
  function DayNumber(d: Date): int {
    DayFromYear(d.year) + DaysBeforeMonth(d.year, d.month) + d.day - 1
  }

  /** WeekDay: 0 = Sunday, ..., 6 = Saturday (`getDay()`). */
  function WeekDay(d: Date): (w: nat)
    ensures w < 7
  {
    (DayNumber(d) + 4) % 7
  }

  predicate IsWeekend(d: Date) {
    WeekDay(d) == 0 || WeekDay(d) == 6
  }

  /** `toLocaleDateString("en-US", { weekday: "long" })`. */
  function WeekdayName(d: Date): (name: string)
    ensures name in {"Sunday", "Monday", "Tuesday", "Wednesday", "Thursday", "Friday", "Saturday"}
  {
    ["Sunday", "Monday", "Tuesday", "Wednesday", "Thursday", "Friday", "Saturday"][WeekDay(d)]
  }

  /** Example anchoring the weekday formula: the epoch was a Thursday. */
  lemma EpochIsThursday()
    ensures WeekDay(Ymd(1970, 1, 1)) == 4
  {
    assert DayFromYear(1970) == 0;
    assert DayNumber(Ymd(1970, 1, 1)) == 0;
  }

  /** Examples anchoring the weekday formula: 2024-01-01 was a Monday, and
      2024-01-06 a Saturday. */
  lemma WeekDayExamples()
    ensures WeekDay(Ymd(2024, 1, 1)) == 1
    ensures WeekDay(Ymd(2024, 1, 6)) == 6 && IsWeekend(Ymd(2024, 1, 6))
  {
    assert DayFromYear(2024) == 19723;
  }

  /** The day after `d` in the calendar. */
  function NextDay(d: Date): (n: Date)
  {
    if d.day < DaysInMonth(d.year, d.month) then Ymd(d.year, d.month, d.day + 1)
    else if d.month < 12 then Ymd(d.year, d.month + 1, 1)
    else Ymd(d.year + 1, 1, 1)
  }

  /** Consecutive calendar days have consecutive day numbers, so the weekday
      advances by one. */
  lemma NextDayNumber(d: Date)
    ensures DayNumber(NextDay(d)) == DayNumber(d) + 1
    ensures WeekDay(NextDay(d)) == (WeekDay(d) + 1) % 7
  {
    NextDaySucc(d);
    WeekDaySucc(DayNumber(d));
  }

  lemma NextDaySucc(d: Date)
    ensures DayNumber(NextDay(d)) == DayNumber(d) + 1
  {
    if d.day < DaysInMonth(d.year, d.month) {
      assert NextDay(d) == Ymd(d.year, d.month, d.day + 1);
    } else if d.month < 12 {
      NextMonthNumber(d);
    } else {
      NextYearNumber(d);
    }
  }

  lemma NextMonthNumber(d: Date)
    requires d.day == DaysInMonth(d.year, d.month) && d.month < 12
    ensures NextDay(d) == Ymd(d.year, d.month + 1, 1)
    ensures DayNumber(Ymd(d.year, d.month + 1, 1)) == DayNumber(d) + 1
  {
    assert DaysBeforeMonth(d.year, d.month + 1) == DaysBeforeMonth(d.year, d.month) + d.day;
  }

  lemma NextYearNumber(d: Date)
    requires d.day == DaysInMonth(d.year, d.month) && d.month == 12
    ensures NextDay(d) == Ymd(d.year + 1, 1, 1)
    ensures DayNumber(Ymd(d.year + 1, 1, 1)) == DayNumber(d) + 1
  {
    DayFromYearStep(d.year);
    DaysBeforeMonthYear(d.year);
    assert DaysBeforeMonth(d.year, 13) == DaysBeforeMonth(d.year, 12) + d.day;
  }

  lemma WeekDaySucc(n: int)
    ensures (n + 1 + 4) % 7 == ((n + 4) % 7 + 1) % 7
  {
    var q, r := (n + 4) / 7, (n + 4) % 7;
    assert n + 4 == 7 * q + r;
    if r == 6 {
      assert n + 5 == 7 * (q + 1);
    } else {
      assert n + 5 == 7 * q + (r + 1);
    }
  }

  /** `new Date(y, m0, 1)` for any year and zero-based month index: the
      month is normalised into the year as MakeDay prescribes. */
  function NormaliseMonth(y: int, m0: int): (r: (int, int))
    ensures 1 <= r.1 <= 12
    ensures r.0 * 12 + (r.1 - 1) == y * 12 + m0
  {
    (y + m0 / 12, m0 % 12 + 1)
  }

  /** `new Date(y, m, 0).getDate()` with `m` one-based: day 0 of the month
      after `m` is the last day of month `m` (normalised). */
  function DaysInMonthOf(y: int, m: int): (n: nat)
    ensures 28 <= n <= 31
  {
    var ym := NormaliseMonth(y, m - 1);
    DaysInMonth(ym.0, ym.1)
  }

  /** Strictly earlier calendar day (`moment.isAfter` read the other way). */
  predicate Before(a: Date, b: Date) {
    a.year < b.year
    || (a.year == b.year && a.month < b.month)
    || (a.year == b.year && a.month == b.month && a.day < b.day)
  }

  /** Earlier days have smaller day numbers: the order of time values. */
  lemma BeforeDayNumber(a: Date, b: Date)
    requires Before(a, b)
    ensures DayNumber(a) < DayNumber(b)
  {
    if a.year < b.year {
      EarlierYearNumber(a, b);
    } else if a.month < b.month {
      EarlierMonthNumber(a, b);
    }
  }

  lemma EarlierYearNumber(a: Date, b: Date)
    requires a.year < b.year
    ensures DayNumber(a) < DayNumber(b)
  {
    YearBounds(a);
    YearBounds(b);
    DayFromYearMonotone(a.year + 1, b.year);
  }

  lemma EarlierMonthNumber(a: Date, b: Date)
    requires a.year == b.year && a.month < b.month
    ensures DayNumber(a) < DayNumber(b)
  {
    DaysBeforeMonthMonotone(a.year, a.month + 1, b.month);
    assert DaysBeforeMonth(a.year, a.month + 1) == DaysBeforeMonth(a.year, a.month) + DaysInMonth(a.year, a.month);
  }

  /** Day numbers tell dates apart, and order them as `Before` does. */
  lemma DayNumberOrder(a: Date, b: Date)
    ensures DayNumber(a) == DayNumber(b) <==> a == b
    ensures DayNumber(a) < DayNumber(b) <==> Before(a, b)
  {
    if Before(a, b) {
      BeforeDayNumber(a, b);
    } else if Before(b, a) {
      BeforeDayNumber(b, a);
    }
  }

  /** A date lies within its year. */
  lemma YearBounds(d: Date)
    ensures DayFromYear(d.year) <= DayNumber(d) < DayFromYear(d.year + 1)
  {
    DayFromYearStep(d.year);
    DaysBeforeMonthYear(d.year);
    DaysBeforeMonthMonotone(d.year, d.month + 1, 13);
  }

  lemma {:induction false} DaysBeforeMonthMonotone(y: int, m: int, n: int)
    requires 1 <= m <= n <= 13
    ensures DaysBeforeMonth(y, m) <= DaysBeforeMonth(y, n)
    decreases n - m
  {
    if m < n {
      DaysBeforeMonthMonotone(y, m, n - 1);
    }
  }

  lemma {:induction false} DayFromYearMonotone(x: int, y: int)
    requires x <= y
    ensures DayFromYear(x) <= DayFromYear(y)
    decreases y - x
  {
    if x < y {
      DayFromYearMonotone(x, y - 1);
      DayFromYearStep(y - 1);
    }
  }

  /** Two digits with a leading zero (`MM`, `DD`). */
  function Pad2(n: nat): (s: string)
    requires n < 100
    ensures |s| == 2 && AllDigits(s) && DigitsValue(s) == n
  {
    var s := PadStart(NatToString(n), 2, '0');
    PaddedValue(n, 2);
    s
  }

  /** A zero-padded rendering reads back as the number. */
  lemma PaddedValue(n: nat, k: nat)
    ensures AllDigits(PadStart(NatToString(n), k, '0'))
    ensures DigitsValue(PadStart(NatToString(n), k, '0')) == n
  {
    var t := NatToString(n);
    var p := PadStart(t, k, '0');
    NatToStringValue(n);
    var z := p[..|p| - |t|];
    assert p == z + t;
    DigitsValueLeadingZeros(z, t);
  }

  /** The year part of an ISO date: four digits for years 0 to 9999, else a
      sign and six digits. */
  function YearString(y: int): (s: string)
    ensures |s| >= 4
  {
    if 0 <= y <= 9999 then PadStart(NatToString(y), 4, '0')
    else (if y < 0 then "-" else "+") + PadStart(NatToString(if y < 0 then -y else y), 6, '0')
  }

  lemma FourDigitYear(y: int)
    requires 0 <= y <= 9999
    ensures |YearString(y)| == 4 && AllDigits(YearString(y)) && DigitsValue(YearString(y)) == y
  {
    NatToStringLength(y, 4);
    PaddedValue(y, 4);
  }

  lemma YearStringLacks(y: int, c: char)
    requires !IsDigit(c) && c != '-' && c != '+'
    ensures Lacks(YearString(y), c)
  {
    var n: nat := if y < 0 then -y else y;
    var k := if 0 <= y <= 9999 then 4 else 6;
    PaddedValue(n, k);
    var p := PadStart(NatToString(n), k, '0');
    DigitsLack(p, c);
    if !(0 <= y <= 9999) {
      var sign := if y < 0 then "-" else "+";
      assert YearString(y) == sign + p;
      LacksAppend(sign, p, c);
    }
  }

  lemma DigitsLack(s: string, c: char)
    requires AllDigits(s) && !IsDigit(c)
    ensures Lacks(s, c)
  {
  }

  lemma YearStringInjective(x: int, y: int)
    requires YearString(x) == YearString(y)
    ensures x == y
  {
    var s := YearString(x);
    var nx: nat := if x < 0 then -x else x;
    var ny: nat := if y < 0 then -y else y;
    if 0 <= x <= 9999 && 0 <= y <= 9999 {
      FourDigitYear(x);
      FourDigitYear(y);
    } else if !(0 <= x <= 9999) && !(0 <= y <= 9999) {
      PaddedValue(nx, 6);
      PaddedValue(ny, 6);
      assert s[1..] == PadStart(NatToString(nx), 6, '0');
      assert s[1..] == PadStart(NatToString(ny), 6, '0');
    } else if 0 <= x <= 9999 {
      FourDigitYear(x);
    } else {
      FourDigitYear(y);
    }
  }

  /** The `-MM-DD` part of an ISO date. */
  function MonthDay(d: Date): (s: string)
    ensures |s| == 6 && s[1..3] == Pad2(d.month) && s[4..] == Pad2(d.day)
  {
    DashedParts(Pad2(d.month), Pad2(d.day));
    "-" + Pad2(d.month) + "-" + Pad2(d.day)
  }

  /** The `-MM-DD` part holds no `T`. */
  lemma MonthDayLacks(d: Date)
    ensures Lacks(MonthDay(d), 'T')
  {
    var m, n := Pad2(d.month), Pad2(d.day);
    DashedParts(m, n);
    DigitsLack(m, 'T');
    DigitsLack(n, 'T');
    LacksAppend("-", m, 'T');
    LacksAppend("-", n, 'T');
    LacksAppend("-" + m, "-" + n, 'T');
  }

  lemma DashedParts(m: string, n: string)
    requires |m| == 2 && |n| == 2
    ensures ("-" + m + "-" + n)[1..3] == m && ("-" + m + "-" + n)[4..] == n
    ensures "-" + m + "-" + n == ("-" + m) + ("-" + n)
  {
    var s := "-" + m + "-" + n;
    assert s[1..3] == m;
    assert s[4..] == n;
  }

  /** `toISOString().split("T")[0]`. Moment's `format("YYYY-MM-DD")` is
      `MomentDate`; the two agree for years 0 to 9999 (`MomentIsIsoDate`). */
  function IsoDate(d: Date): (s: string)
    ensures |s| == |YearString(d.year)| + 6
  {
    YearString(d.year) + MonthDay(d)
  }

  /** The `YYYY` token of moment's `format`: the absolute year zero-filled
      to at least four digits, with a "-" for a negative year and no sign
      otherwise, so 12000 is "12000" and -1 is "-0001". */
  function MomentYear(y: int): (s: string)
    ensures |s| >= 4
  {
    if y < 0 then "-" + PadStart(NatToString(-y), 4, '0') else PadStart(NatToString(y), 4, '0')
  }

  /** `moment(d).format("YYYY-MM-DD")`. */
  function MomentDate(d: Date): (s: string)
    ensures |s| == |MomentYear(d.year)| + 6
  {
    MomentYear(d.year) + MonthDay(d)
  }

  /** For years 0 to 9999 moment's rendering is the ISO date part. */
  lemma MomentIsIsoDate(d: Date)
    requires 0 <= d.year <= 9999
    ensures MomentDate(d) == IsoDate(d)
  {
    assert MomentYear(d.year) == YearString(d.year);
  }

  /** Past year 9999 the two renderings differ: moment writes 12000 as
      "12000", where `toISOString` writes "+012000". */
  lemma MomentDiffersAbove(d: Date)
    requires 9999 < d.year
    ensures MomentDate(d) != IsoDate(d)
  {
    var p := PadStart(NatToString(d.year), 4, '0');
    assert IsDigit(p[0]);
    assert MomentDate(d)[0] == p[0];
    assert YearString(d.year)[0] == '+';
    assert IsoDate(d)[0] == '+';
  }

  /** For years -9999 to -1 they differ too: moment writes -1 as "-0001",
      where `toISOString` writes "-000001". */
  lemma MomentDiffersBelow(d: Date)
    requires -10000 < d.year < 0
    ensures MomentDate(d) != IsoDate(d)
  {
    NatToStringLength(-d.year, 4);
    assert |MomentYear(d.year)| == 5;
    assert |YearString(d.year)| == 7;
  }

  /** Distinct days have distinct moment renderings. */
  lemma MomentDateInjective(a: Date, b: Date)
    requires MomentDate(a) == MomentDate(b)
    ensures a == b
  {
    ConcatEqual(MomentYear(a.year), MonthDay(a), MomentYear(b.year), MonthDay(b));
    MomentYearInjective(a.year, b.year);
    assert Pad2(a.month) == Pad2(b.month) && Pad2(a.day) == Pad2(b.day);
  }

  lemma MomentYearInjective(x: int, y: int)
    requires MomentYear(x) == MomentYear(y)
    ensures x == y
  {
    var nx: nat := if x < 0 then -x else x;
    var ny: nat := if y < 0 then -y else y;
    PaddedValue(nx, 4);
    PaddedValue(ny, 4);
    if x < 0 && y < 0 {
      assert MomentYear(x)[1..] == MomentYear(y)[1..];
    }
  }


  /** Distinct days have distinct `YYYY-MM-DD` renderings, so comparing the
      strings compares the days. */
  lemma IsoDateInjective(a: Date, b: Date)
    requires IsoDate(a) == IsoDate(b)
    ensures a == b
  {
    ConcatEqual(YearString(a.year), MonthDay(a), YearString(b.year), MonthDay(b));
    YearStringInjective(a.year, b.year);
    assert Pad2(a.month) == Pad2(b.month) && Pad2(a.day) == Pad2(b.day);
  }

  /** `toISOString()` of a day at midnight UTC. */
  function IsoString(d: Date): (s: string) {
    IsoDate(d) + "T00:00:00.000Z"
  }

  /** `toISOString().split("T")[0]` gives back the `YYYY-MM-DD` part. */
  lemma IsoStringDatePart(d: Date)
    ensures SplitPiece(IsoString(d), "T", 0) == Some(IsoDate(d))
  {
    IsoDateLacks(d);
    IsoStringParts(d);
    SplitAtFirstChar(IsoDate(d), 'T', "00:00:00.000Z");
  }

  lemma IsoDateLacks(d: Date)
    ensures Lacks(IsoDate(d), 'T')
  {
    YearStringLacks(d.year, 'T');
    MonthDayLacks(d);
    LacksAppend(YearString(d.year), MonthDay(d), 'T');
  }

  lemma IsoStringParts(d: Date)
    ensures IsoString(d) == IsoDate(d) + ['T'] + "00:00:00.000Z"
  {
  }

  /** `toISOString().slice(0, 7)`: the `YYYY-MM` month key. */
  function MonthKey(d: Date): (s: string)
    ensures |s| == 7
  {
    IsoString(d)[..7]
  }

  /** For four-digit years the month key identifies the year and the month. */
  lemma MonthKeySame(a: Date, b: Date)
    requires 0 <= a.year <= 9999 && 0 <= b.year <= 9999
    ensures MonthKey(a) == MonthKey(b) <==> a.year == b.year && a.month == b.month
  {
    FourDigitYear(a.year);
    FourDigitYear(b.year);
    var ka, kb := MonthKey(a), MonthKey(b);
    assert ka == YearString(a.year) + MonthDay(a)[..3];
    assert kb == YearString(b.year) + MonthDay(b)[..3];
    if ka == kb {
      ConcatEqual(YearString(a.year), MonthDay(a)[..3], YearString(b.year), MonthDay(b)[..3]);
      YearStringInjective(a.year, b.year);
      assert MonthDay(a)[1..3] == MonthDay(a)[..3][1..];
      assert MonthDay(b)[1..3] == MonthDay(b)[..3][1..];
    }
  }
}
