/** Epoch seconds as a Gregorian date and time of day. */
module Calendar {
  import opened Bytes

  datatype DateTime = DateTime(year: nat, month: nat, day: nat, hour: nat, minute: nat, second: nat)

  // ---- The calendar itself: leap years and month lengths, counted from 1970-01-01 ----

  predicate Leap(y: nat) { y % 4 == 0 && (y % 100 != 0 || y % 400 == 0) }

  function YearLength(y: nat): nat { if Leap(y) then 366 else 365 }

  function MonthLength(y: nat, m: nat): nat
    requires 1 <= m <= 12
  {
    if m == 2 then (if Leap(y) then 29 else 28)
    else if m == 4 || m == 6 || m == 9 || m == 11 then 30
    else 31
  }

  function DaysBeforeYear(y: nat): nat
    requires y >= 1970
  {
    if y == 1970 then 0 else DaysBeforeYear(y - 1) + YearLength(y - 1)
  }

  function DaysBeforeMonth(y: nat, m: nat): nat
    requires 1 <= m <= 13
  {
    if m == 1 then 0 else DaysBeforeMonth(y, m - 1) + MonthLength(y, m - 1)
  }

  predicate ValidDate(t: DateTime)
  {
    t.year >= 1970 && 1 <= t.month <= 12 && 1 <= t.day <= MonthLength(t.year, t.month)
  }

  predicate Valid(t: DateTime)
  {
    && ValidDate(t)
    && t.hour < 24 && t.minute < 60 && t.second < 60
  }

  function EpochDay(t: DateTime): nat
    requires Valid(t)
  {
    DaysBeforeYear(t.year) + DaysBeforeMonth(t.year, t.month) + t.day - 1
  }

  function EpochSecond(t: DateTime): nat
    requires Valid(t)
  {
    86400 * EpochDay(t) + 3600 * t.hour + 60 * t.minute + t.second
  }

  // ---- The program's formulas ----

  /** Days before the year `yoe` of a 400-year era whose years begin in March. */
  function EraDays(yoe: nat): int { 365 * yoe + yoe / 4 - yoe / 100 }

  function YearOfEra(doe: nat): nat
  {
    (doe - doe / 1460 + doe / 36524 - doe / 146096) / 365
  }

  /** Days from March 1st to the first of the `mp`-th month after it. */
  function MarchDays(mp: nat): nat { (153 * mp + 2) / 5 }

  /** The March-based year that holds a day since 1970-01-01, and the day's number in it. */
  function MarchDate(day: nat): (r: (nat, nat))
    ensures day + 719468 == MarchFirst(r.0) + r.1
    ensures r.1 <= 365 && (r.1 == 365 ==> Leap(r.0 + 1))
  {
    var z := day + 719468;
    var era := z / 146097;
    var doe := z - era * 146097;
    var yoe := YearOfEra(doe);
    YearOfEraBounds(doe);
    EraYear(era, yoe);
    (yoe + era * 400, doe - EraDays(yoe))
  }

  /** The date of day `doy` of the March-based year `y`, at midnight. */
  function DateOf(y: nat, doy: nat): DateTime
    requires doy <= 365
  {
    MonthBounds(doy);
    var mp := (5 * doy + 2) / 153;
    var d := doy - MarchDays(mp) + 1;
    var m := if mp < 10 then mp + 3 else mp - 9;
    DateTime(if m <= 2 then y + 1 else y, m, d, 0, 0, 0)
  }

  /** `t` is a valid date and time whose own second count is `secs`. */
  predicate IsExact(secs: nat, t: DateTime) { Valid(t) && EpochSecond(t) == secs }

  /** `epoch_secs_to_datetime`, with the year not yet cut to 32 bits. */
  function Exact(secs: nat): (t: DateTime)
    ensures IsExact(secs, t)
  {
    var s := secs % 86400;
    var (y, doy) := MarchDate(secs / 86400);
    ExactFrom(secs, y, doy);
    DateOf(y, doy).(hour := s / 3600, minute := s % 3600 / 60, second := s % 60)
  }

  /**
   * The March-based year cast to 32 bits; January and February are moved on to the next year
   * in 32-bit arithmetic.
   */
  function Cut(t: DateTime): DateTime
    requires t.year >= 1
  {
    t.(year := if t.month <= 2 then ((t.year - 1) % U32_LIMIT + 1) % U32_LIMIT else t.year % U32_LIMIT)
  }

  /**
   * The program's result: the valid date and time with the given second count, precisely while
   * the year of that one fits in 32 bits.
   */
  function ToDateTime(secs: nat): (t: DateTime)
    ensures forall e :: IsExact(secs, e) ==> (IsExact(secs, t) <==> e.year < U32_LIMIT)
  {
    var x := Exact(secs);
    CutExactIff(secs, x);
    Cut(x)
  }

  /** The cast changes nothing precisely while the year fits in 32 bits. */
  lemma CutIff(t: DateTime)
    requires t.year >= 1
    ensures Cut(t) == t <==> t.year < U32_LIMIT
  {
  }

  // ---- The year formula ----

  lemma YearParts(c: nat, q: nat, r: nat, n: nat)
    requires c <= 3 && q <= 24 && r <= 3 && n <= 365
    requires n == 365 ==> r == 3 && (q == 24 ==> c == 3)
    ensures var doe := 36524 * c + 1461 * q + 365 * r + n;
      YearOfEra(doe) == 100 * c + 4 * q + r && EraDays(100 * c + 4 * q + r) == doe - n
  {
    var doe := 36524 * c + 1461 * q + 365 * r + n;
    var e := if 24 * c + q + 365 * r + n >= 1460 then 1 else 0;
    assert doe / 1460 == 25 * c + q + e;
    var last := if n == 365 && q == 24 then 1 else 0;
    assert doe / 36524 == c + last;
    assert doe / 146096 == last;
    var k := 100 * c + 4 * q + r;
    assert doe - doe / 1460 + doe / 36524 - doe / 146096 == 365 * k + n - e;
    assert k / 4 == 25 * c + q && k / 100 == c;
  }

  /**
   * The four divisions find the year: the day lies in year `yoe` of the era, and only a year
   * that a leap February ends has a 366th day.
   */
  lemma YearOfEraBounds(doe: nat)
    requires doe < 146097
    ensures YearOfEra(doe) < 400
    ensures 0 <= doe - EraDays(YearOfEra(doe)) <= 365
    ensures doe - EraDays(YearOfEra(doe)) == 365 ==>
      (YearOfEra(doe) + 1) % 4 == 0 && ((YearOfEra(doe) + 1) % 100 == 0 ==> YearOfEra(doe) == 399)
  {
    hide YearOfEra, EraDays;
    var c := if doe / 36524 < 3 then doe / 36524 else 3;
    var d1 := doe - 36524 * c;
    var q := d1 / 1461;
    var d2 := d1 - 1461 * q;
    var r := if d2 / 365 < 3 then d2 / 365 else 3;
    YearParts(c, q, r, d2 - 365 * r);
    LastYears(c, q, r);
  }

  /** A leap February ends the fourth year of a group, but in the last group of a century only in the last century. */
  lemma LastYears(c: nat, q: nat, r: nat)
    requires c <= 3 && q <= 24 && r <= 3
    ensures var k := 100 * c + 4 * q + r;
      && k < 400 && (r == 3 ==> (k + 1) % 4 == 0) && (r == 3 && (k + 1) % 100 == 0 ==> q == 24)
      && (q == 24 && r == 3 && c == 3 ==> k == 399)
  {
  }

  lemma MonthBounds(doy: nat)
    requires doy <= 365
    ensures var mp := (5 * doy + 2) / 153;
      mp <= 11 && MarchDays(mp) <= doy < MarchDays(mp + 1)
  {
  }

  // ---- Closed forms ----

  /** Days from 0000-03-01 to March 1st of year `y`. */
  function MarchFirst(y: nat): int { 365 * y + y / 4 - y / 100 + y / 400 }

  lemma By4(y: nat)
    ensures (y + 1) / 4 == y / 4 + if (y + 1) % 4 == 0 then 1 else 0
  {
  }

  lemma By100(y: nat)
    ensures (y + 1) / 100 == y / 100 + if (y + 1) % 100 == 0 then 1 else 0
  {
  }

  lemma By400(y: nat)
    ensures (y + 1) / 400 == y / 400 + if (y + 1) % 400 == 0 then 1 else 0
  {
  }

  lemma LeapMultiples(y: nat)
    ensures y % 100 == 0 ==> y % 4 == 0
    ensures y % 400 == 0 ==> y % 100 == 0
  {
    if y % 100 == 0 {
      assert y == 4 * (25 * (y / 100));
    }
    if y % 400 == 0 {
      assert y == 100 * (4 * (y / 400));
    }
  }

  lemma MarchFirstStep(y: nat)
    ensures MarchFirst(y + 1) == MarchFirst(y) + YearLength(y + 1)
  {
    By4(y);
    By100(y);
    By400(y);
    LeapMultiples(y + 1);
  }

  lemma {:induction false} DaysBeforeYearClosed(y: nat)
    requires y >= 1970
    ensures DaysBeforeYear(y) == MarchFirst(y - 1) + 306 - 719468
  {
    if y > 1970 {
      DaysBeforeYearClosed(y - 1);
      MarchFirstStep(y - 2);
    }
  }

  lemma DaysBeforeMonthTable(y: nat)
    ensures DaysBeforeMonth(y, 1) == 0 && DaysBeforeMonth(y, 2) == 31
    ensures forall mp :: 0 <= mp <= 9 ==> DaysBeforeMonth(y, mp + 3) == MarchDays(mp) + 31 + MonthLength(y, 2)
    ensures DaysBeforeMonth(y, 13) == YearLength(y)
  {
    var f := 31 + MonthLength(y, 2);
    assert DaysBeforeMonth(y, 2) == 31;
    assert DaysBeforeMonth(y, 3) == f;
    assert DaysBeforeMonth(y, 4) == f + 31;
    assert DaysBeforeMonth(y, 5) == f + 61;
    assert DaysBeforeMonth(y, 6) == f + 92;
    assert DaysBeforeMonth(y, 7) == f + 122;
    assert DaysBeforeMonth(y, 8) == f + 153;
    assert DaysBeforeMonth(y, 9) == f + 184;
    assert DaysBeforeMonth(y, 10) == f + 214;
    assert DaysBeforeMonth(y, 11) == f + 245;
    assert DaysBeforeMonth(y, 12) == f + 275;
    assert DaysBeforeMonth(y, 13) == f + 306;
  }

  // ---- The round trip ----

  lemma EraYear(era: nat, yoe: nat)
    requires yoe < 400
    ensures MarchFirst(yoe + era * 400) == 146097 * era + EraDays(yoe)
    ensures (yoe + 1) % 4 == 0 && ((yoe + 1) % 100 == 0 ==> yoe == 399) ==> Leap(yoe + era * 400 + 1)
  {
    EraQuotients(era, yoe);
    EraRemainders(era, yoe + 1);
  }

  lemma EraQuotients(era: nat, yoe: nat)
    requires yoe < 400
    ensures var y := yoe + era * 400;
      y / 4 == yoe / 4 + 100 * era && y / 100 == yoe / 100 + 4 * era && y / 400 == era
  {
  }

  lemma EraRemainders(era: nat, n: nat)
    requires n <= 400
    ensures var y := n + era * 400;
      y % 4 == n % 4 && y % 100 == n % 100 && (n == 400 ==> y % 400 == 0)
  {
  }

  /** No date before 1970 comes out. */
  lemma YearAtLeast1970(y: nat, doy: nat)
    requires MarchFirst(y) + doy >= 719468 && doy <= 365
    ensures y >= 1969 && (y == 1969 ==> doy >= 306)
  {
  }

  lemma FebruaryBounds(y: nat, doy: nat)
    requires doy <= 365 && (doy == 365 ==> Leap(y + 1))
    ensures var mp := (5 * doy + 2) / 153;
      var m := if mp < 10 then mp + 3 else mp - 9;
      1 <= m <= 12 && 1 <= doy - MarchDays(mp) + 1 <= MonthLength(if mp < 10 then y else y + 1, m)
  {
  }

  lemma SpringDate(y: nat, doy: nat, mp: nat)
    requires y >= 1970 && mp <= 9
    ensures DaysBeforeYear(y) + DaysBeforeMonth(y, mp + 3) + doy - MarchDays(mp) == MarchFirst(y) + doy - 719468
  {
    hide MarchFirst, MarchDays, DaysBeforeYear, DaysBeforeMonth;
    DaysBeforeYearClosed(y + 1);
    DaysBeforeMonthTable(y);
    YearOn(y);
  }

  lemma WinterDate(y: nat, doy: nat, mp: nat)
    requires y >= 1969 && 10 <= mp <= 11
    ensures DaysBeforeYear(y + 1) + DaysBeforeMonth(y + 1, mp - 9) + doy - MarchDays(mp) == MarchFirst(y) + doy - 719468
  {
    hide MarchFirst, DaysBeforeYear, DaysBeforeMonth;
    DaysBeforeYearClosed(y + 1);
    DaysBeforeMonthTable(y + 1);
  }

  lemma DateOfDay(day: nat, y: nat, doy: nat)
    requires day + 719468 == MarchFirst(y) + doy && doy <= 365 && (doy == 365 ==> Leap(y + 1))
    ensures ValidDate(DateOf(y, doy))
    ensures var t := DateOf(y, doy);
      DaysBeforeYear(t.year) + DaysBeforeMonth(t.year, t.month) + t.day - 1 == day
  {
    hide MarchFirst, MarchDays, DaysBeforeYear, DaysBeforeMonth, MonthLength;
    YearAtLeast1970(y, doy);
    FebruaryBounds(y, doy);
    MonthBounds(doy);
    var mp := (5 * doy + 2) / 153;
    if mp < 10 {
      SpringDate(y, doy, mp);
    } else {
      WinterDate(y, doy, mp);
    }
  }

  /** The division formulas give a valid date and time with the right second count. */
  lemma ExactFrom(secs: nat, y: nat, doy: nat)
    requires secs / 86400 + 719468 == MarchFirst(y) + doy && doy <= 365 && (doy == 365 ==> Leap(y + 1))
    ensures var s := secs % 86400;
      IsExact(secs, DateOf(y, doy).(hour := s / 3600, minute := s % 3600 / 60, second := s % 60))
  {
    hide MarchFirst, DaysBeforeYear, DaysBeforeMonth, DateOf, MonthLength, Leap;
    DateOfDay(secs / 86400, y, doy);
    ClockRoundTrip(secs);
  }

  lemma YearOn(y: nat)
    requires y >= 1970
    ensures DaysBeforeYear(y + 1) == DaysBeforeYear(y) + YearLength(y)
  {
  }

  lemma ClockRoundTrip(secs: nat)
    ensures var s := secs % 86400;
      && s / 3600 < 24 && s % 3600 / 60 < 60
      && 86400 * (secs / 86400) + 3600 * (s / 3600) + 60 * (s % 3600 / 60) + s % 60 == secs
  {
  }

  // ---- Order ----

  /** Earlier, comparing year, month, day, hour, minute and second in turn. */
  predicate Earlier(t: DateTime, u: DateTime)
  {
    || t.year < u.year
    || (t.year == u.year && t.month < u.month)
    || (t.year == u.year && t.month == u.month && t.day < u.day)
    || (t.year == u.year && t.month == u.month && t.day == u.day && ClockEarlier(t, u))
  }

  predicate ClockEarlier(t: DateTime, u: DateTime)
  {
    || t.hour < u.hour
    || (t.hour == u.hour && t.minute < u.minute)
    || (t.hour == u.hour && t.minute == u.minute && t.second < u.second)
  }

  lemma {:induction false} MonthsGrow(y: nat, m: nat, n: nat)
    requires 1 <= m < n <= 13
    ensures DaysBeforeMonth(y, m) + MonthLength(y, m) <= DaysBeforeMonth(y, n)
    decreases n
  {
    if m < n - 1 {
      MonthsGrow(y, m, n - 1);
    }
  }

  lemma {:induction false} YearsGrow(y: nat, z: nat)
    requires 1970 <= y < z
    ensures DaysBeforeYear(y) + YearLength(y) <= DaysBeforeYear(z)
    decreases z
  {
    if y < z - 1 {
      YearsGrow(y, z - 1);
    }
  }

  lemma DayWithinYear(t: DateTime)
    requires ValidDate(t)
    ensures DaysBeforeMonth(t.year, t.month) + t.day <= YearLength(t.year)
  {
    hide DaysBeforeMonth, MonthLength;
    MonthsGrow(t.year, t.month, 13);
    DaysBeforeMonthTable(t.year);
  }

  /** The second count respects the order of valid dates and times. */
  lemma EpochSecondIncreases(t: DateTime, u: DateTime)
    requires Valid(t) && Valid(u) && Earlier(t, u)
    ensures EpochSecond(t) < EpochSecond(u)
  {
    hide DaysBeforeYear, DaysBeforeMonth, MonthLength, YearLength;
    if t.year < u.year {
      YearsGrow(t.year, u.year);
      DayWithinYear(t);
    } else if t.month < u.month {
      MonthsGrow(t.year, t.month, u.month);
    }
  }

  lemma Trichotomy(t: DateTime, u: DateTime)
    ensures Earlier(t, u) || Earlier(u, t) || t == u
  {
  }

  /** Dates and times are in the order of their second counts. */
  lemma OrderIsExact(t: DateTime, u: DateTime)
    requires Valid(t) && Valid(u)
    ensures Earlier(t, u) <==> EpochSecond(t) < EpochSecond(u)
  {
    hide Earlier, EpochSecond, Valid;
    Trichotomy(t, u);
    if Earlier(t, u) {
      EpochSecondIncreases(t, u);
    } else if Earlier(u, t) {
      EpochSecondIncreases(u, t);
    }
  }

  /** Later seconds give strictly later dates and times. */
  lemma ExactIncreases(s: nat, t: nat, e: DateTime, f: DateTime)
    requires IsExact(s, e) && IsExact(t, f)
    ensures s < t <==> Earlier(e, f)
  {
    hide Earlier, EpochSecond, Valid;
    OrderIsExact(e, f);
  }

  /** There is only one valid date and time with a given second count. */
  lemma OnlyExact(secs: nat, t: DateTime)
    requires IsExact(secs, t)
    ensures forall e :: IsExact(secs, e) ==> e == t
  {
    hide Earlier, EpochSecond, Valid;
    forall e | IsExact(secs, e) ensures e == t {
      Trichotomy(e, t);
      OrderIsExact(e, t);
      OrderIsExact(t, e);
    }
  }

  lemma CutExactIff(secs: nat, x: DateTime)
    requires IsExact(secs, x)
    ensures forall e :: IsExact(secs, e) ==> (IsExact(secs, Cut(x)) <==> e.year < U32_LIMIT)
  {
    hide EpochSecond;
    OnlyExact(secs, x);
    CutIff(x);
  }

  /** Where it is right, the program's result is strictly increasing. */
  lemma ToDateTimeIncreases(s: nat, t: nat)
    requires s < t && IsExact(s, ToDateTime(s)) && IsExact(t, ToDateTime(t))
    ensures Earlier(ToDateTime(s), ToDateTime(t))
  {
    hide ToDateTime, EpochSecond, Valid, Earlier;
    ExactIncreases(s, t, ToDateTime(s), ToDateTime(t));
  }

  lemma FailsFrom(first: nat, s: nat)
    requires IsExact(first, DateTime(0x1_0000_0000, 1, 1, 0, 0, 0))
    ensures s < first ==> IsExact(s, ToDateTime(s))
    ensures s == first ==> ToDateTime(s) == DateTime(0, 1, 1, 0, 0, 0)
  {
    hide EpochSecond, MarchDate, DateOf;
    var e := DateTime(0x1_0000_0000, 1, 1, 0, 0, 0);
    var f := Exact(s);
    ExactIncreases(s, first, f, e);
    OnlyExact(s, f);
    assert ToDateTime(s) == Cut(f);
  }

  /** The first second that fails, the start of year 2^32: its year comes out as 0. */
  lemma FirstFailingSecond(s: nat)
    ensures s == 135536014634284800 ==> ToDateTime(s).year == 0
    ensures s < 135536014634284800 ==> IsExact(s, ToDateTime(s))
  {
    hide ToDateTime, IsExact;
    StartOfFailingYear();
    FailsFrom(135536014634284800, s);
  }

  lemma StartOfFailingYear()
    ensures IsExact(135536014634284800, DateTime(0x1_0000_0000, 1, 1, 0, 0, 0))
  {
    hide DaysBeforeYear;
    DaysBeforeYearClosed(0x1_0000_0000);
  }

  /** A timestamp column holds `i64` milliseconds, and none of these has a year past 32 bits. */
  lemma MillisecondsFit(ms: nat, e: DateTime)
    requires ms <= I64_MAX && IsExact(ms / 1000, e)
    ensures e.year < U32_LIMIT
  {
    YearAtMost(e);
  }

  lemma YearAtMost(t: DateTime)
    requires Valid(t)
    ensures 86400 * 365 * (t.year - 1970) <= EpochSecond(t)
  {
    hide DaysBeforeMonth, MonthLength;
    DaysAtLeast(t.year);
  }

  lemma {:induction false} DaysAtLeast(y: nat)
    requires y >= 1970
    ensures DaysBeforeYear(y) >= 365 * (y - 1970)
  {
    if y > 1970 {
      DaysAtLeast(y - 1);
    }
  }
}
