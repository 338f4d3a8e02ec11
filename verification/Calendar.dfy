// The timestamp calendar of the benchmark harness (examples/benchmark.rs:2967-2995): day
// numbers counted from 0000-03-01 are turned into proleptic Gregorian dates. Leap years follow
// Appendix C of RFC 3339, the calendar section 3.2.1 of ISO 8601:2004.

module Calendar {

  // ---- the calendar, day by day ----

  datatype Date = Date(year: int, month: int, day: int)

  predicate LeapYear(year: int) {
    year % 4 == 0 && (year % 100 != 0 || year % 400 == 0)
  }

  function MonthLength(leap: bool, month: int): int {
    if month == 2 then (if leap then 29 else 28)
    else if month == 4 || month == 6 || month == 9 || month == 11 then 30
    else 31
  }

  predicate ValidDate(d: Date) {
    1 <= d.month <= 12 && 1 <= d.day <= MonthLength(LeapYear(d.year), d.month)
  }

  function NextIn(leap: bool, d: Date): Date {
    if d.day < MonthLength(leap, d.month) then Date(d.year, d.month, d.day + 1)
    else if d.month < 12 then Date(d.year, d.month + 1, 1)
    else Date(d.year + 1, 1, 1)
  }

  function NextDay(d: Date): Date {
    NextIn(LeapYear(d.year), d)
  }

  // The date n days after 0000-03-01.
  function DateAfter(n: nat): Date {
    if n == 0 then Date(0, 3, 1) else NextDay(DateAfter(n - 1))
  }

  // ---- years that start on 1 March ----

  function MarchYearLength(y: int): (days: int)
    ensures days == 365 || days == 366
  {
    if LeapYear(y + 1) then 366 else 365
  }

  // Days from 0000-03-01 to 1 March of year y.
  ghost function MarchFirst(y: nat): (days: nat)
    ensures days >= y
  {
    if y == 0 then 0 else MarchFirst(y - 1) + MarchYearLength(y - 1)
  }

  lemma {:induction false} MarchFirstMonotone(y: nat, z: nat)
    requires y <= z
    ensures MarchFirst(y) <= MarchFirst(z)
    decreases z
  {
    if y < z {
      MarchFirstMonotone(y, z - 1);
    }
  }

  // g falls in the year that starts on 1 March of year y.
  ghost predicate InMarchYear(g: int, y: nat) {
    MarchFirst(y) <= g < MarchFirst(y + 1)
  }

  lemma MarchYearUnique(g: int, y: nat, z: nat)
    requires InMarchYear(g, y) && InMarchYear(g, z)
    ensures y == z
  {
    var lo, hi := if y < z then y else z, if y < z then z else y;
    if lo < hi {
      MarchFirstMonotone(lo + 1, hi);
      assert false;
    }
  }

  // ---- days within such a year ----

  // First day of month mi, counting months from March; 12 stands for the end of the year.
  function MonthStart(mi: int): int {
    if mi <= 0 then 0 else if mi == 1 then 31 else if mi == 2 then 61 else if mi == 3 then 92
    else if mi == 4 then 122 else if mi == 5 then 153 else if mi == 6 then 184 else if mi == 7 then 214
    else if mi == 8 then 245 else if mi == 9 then 275 else if mi == 10 then 306 else if mi == 11 then 337
    else 366
  }

  function MonthOf(doy: int): (mi: int)
    ensures 0 <= mi <= 11
    ensures 0 <= doy < 366 ==> MonthStart(mi) <= doy < MonthStart(mi + 1)
  {
    if doy < 31 then 0 else if doy < 61 then 1 else if doy < 92 then 2 else if doy < 122 then 3
    else if doy < 153 then 4 else if doy < 184 then 5 else if doy < 214 then 6 else if doy < 245 then 7
    else if doy < 275 then 8 else if doy < 306 then 9 else if doy < 337 then 10 else 11
  }

  // Day `doy` of the year that starts on 1 March of year y.
  function FromMarch(y: int, doy: int): Date {
    var mi := MonthOf(doy);
    Date(if mi < 10 then y else y + 1, if mi < 10 then mi + 3 else mi - 9, doy - MonthStart(mi) + 1)
  }

  // The step to the next day, for a year whose February is as long as `leap` says.
  lemma FromMarchNextIn(y: int, doy: nat, leap: bool, here: bool)
    requires doy < if leap then 366 else 365
    requires FromMarch(y, doy).year == y + 1 ==> here == leap
    ensures
      var d := FromMarch(y, doy);
      && 1 <= d.month <= 12 && 1 <= d.day <= MonthLength(here, d.month)
      && NextIn(here, d)
         == if doy + 1 < (if leap then 366 else 365) then FromMarch(y, doy + 1) else FromMarch(y + 1, 0)
  {
  }

  lemma FromMarchNext(y: int, doy: nat)
    requires doy < MarchYearLength(y)
    ensures ValidDate(FromMarch(y, doy))
    ensures NextDay(FromMarch(y, doy))
         == if doy + 1 < MarchYearLength(y) then FromMarch(y, doy + 1) else FromMarch(y + 1, 0)
  {
    FromMarchNextIn(y, doy, LeapYear(y + 1), LeapYear(FromMarch(y, doy).year));
  }

  // The calendar and the March-based year advance together.
  ghost predicate At(g: nat, y: nat) {
    InMarchYear(g, y) && DateAfter(g) == FromMarch(y, g - MarchFirst(y))
  }

  lemma NextAt(g: nat, y: nat)
    requires At(g, y)
    ensures g + 1 < MarchFirst(y + 1) ==> At(g + 1, y)
    ensures g + 1 == MarchFirst(y + 1) ==> At(g + 1, y + 1)
  {
    assert MarchFirst(y + 1) == MarchFirst(y) + MarchYearLength(y);
    FromMarchNext(y, g - MarchFirst(y));
    assert DateAfter(g + 1) == NextDay(DateAfter(g));
  }

  lemma {:induction false} DateAfterIsFromMarch(g: nat) returns (y: nat)
    ensures At(g, y)
    decreases g
  {
    if g == 0 {
      y := 0;
    } else {
      var before := DateAfterIsFromMarch(g - 1);
      NextAt(g - 1, before);
      y := if g == MarchFirst(before + 1) then before + 1 else before;
    }
  }

  lemma DateAfterIsValid(g: nat)
    ensures ValidDate(DateAfter(g))
  {
    var y := DateAfterIsFromMarch(g);
    FromMarchNext(y, g - MarchFirst(y));
  }

  // ---- the day-count formula ----

  function YearStart(y: int): int {
    365 * y + y / 4 - y / 100 + y / 400
  }

  lemma LeapStep(y: nat)
    ensures YearStart(y + 1) - YearStart(y) == MarchYearLength(y)
  {
    CountStep(y, 4);
    CountStep(y, 100);
    CountStep(y, 400);
    assert (y + 1) % 400 == 0 ==> (y + 1) % 100 == 0;
    assert (y + 1) % 100 == 0 ==> (y + 1) % 4 == 0;
  }

  lemma CountStep(y: nat, d: nat)
    requires d == 4 || d == 100 || d == 400
    ensures (y + 1) / d == y / d + if (y + 1) % d == 0 then 1 else 0
  {
  }

  // The closed formula counts the days of the March-based years.
  lemma {:induction false} YearStartCounts(y: nat)
    ensures MarchFirst(y) == YearStart(y)
    decreases y
  {
    if y > 0 {
      YearStartCounts(y - 1);
      LeapStep(y - 1);
    }
  }

  // Day number of a date: its March-based year, the months before it, and its day.
  ghost function DayNumber(d: Date): int
    requires 1 <= d.month <= 12
  {
    var y := if d.month <= 2 then d.year - 1 else d.year;
    var mi := if d.month <= 2 then d.month + 9 else d.month - 3;
    YearStart(y) + MonthStart(mi) + d.day - 1
  }

  // The formula counts the days of the calendar ...
  lemma DayNumberInverts(g: nat)
    ensures ValidDate(DateAfter(g)) && DayNumber(DateAfter(g)) == g
  {
    DateAfterIsValid(g);
    var y := DateAfterIsFromMarch(g);
    YearStartCounts(y);
  }

  lemma MarchOfDate(d: Date, leap: bool) returns (y: int, doy: nat)
    requires 1 <= d.month <= 12 && 1 <= d.day <= MonthLength(leap, d.month)
    ensures doy < (if d.month > 2 || leap then 366 else 365)
    ensures y == if d.month <= 2 then d.year - 1 else d.year
    ensures d.month > 2 ==> doy < 306
    ensures FromMarch(y, doy) == d && DayNumber(d) == YearStart(y) + doy
  {
    y := if d.month <= 2 then d.year - 1 else d.year;
    doy := MonthStart(if d.month <= 2 then d.month + 9 else d.month - 3) + d.day - 1;
  }

  lemma DateOfMarchDay(y: nat, doy: nat)
    requires doy < MarchYearLength(y)
    ensures DateAfter(MarchFirst(y) + doy) == FromMarch(y, doy)
  {
    var g := MarchFirst(y) + doy;
    assert MarchFirst(y + 1) == MarchFirst(y) + MarchYearLength(y);
    var z := DateAfterIsFromMarch(g);
    MarchYearUnique(g, y, z);
  }

  // ... and every valid date from 0000-03-01 on is the date its day number stands for.
  lemma DateOfDayNumber(d: Date)
    requires ValidDate(d) && (d.year > 0 || (d.year == 0 && d.month >= 3))
    ensures DayNumber(d) >= 0 && DateAfter(DayNumber(d)) == d
  {
    var leap := LeapYear(d.year);
    var y, doy := MarchOfDate(d, leap);
    assert d.month <= 2 ==> y + 1 == d.year;
    YearStartCounts(y);
    assert DayNumber(d) == MarchFirst(y) + doy;
    DateOfMarchDay(y, doy);
  }

  // ---- estimating the year ----

  // Ten thousand times the number of days before a year stays this close to the mean.
  lemma YearStartBounds(y: nat)
    ensures 3652425 * y - 14775 <= 10000 * YearStart(y) <= 3652425 * y + 7200
  {
    var r := y % 400;
    var c := y / 400;
    assert y == 400 * c + r;
    assert y / 4 == 100 * c + r / 4 && y / 100 == 4 * c + r / 100;
    assert 10000 * YearStart(y) - 3652425 * y == 10000 * (r / 4 - r / 100) - 2425 * r;
  }

  function Estimate(g: int, c: int): int {
    (10000 * g + c) / 3652425
  }

  // The estimate is the true year or the next one, and the sign of the day of year tells which.
  lemma EstimateAtMostOneHigh(g: nat, y: nat)
    requires InMarchYear(g, y)
    ensures Estimate(g, 14780) == y || Estimate(g, 14780) == y + 1
    ensures g - YearStart(Estimate(g, 14780)) < 0 <==> Estimate(g, 14780) == y + 1
  {
    YearStartCounts(y);
    YearStartCounts(y + 1);
    YearStartBounds(y);
    YearStartBounds(y + 1);
  }

  lemma EstimateNotLow(g: nat, y: nat, c: nat)
    requires InMarchYear(g, y) && c >= 14775
    ensures Estimate(g, c) >= y
  {
    YearStartCounts(y);
    YearStartBounds(y);
  }

  // Constants that never underestimate the year are exactly those from 14775 on.
  lemma EstimateConstant(c: nat)
    ensures (forall g: nat, y: nat :: InMarchYear(g, y) ==> Estimate(g, c) >= y) <==> c >= 14775
  {
    if c >= 14775 {
      forall g: nat, y: nat | InMarchYear(g, y) ensures Estimate(g, c) >= y {
        EstimateNotLow(g, y, c);
      }
    } else {
      YearStartCounts(303);
      YearStartCounts(304);
      assert InMarchYear(110667, 303);
      assert Estimate(110667, c) < 303;
    }
  }

  // ---- the conversion as the code computes it, in 64-bit integers ----

  type i64 = x: int | -0x8000_0000_0000_0000 <= x < 0x8000_0000_0000_0000
  type u64 = x: int | 0 <= x < 0x1_0000_0000_0000_0000

  const EPOCH: i64 := 719468

  // The month arithmetic of the code agrees with the calendar's month lengths.
  lemma MonthArithmetic(doy: nat)
    requires doy < 366
    ensures
      var mi := (100 * doy + 52) / 3060;
      mi == MonthOf(doy) && (mi * 306 + 5) / 10 == MonthStart(mi)
  {
  }

  lemma EstimateRange(g: nat)
    requires g <= 922_337_203_685_476
    ensures 0 <= Estimate(g, 14780) <= 2_525_273_492_776
  {
  }

  lemma EstimateMeaning(g: nat, y: nat)
    requires InMarchYear(g, y)
    ensures
      var e := Estimate(g, 14780);
      && (g - YearStart(e) >= 0 ==> e == y)
      && (g - YearStart(e) < 0 ==> e - 1 == y)
      && MarchFirst(y) == YearStart(y)
      && 0 <= g - YearStart(y) < MarchYearLength(y)
  {
    EstimateAtMostOneHigh(g, y);
    YearStartCounts(y);
  }

  // days_to_ymd: every intermediate value fits an i64, for every g whose scaled value does.
  method DaysToYmd(g: i64) returns (date: Date)
    requires 0 <= g <= 922_337_203_685_476
    ensures date == DateAfter(g)
  {
    var y, doy := YearAndDay(g);
    DateOfMarchDay(y, doy);
    date := MonthAndDay(y, doy);
  }

  // The estimated year, corrected at most once.
  method YearAndDay(g: i64) returns (y: i64, doy: i64)
    requires 0 <= g <= 922_337_203_685_476
    ensures 0 <= y <= 2_525_273_492_776 && 0 <= doy < MarchYearLength(y)
    ensures g == MarchFirst(y) + doy
  {
    ghost var trueYear := DateAfterIsFromMarch(g);
    EstimateMeaning(g, trueYear);
    EstimateRange(g);
    var scaled: i64 := 10000 * g;
    var shifted: i64 := scaled + 14780;
    y := shifted / 3652425;
    assert y == Estimate(g, 14780);
    doy := DayOfYear(g, y);
    if doy < 0 {
      y := y - 1;
      doy := DayOfYear(g, y);
    }
  }

  method MonthAndDay(y: i64, doy: i64) returns (date: Date)
    requires 0 <= y <= 2_525_273_492_776 && 0 <= doy < 366
    ensures date == FromMarch(y, doy)
  {
    MonthArithmetic(doy);
    var scaled: i64 := 100 * doy + 52;
    var mi: i64 := scaled / 3060;
    var month := (mi + 2) % 12 + 1;
    var year: i64 := y + (mi + 2) / 12;
    var day := doy - (mi * 306 + 5) / 10 + 1;
    date := Date(year, month, day);
  }

  // g - (365 * y + y / 4 - y / 100 + y / 400)
  method DayOfYear(g: i64, y: i64) returns (doy: i64)
    requires 0 <= g <= 922_337_203_685_476 && 0 <= y <= 2_525_273_492_776
    ensures doy == g - YearStart(y)
  {
    var days: i64 := 365 * y;
    days := days + y / 4;
    days := days - y / 100;
    days := days + y / 400;
    doy := g - days;
  }

  lemma EpochDate()
    ensures DateAfter(EPOCH) == Date(1970, 1, 1)
  {
    YearStartCounts(1969);
    assert YearStart(1969) == 719162;
    DateOfMarchDay(1969, 306);
  }

  // chrono_now after the clock has been read: the timestamp determines the seconds.
  method Timestamp(secs: u64) returns (date: Date, h: int, min: int, s: int)
    ensures ValidDate(date) && 0 <= h < 24 && 0 <= min < 60 && 0 <= s < 60
    ensures secs == (DayNumber(date) - EPOCH) * 86400 + h * 3600 + min * 60 + s
  {
    var days := secs / 86400;
    var g: i64 := days + EPOCH;
    date := DaysToYmd(g);
    DayNumberInverts(g);
    h, min, s := TimeOfDay(secs % 86400);
  }

  method TimeOfDay(t: int) returns (h: int, min: int, s: int)
    requires 0 <= t < 86400
    ensures 0 <= h < 24 && 0 <= min < 60 && 0 <= s < 60 && t == h * 3600 + min * 60 + s
  {
    h := t / 3600;
    min := t % 3600 / 60;
    s := t % 60;
  }
}
