/** The proleptic Gregorian calendar of src/time.rs: the two checked-arithmetic conversions
    between a civil date and days since 1970-01-01, and the naive calendar they refine. */
module Calendar {
  import opened Wrappers
  import opened CheckedInt

  datatype Civil = Civil(year: int, month: int, day: int)

  // ---- The calendar's own definition: month lengths and leap years ----

  predicate IsLeapYear(y: int) {
    (y % 4 == 0 && y % 100 != 0) || y % 400 == 0
  }

  function DaysInMonth(y: int, m: int): nat {
    if m in {1, 3, 5, 7, 8, 10, 12} then 31
    else if m in {4, 6, 9, 11} then 30
    else if m == 2 then (if IsLeapYear(y) then 29 else 28)
    else 0
  }

  predicate ValidDate(c: Civil) {
    1 <= c.month <= 12 && 1 <= c.day <= DaysInMonth(c.year, c.month)
  }

  // ---- The code under verification, its long expressions split where the source names a value ----

  /** Both conversions divide into eras the same way, with the `era_base` correction. */
  function CheckedEra(y: int, n: int): Option<int>
    requires n > 0
  {
    var base :- if y >= 0 then Some(y) else CheckedSub(y, n - 1);
    CheckedDiv(base, n)
  }

  function CheckedDayOfYear(mShifted: int, d: int): Option<int> {
    var a :- CheckedMul(153, mShifted);
    var a :- CheckedAdd(a, 2);
    var a :- CheckedDiv(a, 5);
    var a :- CheckedAdd(a, d);
    CheckedSub(a, 1)
  }

  /** Days in the years of the era before `yoe`. */
  function CheckedYearDays(yoe: int): Option<int> {
    var a :- CheckedMul(yoe, 365);
    var q4 :- CheckedDiv(yoe, 4);
    var a :- CheckedAdd(a, q4);
    var q100 :- CheckedDiv(yoe, 100);
    CheckedSub(a, q100)
  }

  function DaysFromCivil(y: i64, m: i64, d: i64): Option<int> {
    if !(1 <= m <= 12) then None
    else if d < 1 || d > DaysInMonth(y, m) then None
    else
      var y :- if m <= 2 then CheckedSub(y, 1) else Some(y);
      var era :- CheckedEra(y, 400);
      var eraYears :- CheckedMul(era, 400);
      var yoe :- CheckedSub(y, eraYears);
      var mShifted :- if m > 2 then CheckedSub(m, 3) else CheckedAdd(m, 9);
      var doy :- CheckedDayOfYear(mShifted, d);
      var yearDays :- CheckedYearDays(yoe);
      var doe :- CheckedAdd(yearDays, doy);
      var eraDays :- CheckedMul(era, 146_097);
      var total :- CheckedAdd(eraDays, doe);
      CheckedSub(total, 719_468)
  }

  function CheckedYearOfEra(doe: int): Option<int> {
    var q1460 :- CheckedDiv(doe, 1460);
    var a :- CheckedSub(doe, q1460);
    var q36524 :- CheckedDiv(doe, 36_524);
    var a :- CheckedAdd(a, q36524);
    var q146096 :- CheckedDiv(doe, 146_096);
    var a :- CheckedSub(a, q146096);
    CheckedDiv(a, 365)
  }

  /** The month, counted from March, and the day of the month. */
  function CheckedMonthAndDay(doy: int): Option<(int, int)> {
    var a :- CheckedMul(5, doy);
    var a :- CheckedAdd(a, 2);
    var mp :- CheckedDiv(a, 153);
    var b :- CheckedMul(153, mp);
    var b :- CheckedAdd(b, 2);
    var mpTerm :- CheckedDiv(b, 5);
    var c :- CheckedSub(doy, mpTerm);
    var d :- CheckedAdd(c, 1);
    Some((mp, d))
  }

  /** `None` stands for the overflow error. */
  function CivilFromDays(z: i64): Option<Civil> {
    var z :- CheckedAdd(z, 719_468);
    var era :- CheckedEra(z, 146_097);
    var eraDays :- CheckedMul(era, 146_097);
    var doe :- CheckedSub(z, eraDays);
    var yoe :- CheckedYearOfEra(doe);
    var eraYears :- CheckedMul(era, 400);
    var yBase :- CheckedAdd(yoe, eraYears);
    var leapCorrection :- CheckedYearDays(yoe);
    var doy :- CheckedSub(doe, leapCorrection);
    var (mp, d) :- CheckedMonthAndDay(doy);
    var m :- if mp < 10 then CheckedAdd(mp, 3) else CheckedSub(mp, 9);
    if !(0 <= d <= U32_MAX) || !(0 <= m <= U32_MAX) then None
    else
      var y :- if m <= 2 then CheckedAdd(yBase, 1) else Some(yBase);
      if IsI32(y) then Some(Civil(y, m, d)) else None
  }

  // ---- The naive calendar ----

  /** Days in the months of year `y` before month `m`, counted one month at a time. */
  function DaysBeforeMonth(y: int, m: int): nat
    requires 1 <= m <= 13
  {
    if m == 1 then 0 else DaysBeforeMonth(y, m - 1) + DaysInMonth(y, m - 1)
  }

  /** Days from 1970-01-01 to January 1 of `y`, counted one year at a time. */
  function DaysBeforeYear(y: int): int
    decreases if y >= 1970 then y - 1970 else 1970 - y
  {
    if y == 1970 then 0
    else if y > 1970 then DaysBeforeYear(y - 1) + DaysBeforeMonth(y - 1, 13)
    else DaysBeforeYear(y + 1) - DaysBeforeMonth(y, 13)
  }

  function CalendarDay(c: Civil): int
    requires ValidDate(c)
  {
    DaysBeforeYear(c.year) + DaysBeforeMonth(c.year, c.month) + c.day - 1
  }

  function NextDate(c: Civil): Civil
    requires ValidDate(c)
  {
    if c.day < DaysInMonth(c.year, c.month) then c.(day := c.day + 1)
    else if c.month < 12 then Civil(c.year, c.month + 1, 1)
    else Civil(c.year + 1, 1, 1)
  }

  predicate Before(a: Civil, b: Civil) {
    a.year < b.year
    || (a.year == b.year && a.month < b.month)
    || (a.year == b.year && a.month == b.month && a.day < b.day)
  }

  // ---- Closed forms ----

  lemma YearLength(y: int)
    ensures DaysBeforeMonth(y, 13) == if IsLeapYear(y) then 366 else 365
  {
    MonthTable(y, 13);
  }

  lemma MonthTable(y: int, m: int)
    requires 1 <= m <= 13
    ensures var leap := if IsLeapYear(y) then 1 else 0;
            DaysBeforeMonth(y, m) == [0, 31, 59, 90, 120, 151, 181, 212, 243, 273, 304, 334, 365][m - 1] + if m > 2 then leap else 0
  {
    if m > 1 { MonthTable(y, m - 1); }
  }

  /** Days from 1970-01-01 to January 1 of `y` by the Gregorian leap rule. */
  function GregorianYearStart(y: int): int {
    365 * (y - 1) + (y - 1) / 4 - (y - 1) / 100 + (y - 1) / 400 - 719_162
  }

  lemma GregorianStep(y: int)
    ensures GregorianYearStart(y + 1) - GregorianYearStart(y) == if IsLeapYear(y) then 366 else 365
  {
    assert y / 4 - (y - 1) / 4 == if y % 4 == 0 then 1 else 0;
    assert y / 100 - (y - 1) / 100 == if y % 100 == 0 then 1 else 0;
    assert y / 400 - (y - 1) / 400 == if y % 400 == 0 then 1 else 0;
  }

  lemma {:induction false} YearStartClosedForm(y: int)
    ensures DaysBeforeYear(y) == GregorianYearStart(y)
    decreases if y >= 1970 then y - 1970 else 1970 - y
  {
    if y > 1970 {
      YearStartClosedForm(y - 1);
      GregorianStep(y - 1);
      YearLength(y - 1);
    } else if y < 1970 {
      YearStartClosedForm(y + 1);
      GregorianStep(y);
      YearLength(y);
    }
  }

  // ---- Eras: 400 years of 146097 days, starting on March 1 ----

  /** Days before year-of-era `yoe` within an era. */
  function EraYearStart(yoe: int): int { 365 * yoe + yoe / 4 - yoe / 100 }

  /** Days before month `mp` (0 is March) within a year that starts in March. */
  function MarchMonthStart(mp: int): int { (153 * mp + 2) / 5 }

  /** A date counted from March 1 of year 0. */
  datatype EraDate = EraDate(era: int, yoe: int, mp: int, day: int)

  function ToEra(c: Civil): EraDate {
    var y := if c.month <= 2 then c.year - 1 else c.year;
    EraDate(y / 400, y % 400, if c.month > 2 then c.month - 3 else c.month + 9, c.day)
  }

  function DayOfYear(e: EraDate): int { MarchMonthStart(e.mp) + e.day - 1 }

  function DayOfEra(e: EraDate): int { EraYearStart(e.yoe) + DayOfYear(e) }

  function EraDay(e: EraDate): int { e.era * 146_097 + DayOfEra(e) - 719_468 }

  /** Whether the March-based year that starts in year-of-era `yoe` ends with February 29. */
  predicate EndsInLeapFebruary(yoe: int) {
    (yoe + 1) % 4 == 0 && ((yoe + 1) % 100 != 0 || yoe == 399)
  }

  lemma LeapByEra(era: int, yoe: int)
    requires 0 <= yoe < 400
    ensures IsLeapYear(400 * era + yoe + 1) <==> EndsInLeapFebruary(yoe)
  {
    var y, k := 400 * era + yoe + 1, yoe + 1;
    QuotientUnique(y, 4, 100 * era + k / 4, k % 4);
    QuotientUnique(y, 100, 4 * era + k / 100, k % 100);
    QuotientUnique(y, 400, era + k / 400, k % 400);
  }

  lemma MarchMonths(y: int, m: int)
    requires 1 <= m <= 12
    ensures m > 2 ==> DaysBeforeMonth(y, m) == DaysBeforeMonth(y, 3) + MarchMonthStart(m - 3)
    ensures m <= 2 ==> MarchMonthStart(m + 9) == 306 + DaysBeforeMonth(y, m)
  {
    MonthTable(y, m);
    MonthTable(y, 3);
  }

  /** The era arithmetic counts the same days as the naive calendar. */
  lemma EraDayIsCalendarDay(c: Civil)
    requires ValidDate(c)
    ensures EraDay(ToEra(c)) == CalendarDay(c)
  {
    var e := ToEra(c);
    var y := 400 * e.era + e.yoe;
    assert y / 4 == 100 * e.era + e.yoe / 4;
    assert y / 100 == 4 * e.era + e.yoe / 100;
    assert y / 400 == e.era;
    YearStartClosedForm(y + 1);
    MarchMonths(c.year, c.month);
    if c.month > 2 {
      YearStartClosedForm(y);
      GregorianStep(y);
      MonthTable(y, 3);
    }
  }

  lemma EraDateBounds(c: Civil)
    requires ValidDate(c)
    ensures var e := ToEra(c);
            && 0 <= e.yoe < 400 && 0 <= e.mp <= 11
            && 0 <= DayOfYear(e) <= 365
            && (DayOfYear(e) == 365 ==> EndsInLeapFebruary(e.yoe))
  {
    var e := ToEra(c);
    LeapByEra(e.era, e.yoe);
    MarchMonths(c.year, c.month);
    MonthTable(c.year, c.month);
  }

  // ---- The year-of-era formula ----

  /** Every day of an era lies in exactly one year of the era. */
  function YearOfEra(doe: int): int {
    (doe - doe / 1460 + doe / 36_524 - doe / 146_096) / 365
  }

  /** The formula recovers the year: `a` centuries, `b` leap cycles and `c` years in,
      its correction terms cancel to at most one day. */
  lemma YearOfEraCancels(a: int, b: int, c: int, doy: int)
    requires 0 <= a <= 3 && 0 <= b <= 24 && 0 <= c <= 3 && 0 <= doy <= 365
    requires doy == 365 ==> c == 3 && (b != 24 || a == 3)
    ensures var doe := 36_524 * a + 1461 * b + 365 * c + doy;
            0 <= doe < 146_097 && YearOfEra(doe) == 100 * a + 4 * b + c
  {
    var doe := 36_524 * a + 1461 * b + 365 * c + doy;
    var rest := 24 * a + b + 365 * c + doy;
    var q := if rest >= 1460 then 1 else 0;
    QuotientUnique(doe, 1460, 25 * a + b + q, rest - 1460 * q);
    var inCentury := 1461 * b + 365 * c + doy;
    if inCentury < 36_524 {
      QuotientUnique(doe, 36_524, a, inCentury);
      assert doe < 146_096;
    }
    assert doe / 36_524 - doe / 146_096 == a;
    QuotientUnique(doe - (25 * a + b + q) + a, 365, 100 * a + 4 * b + c, doy - q);
  }

  lemma EraYearStartParts(yoe: int)
    requires 0 <= yoe < 400
    ensures var a, b, c := yoe / 100, yoe % 100 / 4, yoe % 4;
            && 0 <= a <= 3 && 0 <= b <= 24 && 0 <= c <= 3 && yoe == 100 * a + 4 * b + c
            && EraYearStart(yoe) == 36_524 * a + 1461 * b + 365 * c
            && (EndsInLeapFebruary(yoe) <==> c == 3 && (b != 24 || a == 3))
  {
    var a, b, c := yoe / 100, yoe % 100 / 4, yoe % 4;
    assert yoe == 100 * a + 4 * b + c;
    QuotientUnique(yoe, 4, 25 * a + b, c);
  }

  lemma YearOfEraInverts(yoe: int, doy: int)
    requires 0 <= yoe < 400 && 0 <= doy <= 365
    requires doy == 365 ==> EndsInLeapFebruary(yoe)
    ensures YearOfEra(EraYearStart(yoe) + doy) == yoe
    ensures 0 <= EraYearStart(yoe) + doy < 146_097
  {
    EraYearStartParts(yoe);
    YearOfEraCancels(yoe / 100, yoe % 100 / 4, yoe % 4, doy);
  }

  /** Every day of an era is some day of some year of it. */
  lemma YearOfEraCovers(doe: int)
    requires 0 <= doe < 146_097
    ensures var yoe := YearOfEra(doe); var doy := doe - EraYearStart(yoe);
            && 0 <= yoe < 400 && 0 <= doy <= 365
            && (doy == 365 ==> EndsInLeapFebruary(yoe))
  {
    hide YearOfEra, EndsInLeapFebruary;
    var a := if doe / 36_524 == 4 then 3 else doe / 36_524;
    var inCentury := doe - 36_524 * a;
    var b := inCentury / 1461;
    var inCycle := inCentury - 1461 * b;
    var c := if inCycle / 365 == 4 then 3 else inCycle / 365;
    var yoe, doy := 100 * a + 4 * b + c, inCycle - 365 * c;
    assert 0 <= a <= 3 && 0 <= b <= 24 && 0 <= c <= 3;
    assert doy == 365 ==> c == 3 && (b != 24 || a == 3);
    EraYearStartOfParts(a, b, c);
    YearOfEraInverts(yoe, doy);
  }

  lemma EraYearStartOfParts(a: int, b: int, c: int)
    requires 0 <= a <= 3 && 0 <= b <= 24 && 0 <= c <= 3
    ensures var yoe := 100 * a + 4 * b + c;
            && EraYearStart(yoe) == 36_524 * a + 1461 * b + 365 * c
            && (EndsInLeapFebruary(yoe) <==> c == 3 && (b != 24 || a == 3))
  {
    var yoe := 100 * a + 4 * b + c;
    EraYearStartParts(yoe);
    QuotientUnique(yoe, 4, 25 * a + b, c);
    QuotientUnique(yoe, 100, a, 4 * b + c);
  }

  // ---- The month formula ----

  lemma MonthOfYearInverts(mp: int, day: int, doy: int)
    requires 0 <= mp <= 11 && 1 <= day <= 31
    requires mp in {1, 3, 6, 8} ==> day <= 30
    requires mp == 11 ==> day <= 29
    requires doy == MarchMonthStart(mp) + day - 1
    ensures (5 * doy + 2) / 153 == mp
  {
    if mp == 0 {} else if mp == 1 {} else if mp == 2 {} else if mp == 3 {} else if mp == 4 {}
    else if mp == 5 {} else if mp == 6 {} else if mp == 7 {} else if mp == 8 {} else if mp == 9 {}
    else if mp == 10 {} else {}
  }

  lemma MonthOfYearCovers(doy: int)
    requires 0 <= doy <= 365
    ensures var mp := (5 * doy + 2) / 153; var day := doy - MarchMonthStart(mp) + 1;
            && 0 <= mp <= 11 && 1 <= day <= 31
            && (mp in {1, 3, 6, 8} ==> day <= 30)
            && (mp == 11 ==> day <= 29 && (day == 29 ==> doy == 365))
  {
    var mp := (5 * doy + 2) / 153;
    if mp == 0 {} else if mp == 1 {} else if mp == 2 {} else if mp == 3 {} else if mp == 4 {}
    else if mp == 5 {} else if mp == 6 {} else if mp == 7 {} else if mp == 8 {} else if mp == 9 {}
    else if mp == 10 {} else {}
  }

  // ---- The checked code against the closed forms ----

  /** What `CivilFromDays` computes when nothing overflows. */
  function CivilOfDay(z: int): Civil {
    var doe := (z + 719_468) % 146_097;
    var yoe := YearOfEra(doe);
    var doy := doe - EraYearStart(yoe);
    var mp := (5 * doy + 2) / 153;
    var m := if mp < 10 then mp + 3 else mp - 9;
    var y := yoe + (z + 719_468) / 146_097 * 400;
    Civil(if m <= 2 then y + 1 else y, m, doy - MarchMonthStart(mp) + 1)
  }

  lemma CheckedEraIsFloor(y: int, n: int)
    requires n in {400, 146_097} && I64_MIN + n <= y <= I64_MAX
    ensures CheckedEra(y, n) == Some(y / n)
  {
    CorrectedTruncationIsFloor(y, n);
  }

  lemma FirstEraOverflows(y: int)
    requires I64_MIN <= y < I64_MIN + 400
    ensures var r := CheckedEra(y, 400); r.Some? ==> CheckedMul(r.value, 146_097) == None
  {
  }

  lemma DayOfYearNeverOverflows(mp: int, day: int)
    requires 0 <= mp <= 11 && 1 <= day <= 31
    ensures CheckedDayOfYear(mp, day) == Some(MarchMonthStart(mp) + day - 1)
  {
    hide CheckedDiv;
    DivFits(153 * mp + 2, 5);
  }

  lemma YearDaysSteps(yoe: int, q4: int, q100: int)
    requires 0 <= q100 <= q4 <= yoe < 400
    requires CheckedDiv(yoe, 4) == Some(q4) && CheckedDiv(yoe, 100) == Some(q100)
    ensures CheckedYearDays(yoe) == Some(365 * yoe + q4 - q100)
  {
    hide CheckedDiv;
  }

  lemma YearDaysNeverOverflow(yoe: int)
    requires 0 <= yoe < 400
    ensures CheckedYearDays(yoe) == Some(EraYearStart(yoe)) && 0 <= EraYearStart(yoe) < 146_097
  {
    hide CheckedDiv, CheckedYearDays;
    DivFits(yoe, 4);
    DivFits(yoe, 100);
    YearDaysSteps(yoe, yoe / 4, yoe / 100);
  }

  lemma YearOfEraSteps(doe: int, q1460: int, q36524: int, q146096: int, year: int)
    requires 0 <= doe < 146_097 && 0 <= q1460 <= doe && 0 <= q36524 <= doe && 0 <= q146096 <= doe
    requires CheckedDiv(doe, 1460) == Some(q1460) && CheckedDiv(doe, 36_524) == Some(q36524) && CheckedDiv(doe, 146_096) == Some(q146096)
    requires CheckedDiv(doe - q1460 + q36524 - q146096, 365) == Some(year)
    ensures CheckedYearOfEra(doe) == Some(year)
  {
    hide CheckedDiv;
  }

  lemma YearOfEraNeverOverflows(doe: int)
    requires 0 <= doe < 146_097
    ensures CheckedYearOfEra(doe) == Some(YearOfEra(doe))
  {
    hide CheckedDiv, CheckedYearOfEra;
    DivFits(doe, 1460);
    DivFits(doe, 36_524);
    DivFits(doe, 146_096);
    DivFits(doe - doe / 1460 + doe / 36_524 - doe / 146_096, 365);
    YearOfEraSteps(doe, doe / 1460, doe / 36_524, doe / 146_096, YearOfEra(doe));
  }

  lemma MonthAndDayNeverOverflow(doy: int)
    requires 0 <= doy <= 365
    ensures var mp := (5 * doy + 2) / 153;
            CheckedMonthAndDay(doy) == Some((mp, doy - MarchMonthStart(mp) + 1))
  {
    hide CheckedDiv;
    MonthOfYearCovers(doy);
    DivFits(5 * doy + 2, 153);
    DivFits(153 * ((5 * doy + 2) / 153) + 2, 5);
  }

  lemma DaysFromCivilIsEraDay(y: i64, m: i64, d: i64)
    requires ValidDate(Civil(y, m, d))
    ensures var e := ToEra(Civil(y, m, d)); var r := DaysFromCivil(y, m, d);
            && (r.Some? ==> r.value == EraDay(e))
            && (-0x10_0000_0000_0000 <= y <= 0x10_0000_0000_0000 ==> r.Some?)
  {
    hide CheckedEra, CheckedDayOfYear, CheckedYearDays, EraYearStart, MarchMonthStart, EndsInLeapFebruary;
    var e := ToEra(Civil(y, m, d));
    EraDateBounds(Civil(y, m, d));
    var y' := if m <= 2 then y - 1 else y;
    if I64_MIN + 400 <= y' {
      CheckedEraIsFloor(y', 400);
      DayOfYearNeverOverflows(e.mp, e.day);
      YearDaysNeverOverflow(e.yoe);
    } else if I64_MIN <= y' {
      FirstEraOverflows(y');
    }
  }

  /** `days_from_civil` refines the naive calendar: it answers for exactly the dates that
      exist, with the naive day count, and no year within 2^52 of zero overflows it. */
  lemma DaysFromCivilIsCalendarDay(y: i64, m: i64, d: i64)
    ensures DaysFromCivil(y, m, d).Some? ==>
              ValidDate(Civil(y, m, d)) && DaysFromCivil(y, m, d).value == CalendarDay(Civil(y, m, d))
    ensures -0x10_0000_0000_0000 <= y <= 0x10_0000_0000_0000 ==>
              (DaysFromCivil(y, m, d).Some? <==> ValidDate(Civil(y, m, d)))
  {
    if ValidDate(Civil(y, m, d)) {
      DaysFromCivilIsEraDay(y, m, d);
      EraDayIsCalendarDay(Civil(y, m, d));
    }
  }

  lemma EraDateDeterminesCivil(z: int)
    ensures var c := CivilOfDay(z);
            && ValidDate(c) && EraDay(ToEra(c)) == z
  {
    hide YearOfEra, EraYearStart, MarchMonthStart, EndsInLeapFebruary;
    var n := z + 719_468;
    var era, doe := n / 146_097, n % 146_097;
    var yoe := YearOfEra(doe);
    var doy := doe - EraYearStart(yoe);
    YearOfEraCovers(doe);
    MonthOfYearCovers(doy);
    LeapByEra(era, yoe);
    var c := CivilOfDay(z);
    var mp := (5 * doy + 2) / 153;
    var y := yoe + era * 400;
    QuotientUnique(y, 400, era, yoe);
    assert ToEra(c) == EraDate(era, yoe, mp, c.day);
  }

  lemma CivilOfDayInverts(c: Civil)
    requires ValidDate(c)
    ensures CivilOfDay(CalendarDay(c)) == c
  {
    hide YearOfEra, EraYearStart, MarchMonthStart, CalendarDay;
    var e := ToEra(c);
    EraDateBounds(c);
    EraDayIsCalendarDay(c);
    YearOfEraInverts(e.yoe, DayOfYear(e));
    QuotientUnique(EraDay(e) + 719_468, 146_097, e.era, DayOfEra(e));
    MonthOfYearInverts(e.mp, e.day, DayOfYear(e));
  }

  lemma DayOfEraConverts(doe: int)
    requires 0 <= doe < 146_097
    ensures var yoe := YearOfEra(doe); var doy := doe - EraYearStart(yoe); var mp := (5 * doy + 2) / 153;
            && CheckedYearOfEra(doe) == Some(yoe) && CheckedYearDays(yoe) == Some(EraYearStart(yoe))
            && CheckedMonthAndDay(doy) == Some((mp, doy - MarchMonthStart(mp) + 1))
            && 0 <= yoe < 400 && 0 <= doy <= 365 && 0 <= mp <= 11 && 1 <= doy - MarchMonthStart(mp) + 1 <= 31
            && 0 <= EraYearStart(yoe) < 146_097
  {
    hide CheckedYearOfEra, CheckedYearDays, CheckedMonthAndDay, YearOfEra, EraYearStart, MarchMonthStart;
    YearOfEraCovers(doe);
    var yoe := YearOfEra(doe);
    YearOfEraNeverOverflows(doe);
    YearDaysNeverOverflow(yoe);
    MonthAndDayNeverOverflow(doe - EraYearStart(yoe));
    MonthOfYearCovers(doe - EraYearStart(yoe));
  }

  lemma CivilFromDaysIsCivilOfDay(z: i64)
    ensures CivilFromDays(z) == if IsI32(CivilOfDay(z).year) then Some(CivilOfDay(z)) else None
  {
    hide CheckedEra, CheckedYearOfEra, CheckedYearDays, CheckedMonthAndDay;
    hide YearOfEra, EraYearStart, MarchMonthStart;
    var n := z + 719_468;
    DayOfEraConverts(n % 146_097);
    if n <= I64_MAX {
      CheckedEraIsFloor(n, 146_097);
    }
  }

  // ---- Main results ----

  /** Every date with an `i32` year survives the trip to a day number and back. */
  lemma CivilRoundTrip(c: Civil)
    requires ValidDate(c) && IsI32(c.year)
    ensures var days := DaysFromCivil(c.year, c.month, c.day);
            days.Some? && CivilFromDays(days.value) == Some(c)
  {
    DaysFromCivilIsCalendarDay(c.year, c.month, c.day);
    CivilOfDayInverts(c);
    CivilFromDaysIsCivilOfDay(CalendarDay(c));
  }

  /** Whatever day number converts, converts to a date that exists and maps back to it. */
  lemma DayRoundTrip(z: i64)
    ensures CivilFromDays(z).Some? ==>
              var c := CivilFromDays(z).value;
              ValidDate(c) && IsI32(c.year) && DaysFromCivil(c.year, c.month, c.day) == Some(z)
  {
    CivilFromDaysIsCivilOfDay(z);
    EraDateDeterminesCivil(z);
    var c := CivilOfDay(z);
    EraDayIsCalendarDay(c);
    if IsI32(c.year) {
      DaysFromCivilIsCalendarDay(c.year, c.month, c.day);
    }
  }

  lemma NextDateIsNextDay(c: Civil)
    requires ValidDate(c)
    ensures ValidDate(NextDate(c)) && CalendarDay(NextDate(c)) == CalendarDay(c) + 1
  {
    if c.day == DaysInMonth(c.year, c.month) && c.month == 12 {
      assert DaysBeforeMonth(c.year, 13) == DaysBeforeMonth(c.year, 12) + 31;
      if c.year < 1970 {
        assert DaysBeforeYear(c.year) == DaysBeforeYear(c.year + 1) - DaysBeforeMonth(c.year, 13);
      }
    }
  }

  /** The day count orders dates as (year, month, day) does, with no two dates on one day. */
  lemma CalendarDayIsStrictlyIncreasing(a: Civil, b: Civil)
    requires ValidDate(a) && ValidDate(b)
    ensures CalendarDay(a) < CalendarDay(b) <==> Before(a, b)
  {
    if Before(a, b) {
      EarlierDateHasSmallerDay(a, b);
    } else if Before(b, a) {
      EarlierDateHasSmallerDay(b, a);
    }
  }

  lemma DayWithinYear(c: Civil)
    requires ValidDate(c)
    ensures GregorianYearStart(c.year) <= CalendarDay(c) < GregorianYearStart(c.year + 1)
  {
    MonthTable(c.year, c.month);
    YearStartClosedForm(c.year);
    GregorianStep(c.year);
    hide GregorianYearStart, DaysBeforeYear, DaysBeforeMonth;
  }

  lemma EarlierDateHasSmallerDay(a: Civil, b: Civil)
    requires ValidDate(a) && ValidDate(b) && Before(a, b)
    ensures CalendarDay(a) < CalendarDay(b)
  {
    hide GregorianYearStart, DaysBeforeYear, DaysBeforeMonth;
    if a.year < b.year {
      hide CalendarDay;
      DayWithinYear(a);
      DayWithinYear(b);
      if a.year + 1 < b.year { YearStartsIncrease(a.year + 1, b.year); }
    } else {
      MonthTable(a.year, a.month);
      MonthTable(b.year, b.month);
    }
  }

  lemma {:induction false} YearStartsIncrease(y: int, later: int)
    requires y < later
    ensures GregorianYearStart(y) + (if IsLeapYear(y) then 366 else 365) <= GregorianYearStart(later)
    decreases later - y
  {
    GregorianStep(y);
    if y + 1 < later { YearStartsIncrease(y + 1, later); }
  }

  /** `civil_from_days` fails on exactly the day numbers whose year is not an `i32`. */
  lemma CivilFromDaysDomain(z: i64)
    ensures CivilFromDays(z).Some? <==>
              CalendarDay(Civil(I32_MIN, 1, 1)) <= z <= CalendarDay(Civil(I32_MAX, 12, 31))
  {
    var first, last := Civil(I32_MIN, 1, 1), Civil(I32_MAX, 12, 31);
    var c := CivilOfDay(z);
    CivilFromDaysIsCivilOfDay(z);
    EraDateDeterminesCivil(z);
    EraDayIsCalendarDay(c);
    CalendarDayIsStrictlyIncreasing(c, first);
    CalendarDayIsStrictlyIncreasing(last, c);
  }
}
