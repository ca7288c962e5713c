/**
 Days since 1970-01-01 to Gregorian dates.

 The source computes the date in one pass over `u64` values, without a loop. It is proved
 against a calendar that only knows how to move to the next day, and against an independent
 count of the days before a date. Arithmetic is on a 64-bit newtype, so every subtraction is
 checked not to underflow; the one addition that can overflow wraps, as in a release build.
 */
module Calendar {
  import opened MachineIntegers

  datatype Date = Date(year: nat, month: nat, day: nat)

  // Days from 0000-03-01 to 1970-01-01.
  const EPOCH_SHIFT: int := 719468

  // The largest day count for which the initial addition does not overflow.
  const MAX_DAYS: int := TWO_TO_THE_64 - 1 - EPOCH_SHIFT

  // Days in 400 Gregorian years.
  const DAYS_PER_ERA: int := 146097

  // ------------------------------------------------------------------ the naive calendar

  predicate IsLeap(y: nat) {
    y % 4 == 0 && (y % 100 != 0 || y % 400 == 0)
  }

  function DaysInMonth(y: nat, m: nat): nat {
    if m == 2 then (if IsLeap(y) then 29 else 28)
    else if m == 4 || m == 6 || m == 9 || m == 11 then 30
    else 31
  }

  predicate ValidDate(date: Date) {
    1 <= date.month <= 12 && 1 <= date.day <= DaysInMonth(date.year, date.month)
  }

  function NextDay(date: Date): Date {
    if date.day < DaysInMonth(date.year, date.month) then date.(day := date.day + 1)
    else if date.month < 12 then Date(date.year, date.month + 1, 1)
    else Date(date.year + 1, 1, 1)
  }

  // The date reached from 1970-01-01 by moving to the next day `n` times.
  function NthDay(n: nat): Date {
    if n == 0 then Date(1970, 1, 1) else NextDay(NthDay(n - 1))
  }

  predicate Earlier(a: Date, b: Date) {
    || a.year < b.year
    || (a.year == b.year && a.month < b.month)
    || (a.year == b.year && a.month == b.month && a.day < b.day)
  }

  // ------------------------------------------------------------------ counting days

  function YearLength(y: nat): nat {
    if IsLeap(y) then 366 else 365
  }

  function DaysBeforeYear(y: nat): nat
    requires 1970 <= y
  {
    if y == 1970 then 0 else DaysBeforeYear(y - 1) + YearLength(y - 1)
  }

  function DaysBeforeMonth(y: nat, m: nat): nat
    requires 1 <= m
  {
    if m == 1 then 0 else DaysBeforeMonth(y, m - 1) + DaysInMonth(y, m - 1)
  }

  function DaysFromDate(date: Date): nat
    requires ValidDate(date) && 1970 <= date.year
  {
    DaysBeforeYear(date.year) + DaysBeforeMonth(date.year, date.month) + date.day - 1
  }

  // ------------------------------------------------------------------ arithmetic of the fast form

  lemma Quotient(x: int, k: int, q: int, r: int)
    requires 0 < k && 0 <= r < k && x == k * q + r
    ensures x / k == q && x % k == r
  {
    var d := x / k - q;
    assert k * d == r - x % k;
    assert d >= 1 ==> k * d >= k;
    assert d <= -1 ==> k * d <= -k;
  }

  lemma NextQuotient(x: int, k: int)
    requires 1 < k
    ensures (x + 1) / k == x / k + (if (x + 1) % k == 0 then 1 else 0)
  {
    if x % k == k - 1 {
      Quotient(x + 1, k, x / k + 1, 0);
    } else {
      Quotient(x + 1, k, x / k, x % k + 1);
    }
  }

  // Days from the first of March of year 0 of an era to the first of March of year `y` of it.
  function MarchYearStart(y: int): int {
    365 * y + y / 4 - y / 100
  }

  // Days from 0000-03-01 to the first of March of year `y`.
  function MarchDays(y: nat): int {
    MarchYearStart(y) + y / 400
  }

  // Year within a century, `r` days into century `c` of an era.
  lemma YearOfCentury(c: int, r: int)
    requires 0 <= c <= 3 && 0 <= r < 36524
    ensures var y := (r - (24 * c + r) / 1460) / 365;
            0 <= y <= 99 && 365 * y + y / 4 <= r < 365 * (y + 1) + (y + 1) / 4
  {
    var q := (24 * c + r) / 1460;
    var y := (r - q) / 365;
    var k, j := y / 4, y % 4;
    assert 0 <= q <= 25 && 0 <= r - q - 365 * y < 365;
    assert y == 4 * k + j && 0 <= j < 4;
  }

  lemma CenturyStart(c: int, y: int)
    requires 0 <= c && 0 <= y <= 100
    ensures MarchYearStart(100 * c + y) == 36524 * c + 365 * y + y / 4 - (if y == 100 then 1 else 0)
  {
    assert (100 * c + y) / 4 == 25 * c + y / 4;
    assert (100 * c + y) / 100 == c + (if y == 100 then 1 else 0);
  }

  // The corrections of the one-division formula for the year of an era, century by century.
  lemma CenturyOfEra(doe: int, c: int, r: int, y: int)
    requires 0 <= c <= 3 && 0 <= r < 36524 && doe == 36524 * c + r
    requires y == (r - (24 * c + r) / 1460) / 365
    ensures (doe - doe / 1460 + doe / 36524 - doe / 146096) / 365 == 100 * c + y
  {
    var q := (24 * c + r) / 1460;
    Quotient(doe, 1460, 25 * c + q, 24 * c + r - 1460 * q);
    Quotient(doe, 146096, 0, doe);
    Quotient(doe, 36524, c, r);
    Quotient(36500 * c + (r - q), 365, 100 * c + y, r - q - 365 * y);
  }

  lemma YearOfEra(doe: int, yoe: int)
    requires 0 <= doe < DAYS_PER_ERA
    requires yoe == (doe - doe / 1460 + doe / 36524 - doe / 146096) / 365
    ensures 0 <= yoe < 400
    ensures MarchYearStart(yoe) <= doe < MarchYearStart(yoe + 1) + (if yoe == 399 then 1 else 0)
  {
    if doe < 146096 {
      var c := doe / 36524;
      var r := doe - 36524 * c;
      var y := (r - (24 * c + r) / 1460) / 365;
      YearOfCentury(c, r);
      CenturyOfEra(doe, c, r, y);
      assert yoe == 100 * c + y && yoe + 1 == 100 * c + (y + 1);
      CenturyStart(c, y);
      CenturyStart(c, y + 1);
    }
  }

  lemma MarchMonth(doy: int)
    requires 0 <= doy <= 365
    ensures var mp := (5 * doy + 2) / 153;
            && 0 <= mp <= 11
            && (153 * mp + 2) / 5 <= doy
            && doy < (153 * (mp + 1) + 2) / 5
  {
  }

  // The number of the year that began on the last first of March.
  function MarchYear(date: Date): int {
    if date.month <= 2 then date.year - 1 else date.year
  }

  // Days from the first of March to the first of month `m`.
  function MarchMonthStart(m: nat): int {
    var mp := if m <= 2 then m + 9 else m - 3;
    (153 * mp + 2) / 5
  }

  lemma LeapYearsRepeat(y: nat, era: nat)
    ensures IsLeap(y + 400 * era) == IsLeap(y)
  {
    Quotient(y + 400 * era, 4, 100 * era + y / 4, y % 4);
    Quotient(y + 400 * era, 100, 4 * era + y / 100, y % 100);
    Quotient(y + 400 * era, 400, era + y / 400, y % 400);
  }

  lemma MarchYearLength(yoe: nat, era: nat)
    requires yoe < 400
    ensures MarchYearStart(yoe + 1) + (if yoe == 399 then 1 else 0)
         == MarchYearStart(yoe) + YearLength(yoe + era * 400 + 1)
  {
    var c, i := yoe / 100, yoe % 100;
    assert yoe == 100 * c + i;
    assert (yoe + 1) / 100 == if i == 99 then c + 1 else c;
    LeapYearsRepeat(yoe + 1, era);
    assert yoe + era * 400 + 1 == yoe + 1 + 400 * era;
  }

  // Month `mp`, counted from March, of a year that ends with February of year `y + 1`.
  lemma DayOfMonth(doy: int, y: nat)
    requires 0 <= doy < YearLength(y + 1)
    ensures var mp := (5 * doy + 2) / 153;
            var m := if mp < 10 then mp + 3 else mp - 9;
            && 1 <= m <= 12
            && (153 * mp + 2) / 5 <= doy
            && doy - (153 * mp + 2) / 5 < DaysInMonth(if m <= 2 then y + 1 else y, m)
  {
    MarchMonth(doy);
  }

  lemma EraStart(yoe: nat, era: nat)
    requires yoe < 400
    ensures MarchDays(yoe + era * 400) == era * DAYS_PER_ERA + MarchYearStart(yoe)
  {
    var y := yoe + era * 400;
    assert y / 4 == yoe / 4 + era * 100;
    assert y / 100 == yoe / 100 + era * 4;
    assert y / 400 == era;
  }

  // ------------------------------------------------------------------ the source's algorithm

  // The last steps: the date of day `doy` of the year that begins on the first of March of `y`.
  function MarchDate(y: u64, doy: u64): (date: Date)
    requires y < 0xffff_ffff_ffff_ffff && doy as int < YearLength(y as nat + 1)
    ensures ValidDate(date) && MarchYear(date) == y as int
    ensures MarchMonthStart(date.month) + date.day - 1 == doy as int
  {
    MarchMonth(doy as int);
    DayOfMonth(doy as int, y as nat);
    var mp := (5 * doy + 2) / 153;
    var d := doy - (153 * mp + 2) / 5 + 1;
    var m := if mp < 10 then mp + 3 else mp - 9;
    var y' := if m <= 2 then y + 1 else y;
    Date(y' as nat, m as nat, d as nat)
  }

  // The rest of the algorithm: the date that is `z` days after 0000-03-01.
  function CivilDate(z: u64): (date: Date)
    ensures ValidDate(date) && 0 <= MarchYear(date)
    ensures z as int == MarchDays(MarchYear(date)) + MarchMonthStart(date.month) + date.day - 1
  {
    var era := z / 146097;
    var doe := z - era * 146097;
    var yoe := (doe - doe / 1460 + doe / 36524 - doe / 146096) / 365;
    YearOfEra(doe as int, yoe as int);
    var y := yoe + era * 400;
    var doy := doe - (365 * yoe + yoe / 4 - yoe / 100);
    MarchYearLength(yoe as nat, era as nat);
    EraStart(yoe as nat, era as nat);
    MarchDate(y, doy)
  }

  function DaysToYmd(days: u64): Date {
    var z := WrappingAdd64(days, 719468);
    CivilDate(z)
  }

  // ------------------------------------------------------------------ the count of days is a calendar

  lemma {:induction false} YearsInOrder(y: nat, y': nat)
    requires 1970 <= y <= y'
    ensures DaysBeforeYear(y) + (if y < y' then YearLength(y) else 0) <= DaysBeforeYear(y')
  {
    if y == y' {
    } else {
      YearsInOrder(y, y' - 1);
    }
  }

  lemma {:induction false} MonthsInOrder(y: nat, m: nat, m': nat)
    requires 1 <= m <= m' <= 13
    ensures DaysBeforeMonth(y, m) + (if m < m' then DaysInMonth(y, m) else 0) <= DaysBeforeMonth(y, m')
  {
    if m == m' {
    } else {
      MonthsInOrder(y, m, m' - 1);
    }
  }

  lemma {:induction false} MonthStart(y: nat, m: nat)
    requires 1 <= m <= 12
    ensures DaysBeforeMonth(y, m) + 306 == MarchMonthStart(m) + (if m <= 2 then 0 else YearLength(y))
  {
    if m == 1 {
    } else {
      MonthStart(y, m - 1);
    }
  }

  lemma MonthsFillYear(y: nat)
    ensures DaysBeforeMonth(y, 13) == YearLength(y)
  {
    MonthStart(y, 12);
  }

  // An earlier date has fewer days before it.
  lemma DaysFromDateMonotone(a: Date, b: Date)
    requires ValidDate(a) && ValidDate(b) && 1970 <= a.year && 1970 <= b.year
    requires Earlier(a, b)
    ensures DaysFromDate(a) < DaysFromDate(b)
  {
    if a.year < b.year {
      YearsInOrder(a.year, b.year);
      MonthsInOrder(a.year, a.month, 13);
      MonthsFillYear(a.year);
    } else if a.month < b.month {
      MonthsInOrder(a.year, a.month, b.month);
    }
  }

  lemma DaysFromDateInjective(a: Date, b: Date)
    requires ValidDate(a) && ValidDate(b) && 1970 <= a.year && 1970 <= b.year
    requires DaysFromDate(a) == DaysFromDate(b)
    ensures a == b
  {
    if Earlier(a, b) {
      DaysFromDateMonotone(a, b);
    } else if Earlier(b, a) {
      DaysFromDateMonotone(b, a);
    }
  }

  // Moving to the next day counts one more day.
  lemma NextDayCounts(date: Date)
    requires ValidDate(date) && 1970 <= date.year
    ensures ValidDate(NextDay(date)) && 1970 <= NextDay(date).year
    ensures DaysFromDate(NextDay(date)) == DaysFromDate(date) + 1
  {
    if date.month == 12 {
      MonthsFillYear(date.year);
    }
  }

  lemma {:induction false} NthDayCounts(n: nat)
    ensures ValidDate(NthDay(n)) && 1970 <= NthDay(n).year
    ensures DaysFromDate(NthDay(n)) == n
  {
    if n == 0 {
    } else {
      NthDayCounts(n - 1);
      NextDayCounts(NthDay(n - 1));
    }
  }

  lemma MarchYearStep(y: nat)
    ensures MarchDays(y + 1) == MarchDays(y) + YearLength(y + 1)
  {
    var x := y + 1;
    NextQuotient(y, 4);
    NextQuotient(y, 100);
    NextQuotient(y, 400);
    if x % 100 == 0 {
      Quotient(x, 4, 25 * (x / 100), 0);
    }
    if x % 400 == 0 {
      Quotient(x, 100, 4 * (x / 400), 0);
    }
  }

  lemma {:induction false} JanuaryFirst(y: nat)
    requires 1970 <= y
    ensures DaysBeforeYear(y) + EPOCH_SHIFT == MarchDays(y - 1) + 306
  {
    if y == 1970 {
    } else {
      JanuaryFirst(y - 1);
      MarchYearStep(y - 2);
    }
  }

  // The naive count of days has a closed form in March-based years.
  lemma DaysFromDateClosedForm(date: Date)
    requires ValidDate(date) && 1970 <= date.year
    ensures DaysFromDate(date) + EPOCH_SHIFT
         == MarchDays(MarchYear(date)) + MarchMonthStart(date.month) + date.day - 1
  {
    JanuaryFirst(date.year);
    MonthStart(date.year, date.month);
    MarchYearStep(date.year - 1);
  }

  // ------------------------------------------------------------------ main results

  lemma BeforeEpoch(date: Date)
    requires ValidDate(date) && 0 <= MarchYear(date)
    requires date.year < 1970
    ensures MarchDays(MarchYear(date)) + MarchMonthStart(date.month) + date.day - 1 < EPOCH_SHIFT
  {
    var y := MarchYear(date);
    assert y <= 1968 || (y == 1969 && date.month > 2);
  }

  // Wherever the initial addition does not overflow, the date has exactly `days` days before it.
  lemma DaysToYmdInverse(days: u64)
    requires days as int <= MAX_DAYS
    ensures ValidDate(DaysToYmd(days)) && 1970 <= DaysToYmd(days).year
    ensures DaysFromDate(DaysToYmd(days)) == days as int
  {
    var date := DaysToYmd(days);
    if date.year < 1970 {
      BeforeEpoch(date);
    } else {
      DaysFromDateClosedForm(date);
    }
  }

  // The fast form is the naive calendar exactly on the day counts whose initial addition does not
  // overflow: past them the wrapped sum is a date before 1970.
  lemma DaysToYmdIsNaive(days: u64)
    ensures DaysToYmd(days) == NthDay(days as nat) <==> days as int <= MAX_DAYS
  {
    NthDayCounts(days as nat);
    if days as int <= MAX_DAYS {
      DaysToYmdInverse(days);
      DaysFromDateInjective(DaysToYmd(days), NthDay(days as nat));
    } else {
      var date := DaysToYmd(days);
      if 1970 <= date.year {
        DaysFromDateClosedForm(date);
      }
    }
  }

  // The other half of the bijection: every valid date from 1970-01-01 on, up to the overflow
  // limit, is the result for its own day count.
  lemma DaysFromDateInverse(date: Date)
    requires ValidDate(date) && 1970 <= date.year
    requires DaysFromDate(date) <= MAX_DAYS
    ensures DaysToYmd(DaysFromDate(date) as u64) == date
  {
    DaysToYmdInverse(DaysFromDate(date) as u64);
    DaysFromDateInjective(DaysToYmd(DaysFromDate(date) as u64), date);
  }

  lemma DaysToYmdMonotone(a: u64, b: u64)
    requires a as int <= MAX_DAYS && b as int <= MAX_DAYS
    ensures a < b <==> Earlier(DaysToYmd(a), DaysToYmd(b))
  {
    DaysToYmdInverse(a);
    DaysToYmdInverse(b);
    if a < b {
      if Earlier(DaysToYmd(b), DaysToYmd(a)) {
        DaysFromDateMonotone(DaysToYmd(b), DaysToYmd(a));
      }
    } else if Earlier(DaysToYmd(a), DaysToYmd(b)) {
      DaysFromDateMonotone(DaysToYmd(a), DaysToYmd(b));
    }
  }

  lemma EraLater(y: nat)
    ensures MarchDays(y + 400) == MarchDays(y) + DAYS_PER_ERA
  {
    assert (y + 400) / 4 == y / 4 + 100;
    assert (y + 400) / 100 == y / 100 + 4;
    assert (y + 400) / 400 == y / 400 + 1;
  }

  lemma DaysLater(date: Date)
    requires ValidDate(date) && 1970 <= date.year
    ensures ValidDate(date.(year := date.year + 400))
    ensures DaysFromDate(date.(year := date.year + 400)) == DaysFromDate(date) + DAYS_PER_ERA
  {
    LeapYearsRepeat(date.year, 1);
    DaysFromDateClosedForm(date);
    DaysFromDateClosedForm(date.(year := date.year + 400));
    EraLater(MarchYear(date));
  }

  // 146097 days later is the same day of the same month, 400 years later.
  lemma DaysToYmdPeriodic(days: u64, later: u64)
    requires days as int + DAYS_PER_ERA == later as int <= MAX_DAYS
    ensures var date := DaysToYmd(days);
            DaysToYmd(later) == date.(year := date.year + 400)
  {
    DaysToYmdInverse(days);
    DaysToYmdInverse(later);
    var date := DaysToYmd(days);
    DaysLater(date);
    DaysFromDateInjective(DaysToYmd(later), date.(year := date.year + 400));
  }
}
