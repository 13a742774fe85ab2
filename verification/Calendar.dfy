/**
 * FILETIME <-> SYSTEMTIME conversion (APITime.cpp).
 *
 * The conversions use closed March-based formulas.  The reference here counts
 * days plainly: sum the lengths of the years since 1601, then of the months of
 * the year, then add the day of the month.
 */
module Calendar {
  import opened Basics

  const TICKS_PER_SEC := 10000000
  const TICKS_PER_MSEC := 10000
  const SECS_PER_DAY := 86400
  const SECS_PER_HOUR := 3600
  const SECS_PER_MIN := 60
  const EPOCH_WEEKDAY := 1
  const DAYS_PER_WEEK := 7
  const DAYS_PER_QUADRICENTENNIUM := 365 * 400 + 97
  const DAYS_PER_NORMAL_QUADRENNIUM := 365 * 4 + 1
  const TICKS_PER_DAY := SECS_PER_DAY * TICKS_PER_SEC
  const INT_MAX := 0x7FFF_FFFF
  const LONGLONG_MAX := 0x7FFF_FFFF_FFFF_FFFF
  const TWO_TO_THE_64 := 0x1_0000_0000_0000_0000

  // SYSTEMTIME: eight 16-bit unsigned fields.
  type Word = Ushort
  datatype SystemTime = SystemTime(year: Word, month: Word, dayOfWeek: Word, day: Word,
                                   hour: Word, minute: Word, second: Word, milliseconds: Word)

  const MONTH_LENGTHS: seq<seq<int>> := [
    [31, 28, 31, 30, 31, 30, 31, 31, 30, 31, 30, 31],
    [31, 29, 31, 30, 31, 30, 31, 31, 30, 31, 30, 31]
  ]

  predicate IsLeapYear(year: int) {
    year % 4 == 0 && (year % 100 != 0 || year % 400 == 0)
  }

  // ---------------------------------------------------------------- plain counting

  function MonthLength(year: int, month: int): int
    requires 1 <= month <= 12
  {
    MONTH_LENGTHS[if IsLeapYear(year) then 1 else 0][month - 1]
  }

  function DaysBeforeMonth(year: int, month: int): int
    requires 1 <= month <= 13
    decreases month
  {
    if month == 1 then 0 else DaysBeforeMonth(year, month - 1) + MonthLength(year, month - 1)
  }

  function YearLength(year: int): int { if IsLeapYear(year) then 366 else 365 }

  function DaysBeforeYear(year: int): int
    requires 1601 <= year
    decreases year
  {
    if year == 1601 then 0 else DaysBeforeYear(year - 1) + YearLength(year - 1)
  }

  // Days from 1601-01-01 to the given date, counted.
  function CountDays(year: int, month: int, day: int): int
    requires 1601 <= year && 1 <= month <= 12
  {
    DaysBeforeYear(year) + DaysBeforeMonth(year, month) + day - 1
  }

  predicate IsTimeOfDay(st: SystemTime) {
    st.hour <= 23 && st.minute <= 59 && st.second <= 59 && st.milliseconds <= 999
  }

  predicate IsRealDate(st: SystemTime) {
    1601 <= st.year && 1 <= st.month <= 12 && 1 <= st.day <= MonthLength(st.year, st.month)
  }

  function MsecOfDay(st: SystemTime): int {
    ((st.hour * 60 + st.minute) * 60 + st.second) * 1000 + st.milliseconds
  }

  // st is the Gregorian UTC reading of tick count t.
  predicate Denotes(st: SystemTime, t: int) {
    && IsRealDate(st) && IsTimeOfDay(st)
    && CountDays(st.year, st.month, st.day) == t / TICKS_PER_DAY
    && MsecOfDay(st) == t % TICKS_PER_DAY / TICKS_PER_MSEC
    && st.dayOfWeek == (EPOCH_WEEKDAY + t / TICKS_PER_DAY) % DAYS_PER_WEEK
  }

  // ---------------------------------------------------------------- SystemTimeToFileTime

  // The guard.  February always uses the leap-year row of the table.
  predicate Accepted(st: SystemTime) {
    && st.milliseconds <= 999 && st.second <= 59 && st.minute <= 59 && st.hour <= 23
    && 1 <= st.month <= 12
    && 1 <= st.day <= MONTH_LENGTHS[if st.month == 2 || IsLeapYear(st.year) then 1 else 0][st.month - 1]
    && 1601 <= st.year
  }

  function FormulaMonth(st: SystemTime): int { if st.month < 3 then st.month + 13 else st.month + 1 }

  function FormulaYear(st: SystemTime): int { if st.month < 3 then st.year - 1 else st.year }

  // The day formula, on the March-based month and year.
  function YearDays(year: int): int {
    var cleaps := (3 * (year / 100) + 3) / 4;
    36525 * year / 100 - cleaps
  }

  function MonthDays(month: int): int { 1959 * month / 64 }

  function DayFormula(year: int, month: int, day: int): int {
    YearDays(year) + MonthDays(month) + day - 584817
  }

  function FormulaMsecs(st: SystemTime): int {
    (((DayFormula(FormulaYear(st), FormulaMonth(st), st.day) * 24 + st.hour) * 60 + st.minute) * 60
      + st.second) * 1000 + st.milliseconds
  }

  function FormulaTicks(st: SystemTime): int { FormulaMsecs(st) * TICKS_PER_MSEC }

  function SystemTimeToFileTime(st: SystemTime): Option<int> {
    if Accepted(st) then Some(FormulaTicks(st)) else None
  }

  // ---------------------------------------------------------------- forward direction

  // n / k grows by one exactly at the multiples of k.
  lemma DivStep(n: int, k: int)
    requires k == 4 || k == 100 || k == 400
    ensures n / k - (n - 1) / k == if n % k == 0 then 1 else 0
  {
  }

  function LeapDaysBefore(year: int): int {
    (year - 1) / 4 - (year - 1) / 100 + (year - 1) / 400
  }

  lemma LeapDaysStep(year: int)
    ensures LeapDaysBefore(year + 1) == LeapDaysBefore(year) + if IsLeapYear(year) then 1 else 0
  {
    DivStep(year, 4);
    DivStep(year, 100);
    DivStep(year, 400);
    IfOf100ThenOf4(year);
    IfOf400ThenOf100(year);
  }

  lemma IfOf100ThenOf4(n: int)
    ensures n % 100 == 0 ==> n % 4 == 0
  {
    var q, r := n / 100, n % 100;
    assert n == 4 * (25 * q) + r;
  }

  lemma IfOf400ThenOf100(n: int)
    ensures n % 400 == 0 ==> n % 100 == 0
  {
    var q, r := n / 400, n % 400;
    assert n == 100 * (4 * q) + r;
  }

  lemma {:induction false} DaysBeforeYearClosed(year: int)
    requires 1601 <= year
    ensures DaysBeforeYear(year) == 365 * (year - 1601) + LeapDaysBefore(year) - 388
    decreases year
  {
    if year == 1601 {
    } else {
      DaysBeforeYearClosed(year - 1);
      LeapDaysStep(year - 1);
    }
  }

  // The twelve month offsets, and the year length as the sum of the months.
  lemma MonthTable(year: int)
    ensures var leap := if IsLeapYear(year) then 1 else 0;
            && DaysBeforeMonth(year, 1) == 0 && DaysBeforeMonth(year, 2) == 31
            && DaysBeforeMonth(year, 3) == 59 + leap && DaysBeforeMonth(year, 4) == 90 + leap
            && DaysBeforeMonth(year, 5) == 120 + leap && DaysBeforeMonth(year, 6) == 151 + leap
            && DaysBeforeMonth(year, 7) == 181 + leap && DaysBeforeMonth(year, 8) == 212 + leap
            && DaysBeforeMonth(year, 9) == 243 + leap && DaysBeforeMonth(year, 10) == 273 + leap
            && DaysBeforeMonth(year, 11) == 304 + leap && DaysBeforeMonth(year, 12) == 334 + leap
            && DaysBeforeMonth(year, 13) == YearLength(year)
  {
  }

  // 365 days a year plus the quarter days, less the centuries that are not leap.
  lemma YearTerm(year: int)
    ensures YearDays(year) == 365 * year + LeapDaysBefore(year + 1)
  {
    assert 36525 * year == 100 * (365 * year) + 25 * year;
    assert 36525 * year / 100 == 365 * year + 25 * year / 100;
    assert 25 * year / 100 == year / 4;
    assert (3 * (year / 100) + 3) / 4 == year / 100 - year / 100 / 4;
    assert year / 100 / 4 == year / 400;
  }

  lemma MonthTerm(month: int)
    requires 4 <= month <= 15
    ensures MonthDays(month) == [122, 153, 183, 214, 244, 275, 306, 336, 367, 397, 428, 459][month - 4]
  {
  }

  // The closed form counts days, for any day of the month.
  lemma DayFormulaCounts(st: SystemTime)
    requires 1601 <= st.year && 1 <= st.month <= 12
    ensures DayFormula(FormulaYear(st), FormulaMonth(st), st.day) == CountDays(st.year, st.month, st.day)
  {
    hide IsLeapYear, YearDays, MonthDays, DaysBeforeMonth, DaysBeforeYear, LeapDaysBefore;
    DaysBeforeYearClosed(st.year);
    MonthTable(st.year);
    YearTerm(FormulaYear(st));
    MonthTerm(FormulaMonth(st));
    LeapDaysStep(st.year);
  }

  // ---------------------------------------------------------------- FileTimeToSystemTime

  // Position of a day in its March-based century: c centuries since 1600-03-01,
  // o days into it.  Only every fourth century has a day 36524.
  lemma CenturyIndex(days: nat) returns (c: nat, o: nat)
    ensures c == (4 * days + 1227) / DAYS_PER_QUADRICENTENNIUM
    ensures days + 306 + (3 * c + 3) / 4 == 36525 * c + o
    ensures o <= 36524 && (o == 36524 ==> c % 4 == 3)
  {
    c := (4 * days + 1227) / DAYS_PER_QUADRICENTENNIUM;
    assert c / 4 + (3 * c + 3) / 4 == c;
    o := days + 306 - 36524 * c - c / 4;
  }

  // Position of a day in its March-based year r of the century.
  lemma YearIndex(c: nat, o: nat) returns (r: nat)
    requires o <= 36524
    ensures r <= 99
    ensures var d := 36525 * c + o + 27882;
            var years := (20 * d - 2442) / (5 * DAYS_PER_NORMAL_QUADRENNIUM);
            && years == 76 + 100 * c + r
            && d - years * DAYS_PER_NORMAL_QUADRENNIUM / 4 == 123 + o - 1461 * r / 4
    ensures 0 <= o - 1461 * r / 4 <= 365
    ensures o - 1461 * r / 4 == 365 ==> r % 4 == 3 && (r == 99 ==> o == 36524)
  {
    r := (4 * o + 3) / 1461;
    var d := 36525 * c + o + 27882;
    assert 20 * d - 2442 == 7305 * (76 + 100 * c) + (20 * o + 18);
    assert (20 * o + 18) / 7305 == r;
    assert (76 + 100 * c + r) * 1461 == 4 * (27759 + 36525 * c) + 1461 * r;
  }

  // The year formula undoes the split into century, year and day of year.
  lemma YearDaysAt(c: nat, r: nat)
    requires r <= 99
    ensures YearDays(1600 + 100 * c + r) == 584388 + 36525 * c + 1461 * r / 4 - (3 * c + 3) / 4
  {
    var y := 1600 + 100 * c + r;
    assert y / 100 == 16 + c;
    assert 36525 * y == 100 * (584400 + 36525 * c) + 36525 * r;
    assert 36525 * r / 100 == 1461 * r / 4;
  }

  lemma MonthIndex(yearday: int)
    requires 123 <= yearday <= 488
    ensures var months := 64 * yearday / 1959;
            && 4 <= months <= 15
            && 1 <= yearday - MonthDays(months) <= [31, 30, 31, 30, 31, 31, 30, 31, 30, 31, 31, 29][months - 4]
            && (months == 15 && yearday - MonthDays(months) == 29 ==> yearday == 488)
  {
  }

  // Day n falls on the given date, and the date is a real one.
  predicate IsDate(n: int, year: int, month: int, day: int) {
    && 1601 <= year <= 60057 && 1 <= month <= 12 && 1 <= day <= MonthLength(year, month)
    && CountDays(year, month, day) == n
  }

  // Day n is day 'yearday' of the March-based year y, as the code numbers them.
  predicate IsMarchDate(n: int, y: int, yearday: int, months: int) {
    if months < 14 then IsDate(n, y, months - 1, yearday - MonthDays(months))
    else IsDate(n, y + 1, months - 13, yearday - MonthDays(months))
  }

  lemma MarchDateFromParts(n: nat, c: nat, o: nat, r: nat, q: int, months: int)
    requires n <= TWO_TO_THE_64 / TICKS_PER_DAY
    requires n + 306 + (3 * c + 3) / 4 == 36525 * c + o && r <= 99 && q == 1461 * r / 4
    requires o <= 36524 && (o == 36524 ==> c % 4 == 3)
    requires 0 <= o - q <= 365 && (o - q == 365 ==> r % 4 == 3 && (r == 99 ==> o == 36524))
    requires months == 64 * (123 + o - q) / 1959
    ensures IsMarchDate(n, 1600 + 100 * c + r, 123 + o - q, months)
  {
    var y, yearday := 1600 + 100 * c + r, 123 + o - q;
    MonthIndex(yearday);
    YearDaysAt(c, r);
    LeapAtYear(c, r);
    YearBound(n, c, o, r);
    var year := if months < 14 then y else y + 1;
    var month := if months < 14 then months - 1 else months - 13;
    var day := yearday - MonthDays(months);
    MarchMonthLength(year, months);
    assert 1 <= day <= MonthLength(year, month);
    DayFormulaCounts(SystemTime(year, month, 0, day, 0, 0, 0, 0));
    assert CountDays(year, month, day) == n;
  }

  // The date part of the conversion, for any day number.
  lemma DateOfDay(n: nat, cleaps: int, d: int, years: int, yearday: int, months: int)
    requires n <= TWO_TO_THE_64 / TICKS_PER_DAY
    requires cleaps == (3 * ((4 * n + 1227) / DAYS_PER_QUADRICENTENNIUM) + 3) / 4
    requires d == n + 28188 + cleaps
    requires years == (20 * d - 2442) / (5 * DAYS_PER_NORMAL_QUADRENNIUM)
    requires yearday == d - years * DAYS_PER_NORMAL_QUADRENNIUM / 4
    requires months == 64 * yearday / 1959
    ensures IsMarchDate(n, years + 1524, yearday, months)
  {
    var c, o := CenturyIndex(n);
    assert d == 36525 * c + o + 27882;
    var r := YearIndex(c, o);
    var q := 1461 * r / 4;
    assert yearday == 123 + o - q;
    MarchDateFromParts(n, c, o, r, q, months);
  }

  lemma YearBound(n: nat, c: nat, o: nat, r: nat)
    requires n <= TWO_TO_THE_64 / TICKS_PER_DAY
    requires n + 306 + (3 * c + 3) / 4 == 36525 * c + o && o <= 36524 && r <= 99
    requires 0 <= o - 1461 * r / 4 <= 365
    ensures 1600 + 100 * c + r <= 60056
    ensures 1600 + 100 * c + r == 1600 ==> 123 + o - 1461 * r / 4 >= 429
  {
  }

  lemma CenturyYearModulo(c: nat)
    ensures (100 * (17 + c)) % 400 == 0 <==> c % 4 == 3
  {
  }

  lemma LeapAtYear(c: nat, r: nat)
    requires r <= 99
    ensures IsLeapYear(1600 + 100 * c + r + 1) <==> r % 4 == 3 && (r == 99 ==> c % 4 == 3)
  {
    var y := 1600 + 100 * c + r + 1;
    assert y % 4 == (r + 1) % 4 by { assert y == 4 * (400 + 25 * c) + r + 1; }
    if r == 99 {
      CenturyYearModulo(c);
      assert y == 100 * (17 + c);
    } else {
      assert y % 100 == r + 1 by { assert y == 100 * (16 + c) + r + 1; }
    }
  }

  lemma MarchMonthLength(year: int, months: int)
    requires 4 <= months <= 15
    ensures MonthLength(year, if months < 14 then months - 1 else months - 13)
            == if months == 15 then (if IsLeapYear(year) then 29 else 28)
               else [31, 30, 31, 30, 31, 31, 30, 31, 30, 31, 31][months - 4]
  {
  }

  /** Reads a tick count as a UTC date and time of day. */
  method FileTimeToSystemTime(t: int) returns (st: SystemTime)
    requires 0 <= t < TWO_TO_THE_64
    ensures Denotes(st, t)
  {
    var milliseconds := t % TICKS_PER_SEC / TICKS_PER_MSEC;
    var time := t / TICKS_PER_SEC;
    var days := time / SECS_PER_DAY;
    var secondsInDay := time % SECS_PER_DAY;
    TimeOfDay(t);
    var hour, minute, second := SplitSeconds(secondsInDay);
    var dayOfWeek := (EPOCH_WEEKDAY + days) % DAYS_PER_WEEK;
    var year, month, day := SplitDays(days);
    st := SystemTime(year, month, dayOfWeek, day, hour, minute, second, milliseconds);
  }

  // The time of day within FileTimeToSystemTime.
  method SplitSeconds(seconds: int) returns (hour: Word, minute: Word, second: Word)
    requires 0 <= seconds < SECS_PER_DAY
    ensures hour <= 23 && minute <= 59 && second <= 59
    ensures (hour * 60 + minute) * 60 + second == seconds
  {
    var secondsInDay := seconds;
    hour := secondsInDay / SECS_PER_HOUR;
    secondsInDay := secondsInDay % SECS_PER_HOUR;
    minute := secondsInDay / SECS_PER_MIN;
    second := secondsInDay % SECS_PER_MIN;
  }

  // The year, month and day of the month within FileTimeToSystemTime.
  method SplitDays(n: int) returns (year: Word, month: Word, day: Word)
    requires 0 <= n <= TWO_TO_THE_64 / TICKS_PER_DAY
    ensures IsDate(n, year, month, day)
  {
    var days := n;
    var cleaps := (3 * ((4 * days + 1227) / DAYS_PER_QUADRICENTENNIUM) + 3) / 4;
    days := days + 28188 + cleaps;
    var years := (20 * days - 2442) / (5 * DAYS_PER_NORMAL_QUADRENNIUM);
    var yearday := days - years * DAYS_PER_NORMAL_QUADRENNIUM / 4;
    var months := 64 * yearday / 1959;
    DateOfDay(n, cleaps, days, years, yearday, months);
    if months < 14 {
      assert IsDate(n, years + 1524, months - 1, yearday - MonthDays(months));
      month, year := months - 1, years + 1524;
    } else {
      assert IsDate(n, years + 1525, months - 13, yearday - MonthDays(months));
      month, year := months - 13, years + 1525;
    }
    assert 0 <= yearday - 1959 * months / 64 < 0x1_0000;
    day := yearday - 1959 * months / 64;
  }

  // Dividing by the day is dividing by the second and then by the day's seconds.
  lemma TimeOfDay(t: int)
    requires 0 <= t < TWO_TO_THE_64
    ensures t / TICKS_PER_SEC / SECS_PER_DAY == t / TICKS_PER_DAY
    ensures 0 <= t / TICKS_PER_DAY <= TWO_TO_THE_64 / TICKS_PER_DAY
    ensures var sec := t / TICKS_PER_SEC % SECS_PER_DAY;
            var ms := t % TICKS_PER_SEC / TICKS_PER_MSEC;
            && 0 <= sec < SECS_PER_DAY && 0 <= ms <= 999
            && sec * 1000 + ms == t % TICKS_PER_DAY / TICKS_PER_MSEC
  {
  }

  // ---------------------------------------------------------------- order and round trips

  predicate DateBefore(a: SystemTime, b: SystemTime) {
    || a.year < b.year
    || (a.year == b.year && a.month < b.month)
    || (a.year == b.year && a.month == b.month && a.day < b.day)
  }

  predicate TimeBefore(a: SystemTime, b: SystemTime) {
    || a.hour < b.hour
    || (a.hour == b.hour && a.minute < b.minute)
    || (a.hour == b.hour && a.minute == b.minute && a.second < b.second)
    || (a.hour == b.hour && a.minute == b.minute && a.second == b.second && a.milliseconds < b.milliseconds)
  }

  // Field-by-field chronological order.
  predicate Before(a: SystemTime, b: SystemTime) {
    DateBefore(a, b) || (!DateBefore(b, a) && TimeBefore(a, b))
  }

  lemma {:induction false} YearsAddUp(y1: int, y2: int)
    requires 1601 <= y1 < y2
    ensures DaysBeforeYear(y1) + YearLength(y1) <= DaysBeforeYear(y2)
    decreases y2
  {
    if y1 + 1 < y2 {
      YearsAddUp(y1, y2 - 1);
    }
  }

  lemma {:induction false} MonthsAddUp(year: int, m1: int, m2: int)
    requires 1 <= m1 < m2 <= 13
    ensures 0 <= DaysBeforeMonth(year, m1)
    ensures DaysBeforeMonth(year, m1) + MonthLength(year, m1) <= DaysBeforeMonth(year, m2)
    decreases m2
  {
    if m1 + 1 < m2 {
      MonthsAddUp(year, m1, m2 - 1);
    } else if m1 > 1 {
      MonthsAddUp(year, m1 - 1, m1);
    }
  }

  // A day of the year lies within the year.
  lemma DayInYear(year: int, month: int, day: int)
    requires 1 <= month <= 12 && 1 <= day <= MonthLength(year, month)
    ensures 0 <= DaysBeforeMonth(year, month) + day - 1 < YearLength(year)
  {
    var end := 13;
    MonthsAddUp(year, month, end);
    MonthTable(year);
  }

  // Later real dates have larger day counts.
  lemma CountDaysIncreases(a: SystemTime, b: SystemTime)
    requires IsRealDate(a) && IsRealDate(b) && DateBefore(a, b)
    ensures CountDays(a.year, a.month, a.day) < CountDays(b.year, b.month, b.day)
  {
    DayInYear(a.year, a.month, a.day);
    DayInYear(b.year, b.month, b.day);
    if a.year < b.year {
      YearsAddUp(a.year, b.year);
    } else if a.month < b.month {
      MonthsAddUp(a.year, a.month, b.month);
    }
  }

  lemma TicksAreCounted(st: SystemTime)
    requires 1601 <= st.year && 1 <= st.month <= 12
    ensures FormulaMsecs(st) == CountDays(st.year, st.month, st.day) * 86400000 + MsecOfDay(st)
  {
    DayFormulaCounts(st);
  }

  lemma MsecOfDayOrder(a: SystemTime, b: SystemTime)
    requires IsTimeOfDay(a) && IsTimeOfDay(b)
    ensures 0 <= MsecOfDay(a) < 86400000
    ensures TimeBefore(a, b) <==> MsecOfDay(a) < MsecOfDay(b)
  {
  }

  lemma CountsCompare(days: int, msecs: int, days': int, msecs': int)
    requires 0 <= msecs < 86400000 && 0 <= msecs' < 86400000
    ensures days * 86400000 + msecs < days' * 86400000 + msecs' <==> days < days' || (days == days' && msecs < msecs')
  {
  }

  lemma RealIsAccepted(st: SystemTime)
    requires IsRealDate(st) && IsTimeOfDay(st)
    ensures Accepted(st)
  {
  }

  // The formula, on unbounded integers, is strictly increasing on real dates.
  lemma FormulaIncreases(a: SystemTime, b: SystemTime)
    requires IsRealDate(a) && IsTimeOfDay(a) && IsRealDate(b) && IsTimeOfDay(b)
    ensures Accepted(a) && Accepted(b)
    ensures Before(a, b) <==> FormulaMsecs(a) < FormulaMsecs(b)
  {
    hide Accepted, MsecOfDay, TimeBefore, FormulaMsecs, CountDays, MonthLength;
    RealIsAccepted(a);
    RealIsAccepted(b);
    TicksAreCounted(a);
    TicksAreCounted(b);
    MsecOfDayOrder(a, b);
    MsecOfDayOrder(b, a);
    CountsCompare(CountDays(a.year, a.month, a.day), MsecOfDay(a), CountDays(b.year, b.month, b.day), MsecOfDay(b));
    if DateBefore(a, b) {
      CountDaysIncreases(a, b);
    } else if DateBefore(b, a) {
      CountDaysIncreases(b, a);
    }
  }

  lemma TickSplit(t: int)
    requires 0 <= t
    ensures t - t % TICKS_PER_MSEC
            == (t / TICKS_PER_DAY * 86400000 + t % TICKS_PER_DAY / TICKS_PER_MSEC) * TICKS_PER_MSEC
  {
  }

  lemma TickJoin(day: int, ms: int)
    requires 0 <= ms < 86400000
    ensures var t := (day * 86400000 + ms) * TICKS_PER_MSEC;
            t / TICKS_PER_DAY == day && t % TICKS_PER_DAY / TICKS_PER_MSEC == ms
  {
  }

  lemma MsecIsUnique(a: SystemTime, b: SystemTime)
    requires IsTimeOfDay(a) && IsTimeOfDay(b) && MsecOfDay(a) == MsecOfDay(b)
    ensures a.hour == b.hour && a.minute == b.minute && a.second == b.second && a.milliseconds == b.milliseconds
  {
  }

  // The date a guard-accepted SYSTEMTIME stands for: 29 February of a common
  // year is read as 1 March.
  function Normal(st: SystemTime): SystemTime
    requires Accepted(st)
  {
    if st.day <= MonthLength(st.year, st.month) then st else st.(month := 3, day := 1)
  }

  lemma NormalIsReal(st: SystemTime)
    requires Accepted(st)
    ensures IsRealDate(Normal(st)) && IsTimeOfDay(Normal(st))
    ensures Normal(st) != st <==> st.month == 2 && st.day == 29 && !IsLeapYear(st.year)
    ensures FormulaMsecs(Normal(st)) == FormulaMsecs(st)
  {
    TicksAreCounted(st);
    TicksAreCounted(Normal(st));
    MonthTable(st.year);
  }

  // ---------------------------------------------------------------- integer widths

  predicate FitsInt(x: int) { -INT_MAX - 1 <= x <= INT_MAX }

  predicate FitsLongLong(x: int) { -LONGLONG_MAX - 1 <= x <= LONGLONG_MAX }

  // No intermediate of SystemTimeToFileTime leaves int (the day) or LONGLONG (the ticks).
  predicate IntermediatesFit(st: SystemTime) {
    var year, month := FormulaYear(st), FormulaMonth(st);
    var day := DayFormula(year, month, st.day);
    && FitsInt(3 * (year / 100) + 3) && FitsInt(36525 * year) && FitsInt(YearDays(year))
    && FitsInt(1959 * month) && FitsInt(YearDays(year) + MonthDays(month))
    && FitsInt(YearDays(year) + MonthDays(month) + st.day) && FitsInt(day)
    && FitsLongLong(day * 24 + st.hour)
    && FitsLongLong((day * 24 + st.hour) * 60 + st.minute)
    && FitsLongLong(((day * 24 + st.hour) * 60 + st.minute) * 60 + st.second)
    && FitsLongLong((((day * 24 + st.hour) * 60 + st.minute) * 60 + st.second) * 1000 + st.milliseconds)
    && FitsLongLong(FormulaTicks(st))
  }

  // The last millisecond a signed 64-bit tick count can hold.
  const LAST := SystemTime(30828, 9, 0, 14, 2, 48, 5, 477)

  lemma LastTicks()
    ensures IsRealDate(LAST) && IsTimeOfDay(LAST)
    ensures FormulaTicks(LAST) <= LONGLONG_MAX < FormulaTicks(LAST) + TICKS_PER_MSEC
  {
    assert YearDays(30828) == 11259696 && MonthDays(10) == 306;
    hide YearDays, MonthDays;
    assert DayFormula(30828, 10, 14) == 10675199;
    hide DayFormula;
    assert FormulaMsecs(LAST) == 922337203685477;
  }

  lemma FitsUpToLast(st: SystemTime)
    requires Accepted(st) && st.year <= 30828 && FormulaTicks(st) <= LONGLONG_MAX
    ensures IntermediatesFit(st)
  {
  }

  // SystemTimeToFileTime overflows exactly for the times after LAST.
  lemma NoOverflowIff(st: SystemTime)
    requires Accepted(st)
    ensures IntermediatesFit(st) <==> !Before(LAST, st)
  {
    NormalIsReal(st);
    LastTicks();
    FormulaIncreases(LAST, Normal(st));
    BeforeNormal(st);
    if Before(LAST, st) {
      var last, msecs := FormulaMsecs(LAST), FormulaMsecs(st);
      assert last + 1 <= msecs;
    } else {
      FitsUpToLast(st);
    }
  }

  // Every tick count comes back rounded down to a millisecond, if that fits the
  // signed 64 bits it is computed in; else an intermediate overflows.
  lemma TicksRoundTrip(st: SystemTime, t: int)
    requires 0 <= t < TWO_TO_THE_64 && Denotes(st, t)
    ensures Accepted(st)
    ensures IntermediatesFit(st) <==> t - t % TICKS_PER_MSEC <= LONGLONG_MAX
    ensures IntermediatesFit(st) ==> SystemTimeToFileTime(st) == Some(t - t % TICKS_PER_MSEC)
  {
    TicksAreCounted(st);
    TickSplit(t);
    FormulaIncreases(LAST, st);
    LastTicks();
    NoOverflowIff(st);
  }

  lemma BeforeNormal(st: SystemTime)
    requires Accepted(st)
    ensures Before(LAST, Normal(st)) <==> Before(LAST, st)
  {
  }

  // SystemTimeToFileTime is strictly increasing on the real dates it can represent.
  lemma TicksIncrease(a: SystemTime, b: SystemTime)
    requires IsRealDate(a) && IsTimeOfDay(a) && IsRealDate(b) && IsTimeOfDay(b)
    requires !Before(LAST, a) && !Before(LAST, b)
    ensures Accepted(a) && Accepted(b)
    ensures Before(a, b) <==> SystemTimeToFileTime(a).value < SystemTimeToFileTime(b).value
  {
    FormulaIncreases(a, b);
    hide FormulaMsecs, Accepted;
  }

  // Every accepted SYSTEMTIME up to LAST comes back: the reading of its tick count
  // is its normal date, time of day and all, whatever day of week it was given.
  lemma FieldsRoundTrip(st: SystemTime)
    requires Accepted(st) && !Before(LAST, st)
    ensures var t := SystemTimeToFileTime(st).value;
            && 0 <= t <= LONGLONG_MAX
            && forall back :: Denotes(back, t) ==> back == Normal(st).(dayOfWeek := back.dayOfWeek)
  {
    NoOverflowIff(st);
    TicksFit(st);
    var n := Normal(st);
    NormalIsReal(st);
    TicksAreCounted(n);
    hide IntermediatesFit, Normal, Accepted, FormulaMsecs, Before;
    TickJoin(CountDays(n.year, n.month, n.day), MsecOfDay(n));
    forall back | Denotes(back, SystemTimeToFileTime(st).value)
      ensures back == n.(dayOfWeek := back.dayOfWeek)
    {
      if DateBefore(n, back) {
        CountDaysIncreases(n, back);
      } else if DateBefore(back, n) {
        CountDaysIncreases(back, n);
      }
      MsecIsUnique(n, back);
    }
  }

  lemma TicksFit(st: SystemTime)
    requires Accepted(st) && IntermediatesFit(st)
    ensures 0 <= FormulaTicks(st) <= LONGLONG_MAX
  {
    TicksAreCounted(st);
    DaysAreNatural(st);
    hide FormulaMsecs, CountDays;
  }

  lemma DaysAreNatural(st: SystemTime)
    requires Accepted(st)
    ensures 0 <= CountDays(st.year, st.month, st.day)
  {
    DaysBeforeYearClosed(st.year);
    MonthTable(st.year);
  }

  // ---------------------------------------------------------------- day of the week

  // What a month adds to the day of the week, in years that begin in March, and the
  // weeks that it leaves out.
  const MONTH_SHIFTS: seq<int> := [0, 3, 2, 5, 0, 3, 5, 1, 4, 6, 2, 4]
  const MONTH_WEEKS: seq<int> := [0, 4, 8, 12, 17, 21, 25, 30, 34, 38, 43, 47]

  // The day of the week from the year, the month and the day alone; Sunday is 0.
  lemma WeekdayOfDate(st: SystemTime, t: int)
    requires Denotes(st, t)
    ensures var y := if st.month < 3 then st.year - 1 else st.year;
            st.dayOfWeek == (y + y / 4 - y / 100 + y / 400 + MONTH_SHIFTS[st.month - 1] + st.day) % 7
  {
    var y := if st.month < 3 then st.year - 1 else st.year;
    WeeksLeftOut(st.year, st.month, st.day);
    WeekdayStep(CountDays(st.year, st.month, st.day) + 1,
                y + y / 4 - y / 100 + y / 400 + MONTH_SHIFTS[st.month - 1] + st.day,
                52 * st.year - 83536 + MONTH_WEEKS[st.month - 1]);
    hide CountDays;
    assert st.dayOfWeek == (CountDays(st.year, st.month, st.day) + 1) % 7;
  }

  lemma WeeksLeftOut(year: int, month: int, day: int)
    requires 1601 <= year && 1 <= month <= 12
    ensures var y := if month < 3 then year - 1 else year;
            CountDays(year, month, day) + 1
            == y + y / 4 - y / 100 + y / 400 + MONTH_SHIFTS[month - 1] + day
               + 7 * (52 * year - 83536 + MONTH_WEEKS[month - 1])
  {
    DaysBeforeYearClosed(year);
    LeapDaysStep(year);
    MonthTable(year);
    hide IsLeapYear, DaysBeforeYear, DaysBeforeMonth, MonthLength;
  }

  lemma WeekdayStep(a: int, b: int, weeks: int)
    requires a == b + 7 * weeks
    ensures a % 7 == b % 7
  {
  }

  const EPOCH := SystemTime(1601, 1, 1, 1, 0, 0, 0, 0)
  const UNIX_EPOCH := SystemTime(1970, 1, 4, 1, 0, 0, 0, 0)

  // Tick 0 is a Monday.
  lemma EpochIsMonday(st: SystemTime)
    requires Denotes(st, 0)
    ensures st == SystemTime(1601, 1, 1, 1, 0, 0, 0, 0)
  {
    EpochTicks();
    EpochsAccepted();
    hide FormulaTicks, Denotes, Accepted, Normal, Before;
    FieldsRoundTrip(EPOCH);
    WeekdayOfDate(st, 0);
  }

  // And the Unix epoch a Thursday.
  lemma UnixEpochIsThursday(st: SystemTime)
    requires Denotes(st, 116444736000000000)
    ensures st == SystemTime(1970, 1, 4, 1, 0, 0, 0, 0)
  {
    UnixEpochTicks();
    EpochsAccepted();
    hide FormulaTicks, Denotes, Accepted, Normal, Before;
    FieldsRoundTrip(UNIX_EPOCH);
    WeekdayOfDate(st, 116444736000000000);
  }

  lemma EpochsAccepted()
    ensures Accepted(EPOCH) && !Before(LAST, EPOCH) && Normal(EPOCH) == EPOCH
    ensures Accepted(UNIX_EPOCH) && !Before(LAST, UNIX_EPOCH) && Normal(UNIX_EPOCH) == UNIX_EPOCH
  {
  }

  lemma EpochTicks()
    ensures FormulaTicks(EPOCH) == 0
  {
    assert DayFormula(1600, 14, 1) == 0 by { YearAndMonth(1600, 584388); }
    hide DayFormula;
    assert FormulaMsecs(EPOCH) == 0;
    hide FormulaMsecs;
  }

  lemma UnixEpochTicks()
    ensures FormulaTicks(UNIX_EPOCH) == 116444736000000000
  {
    assert DayFormula(1969, 14, 1) == 134774 by { YearAndMonth(1969, 719162); }
    hide DayFormula;
    assert FormulaMsecs(UNIX_EPOCH) == 11644473600000;
    hide FormulaMsecs;
  }

  // The formula at 1 January.
  lemma YearAndMonth(year: int, days: int)
    requires 36525 * year / 100 - (3 * (year / 100) + 3) / 4 == days
    ensures DayFormula(year, 14, 1) == days + 428 + 1 - 584817
  {
    MonthTerm(14);
  }
}
