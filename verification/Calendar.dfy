/**
  The temporal helpers: two independent Julian-day formulas that convert between
  day numbers (days since 1970-01-01) and Gregorian dates. The floating-point
  constants act exactly on the values that occur, so they are integer quotients
  here: 365.25 * n is 1461 * n / 4, and 30.6001 * k is 306001 * k / 10000.
 */
module Calendar {

  datatype Date = Date(year: int, month: int, day: int)

  /** Division that truncates toward zero. */
  function Quot(x: int, y: int): int
    requires y > 0
  {
    if x >= 0 then x / y else -((-x) / y)
  }

  /** `as i32`: keep the low 32 bits, read as two's complement. */
  function ToI32(x: int): int {
    (x + 0x8000_0000) % 0x1_0000_0000 - 0x8000_0000
  }

  predicate FitsI32(x: int) { -0x8000_0000 <= x < 0x8000_0000 }

  lemma FitsUnchanged(x: int)
    requires FitsI32(x)
    ensures ToI32(x) == x
  {
  }

  /** Where a day lies: century and year of the century (years starting in March, from -4800), month and day offsets. */
  datatype March = March(century: int, year: int, month: int, day: int)

  /** The chain of quotients that `days_to_ymd` computes from the day count a. */
  function Split(a: int): March {
    var b := Quot(4 * a + 3, 146_097);
    var c := a - Quot(146_097 * b, 4);
    var d := Quot(4 * c + 3, 1461);
    var e := c - Quot(1461 * d, 4);
    var m := Quot(5 * e + 2, 153);
    March(b, d, m, e - Quot(153 * m + 2, 5))
  }

  function DaysToYmd(days: int): Date {
    var jdn := days + 2_440_588;
    var p := Split(jdn + 32_044);
    Date(ToI32(100 * p.century + p.year - 4800 + Quot(p.month, 10)), ToI32(p.month + 3 - 12 * Quot(p.month, 10)),
         ToI32(p.day + 1))
  }

  /** The day number before the conversion to 32 bits. */
  function DayNumber(date: Date): int {
    var y := if date.month <= 2 then date.year - 1 else date.year;
    var m := if date.month <= 2 then date.month + 12 else date.month;
    var a := Quot(y, 100);
    var b := 2 - a + Quot(a, 4);
    Quot(1461 * (y + 4716), 4) + Quot(306_001 * (m + 1), 10_000) + date.day + b - 1524 - 2_440_588
  }

  function YmdToDays(date: Date): int {
    ToI32(DayNumber(date))
  }

  // ------------------------------------------------------ the Gregorian calendar

  predicate LeapYear(y: int) { (y % 4 == 0 && y % 100 != 0) || y % 400 == 0 }

  function DaysInMonth(y: int, m: int): int {
    if m in {1, 3, 5, 7, 8, 10, 12} then 31
    else if m in {4, 6, 9, 11} then 30
    else if m == 2 then (if LeapYear(y) then 29 else 28)
    else 30
  }

  predicate ValidDate(date: Date) {
    1 <= date.month <= 12 && 1 <= date.day <= DaysInMonth(date.year, date.month)
  }

  /** The calendar's own rule for the day after. */
  function NextDay(date: Date): Date {
    if date.day < DaysInMonth(date.year, date.month) then Date(date.year, date.month, date.day + 1)
    else if date.month < 12 then Date(date.year, date.month + 1, 1)
    else Date(date.year + 1, 1, 1)
  }

  // ------------------------------------- years counted from March, in centuries

  predicate InCalendar(p: March) {
    && 0 <= p.century && 0 <= p.year <= 99 && 0 <= p.month <= 11 && 0 <= p.day
    && p.day < MonthLength(p)
  }

  predicate LeapMarch(p: March) {
    (p.year == 99 && p.century % 4 == 3) || (p.year != 99 && p.year % 4 == 3)
  }

  function MonthLength(p: March): int {
    if p.month == 11 then (if LeapMarch(p) then 29 else 28)
    else (153 * (p.month + 1) + 2) / 5 - (153 * p.month + 2) / 5
  }

  /** Days from -4800-03-01. */
  function Offset(p: March): int {
    (146_097 * p.century) / 4 + (1461 * p.year) / 4 + (153 * p.month + 2) / 5 + p.day
  }

  function ToDate(p: March): Date {
    Date(100 * p.century + p.year - 4800 + p.month / 10, p.month + 3 - 12 * (p.month / 10), p.day + 1)
  }

  /** The position that the conversion reads off an offset. */
  function Locate(a: int): March
  {
    var b := (4 * a + 3) / 146_097;
    var c := a - (146_097 * b) / 4;
    var d := (4 * c + 3) / 1461;
    var e := c - (1461 * d) / 4;
    var m := (5 * e + 2) / 153;
    March(b, d, m, e - (153 * m + 2) / 5)
  }

  lemma CenturyBounds(a: int)
    requires 0 <= a
    ensures var b := (4 * a + 3) / 146_097;
            0 <= b && (146_097 * b) / 4 <= a < (146_097 * (b + 1)) / 4
    ensures var b := (4 * a + 3) / 146_097;
            var c := a - (146_097 * b) / 4;
            0 <= c <= 36_523 + (if b % 4 == 3 then 1 else 0)
  {
    var b := (4 * a + 3) / 146_097;
    assert 146_097 * b == 4 * (36_524 * b) + b;
    assert (146_097 * b) / 4 == 36_524 * b + b / 4;
    assert (146_097 * (b + 1)) / 4 == 36_524 * (b + 1) + (b + 1) / 4;
  }

  lemma YearBounds(c: int, leap: int)
    requires 0 <= c <= 36_523 + leap && 0 <= leap <= 1
    ensures var d := (4 * c + 3) / 1461;
            var e := c - (1461 * d) / 4;
            0 <= d <= 99 && 0 <= e <= 364 + (if (d == 99 && leap == 1) || (d != 99 && d % 4 == 3) then 1 else 0)
  {
  }

  lemma MonthBounds(e: int)
    requires 0 <= e <= 365
    ensures var m := (5 * e + 2) / 153;
            var x := e - (153 * m + 2) / 5;
            && 0 <= m <= 11 && 0 <= x
            && (m < 11 ==> x < (153 * (m + 1) + 2) / 5 - (153 * m + 2) / 5)
            && (m == 11 ==> x == e - 337)
  {
  }

  /** Every offset is located at the calendar position it belongs to. */
  lemma LocateInCalendar(a: int)
    requires 0 <= a
    ensures InCalendar(Locate(a)) && Offset(Locate(a)) == a
  {
    CenturyBounds(a);
    var b := (4 * a + 3) / 146_097;
    var c := a - (146_097 * b) / 4;
    YearBounds(c, if b % 4 == 3 then 1 else 0);
    var d := (4 * c + 3) / 1461;
    MonthBounds(c - (1461 * d) / 4);
  }

  lemma CenturyUnique(b: int, c: int)
    requires 0 <= b && 0 <= c <= 36_523 + (if b % 4 == 3 then 1 else 0)
    ensures (4 * ((146_097 * b) / 4 + c) + 3) / 146_097 == b
  {
    assert (146_097 * b) / 4 == 36_524 * b + b / 4;
  }

  lemma YearUnique(d: int, e: int, leap: int)
    requires 0 <= d <= 99 && 0 <= leap <= 1
    requires 0 <= e <= 364 + (if (d == 99 && leap == 1) || (d != 99 && d % 4 == 3) then 1 else 0)
    ensures (4 * ((1461 * d) / 4 + e) + 3) / 1461 == d && 0 <= (1461 * d) / 4 + e <= 36_523 + leap
  {
  }

  lemma MonthUnique(m: int, x: int)
    requires 0 <= m <= 11 && 0 <= x
    requires m < 11 ==> x < (153 * (m + 1) + 2) / 5 - (153 * m + 2) / 5
    requires m == 11 ==> x <= 28
    ensures (5 * ((153 * m + 2) / 5 + x) + 2) / 153 == m && (m < 11 ==> (153 * m + 2) / 5 + x <= 336)
  {
  }

  /** And every calendar position is found again at its offset. */
  lemma LocateOffset(p: March)
    requires InCalendar(p)
    ensures Locate(Offset(p)) == p && 0 <= Offset(p)
  {
    MonthUnique(p.month, p.day);
    var e := (153 * p.month + 2) / 5 + p.day;
    var leap := if p.century % 4 == 3 then 1 else 0;
    YearUnique(p.year, e, leap);
    var c := (1461 * p.year) / 4 + e;
    CenturyUnique(p.century, c);
    assert Offset(p) == (146_097 * p.century) / 4 + c;
  }

  // --------------------------------------------------------- the two conversions

  /** 1970-01-01 counted from -4800-03-01. */
  const EPOCH := 2_472_632

  lemma DaysToYmdLocates(days: int)
    requires FitsI32(days) && days >= -EPOCH
    ensures DaysToYmd(days) == ToDate(Locate(days + EPOCH))
  {
    var a := days + EPOCH;
    hide Quot, ToI32, Locate, Split, Offset;
    LocateInCalendar(a);
    SplitLocates(a);
    CenturyFits(a);
    var p := Locate(a);
    QuotNat(p.month, 10);
    FitsUnchanged(100 * p.century + p.year - 4800 + p.month / 10);
    FitsUnchanged(p.month + 3 - 12 * (p.month / 10));
    MonthAtMost(p);
    FitsUnchanged(p.day + 1);
  }

  lemma MonthAtMost(p: March)
    requires InCalendar(p)
    ensures MonthLength(p) <= 31
  {
    hide LeapMarch;
  }

  /** On non-negative counts truncating and flooring agree. */
  lemma SplitLocates(a: int)
    requires a >= 0
    ensures Split(a) == Locate(a)
  {
    hide Quot;
    var b := (4 * a + 3) / 146_097;
    var c := a - (146_097 * b) / 4;
    CenturyBounds(a);
    QuotNat(4 * a + 3, 146_097);
    QuotNat(146_097 * b, 4);
    SplitYear(c, if b % 4 == 3 then 1 else 0);
  }

  lemma SplitYear(c: int, leap: int)
    requires 0 <= c <= 36_523 + leap && 0 <= leap <= 1
    ensures var d := (4 * c + 3) / 1461;
            var e := c - (1461 * d) / 4;
            var m := (5 * e + 2) / 153;
            && Quot(4 * c + 3, 1461) == d && Quot(1461 * d, 4) == (1461 * d) / 4
            && Quot(5 * e + 2, 153) == m && Quot(153 * m + 2, 5) == (153 * m + 2) / 5
  {
    hide Quot;
    var d := (4 * c + 3) / 1461;
    var e := c - (1461 * d) / 4;
    var m := (5 * e + 2) / 153;
    YearBounds(c, leap);
    MonthBounds(e);
    QuotNat(4 * c + 3, 1461);
    QuotNat(1461 * d, 4);
    QuotNat(5 * e + 2, 153);
    QuotNat(153 * m + 2, 5);
  }

  lemma QuotNat(x: int, y: int)
    requires x >= 0 && y > 0
    ensures Quot(x, y) == x / y
  {
  }

  lemma CenturyFits(a: int)
    requires 0 <= a <= EPOCH + 0x8000_0000
    ensures 0 <= Locate(a).century <= 60_000
  {
  }

  /** The year, counted from March, that the position belongs to. */
  function MarchYear(p: March): int { 100 * p.century + p.year - 4800 }

  /** Where truncating division by 100 and by 4 agrees with the calendar: not in the bissextile-free
      century years before year 0, and before -4716 only in years that are a multiple of four away. */
  predicate CountsRight(y: int) {
    && !(y < 0 && y % 100 == 0 && y % 400 != 0)
    && (y >= -4716 || (y + 4716) % 4 == 0)
  }

  /** By how many days the second formula is late in a year counted from March. */
  function Late(y: int): int {
    (if y < 0 && y % 100 == 0 && y % 400 != 0 then 1 else 0) + (if y < -4716 && (y + 4716) % 4 != 0 then 1 else 0)
  }

  lemma CenturyTerm(y: int)
    ensures 2 - Quot(y, 100) + Quot(Quot(y, 100), 4) ==
            2 - y / 100 + (y / 100) / 4 + (if y < 0 && y % 100 == 0 && y % 400 != 0 then 1 else 0)
  {
    if y < 0 {
      var n := -y;
      var q := n / 100;
      assert Quot(y, 100) == -q;
      if n % 100 == 0 {
        assert y / 100 == -q;
      } else {
        assert y / 100 == -q - 1;
      }
      CenturyTermNegative(q, n % 100 == 0);
      assert y % 100 == 0 <==> n % 100 == 0;
      assert n % 100 == 0 ==> (y % 400 == 0 <==> q % 4 == 0);
    }
  }

  lemma CenturyTermNegative(q: int, whole: bool)
    requires q >= 0
    ensures Quot(-q, 4) == -(q / 4)
    ensures whole ==> q - q / 4 == q + (-q) / 4 + (if q % 4 != 0 then 1 else 0)
    ensures !whole ==> q - q / 4 == q + 1 + (-q - 1) / 4
  {
  }

  lemma YearTerm(y: int)
    ensures Quot(1461 * (y + 4716), 4) ==
            (1461 * (y + 4716)) / 4 + (if y < -4716 && (y + 4716) % 4 != 0 then 1 else 0)
  {
    var n := y + 4716;
    assert 1461 * n == 4 * (365 * n) + n;
    if n < 0 {
      assert (1461 * n) % 4 == n % 4;
      var t := -(1461 * n);
      assert Quot(1461 * n, 4) == -(t / 4);
      assert (1461 * n) / 4 == if t % 4 == 0 then -(t / 4) else -(t / 4) - 1;
    }
  }

  lemma MonthTerm(p: March)
    requires 0 <= p.month <= 11
    ensures Quot(306_001 * (p.month + 4), 10_000) == (153 * p.month + 2) / 5 + 122
  {
    if p.month <= 5 {
      assert p.month == 0 || p.month == 1 || p.month == 2 || p.month == 3 || p.month == 4 || p.month == 5;
    } else {
      assert p.month == 6 || p.month == 7 || p.month == 8 || p.month == 9 || p.month == 10 || p.month == 11;
    }
  }

  lemma CenturySums(b: int, d: int)
    requires 0 <= d <= 99
    ensures (1461 * (100 * b + d - 4800 + 4716)) / 4 == 36_525 * b + (1461 * d) / 4 - 30_681
    ensures (100 * b + d - 4800) / 100 == b - 48
    ensures (146_097 * b) / 4 == 36_524 * b + b / 4
    ensures (b - 48) / 4 == b / 4 - 12
  {
    assert 1461 * (100 * b + d - 84) == 4 * (36_525 * b - 30_681) + 1461 * d;
    assert 100 * b + d - 4800 == 100 * (b - 48) + d;
  }

  /** The second formula, on the date at a position: right, plus one for each place where it truncates the wrong way. */
  lemma DayNumberOfPosition(p: March)
    requires 0 <= p.year <= 99 && 0 <= p.month <= 11
    ensures DayNumber(ToDate(p)) == Offset(p) - EPOCH + Late(MarchYear(p))
  {
    var date := ToDate(p);
    var y := if date.month <= 2 then date.year - 1 else date.year;
    assert y == MarchYear(p) && (if date.month <= 2 then date.month + 12 else date.month) == p.month + 3;
    CenturyTerm(y);
    YearTerm(y);
    MonthTerm(p);
    CenturySums(p.century, p.year);
    hide Quot, MarchYear;
  }

  /** From day number to date and back: exactly when the year counted from March is one the formula counts right. */
  lemma DayRoundTrip(days: int)
    requires FitsI32(days) && days >= -EPOCH
    ensures YmdToDays(DaysToYmd(days)) == days <==> CountsRight(MarchYear(Locate(days + EPOCH)))
  {
    var p := Locate(days + EPOCH);
    DaysToYmdLocates(days);
    LocateInCalendar(days + EPOCH);
    DayNumberOfPosition(p);
    hide InCalendar, Offset, Locate, DayNumber, DaysToYmd, ToDate, MarchYear;
    var error := DayNumber(ToDate(p)) - days;
    assert 0 <= error <= 2;
    assert error == 0 <==> CountsRight(MarchYear(p));
    NearWrap(days, error);
  }

  lemma NearWrap(days: int, error: int)
    requires FitsI32(days) && 0 <= error <= 2
    ensures ToI32(days + error) == days <==> error == 0
  {
  }

  /** In particular for every day from 0001-01-01 on. */
  lemma DayRoundTripCommonEra(days: int)
    requires -719_162 <= days < 0x8000_0000
    ensures YmdToDays(DaysToYmd(days)) == days
  {
    DayRoundTrip(days);
    LocateInCalendar(days + EPOCH);
    CommonEraYear(days + EPOCH);
  }

  /** Before year 0 the formulas disagree on century years: 1 March of -100 comes back one day late. */
  lemma CenturyBeforeZero()
    ensures DaysToYmd(-755_993) == Date(-100, 3, 1) && YmdToDays(DaysToYmd(-755_993)) == -755_992
  {
    assert Quot(4 * 1_716_639 + 3, 146_097) == 47 && Quot(146_097 * 47, 4) == 1_716_639;
    assert Split(1_716_639) == March(47, 0, 0, 0);
    assert DayNumber(Date(-100, 3, 1)) == -755_992;
  }

  lemma BeforeYearZero(p: March)
    requires InCalendar(p) && MarchYear(p) < 0
    ensures Offset(p) < EPOCH - 719_162
  {
    assert p.century <= 47;
    assert (146_097 * p.century) / 4 <= (146_097 * 47) / 4;
  }

  lemma CommonEraYear(a: int)
    requires a >= EPOCH - 719_162
    ensures MarchYear(Locate(a)) >= 0
  {
    LocateInCalendar(a);
    if MarchYear(Locate(a)) < 0 {
      BeforeYearZero(Locate(a));
      assert false;
    }
  }

  // ----------------------------------------------------- valid dates, both ways

  /** The position of a valid date. */
  function Position(date: Date): March {
    var y := if date.month <= 2 then date.year - 1 else date.year;
    March((y + 4800) / 100, (y + 4800) % 100, if date.month <= 2 then date.month + 9 else date.month - 3, date.day - 1)
  }

  lemma MonthLengthMatches(p: March)
    requires 0 <= p.month <= 11 && 0 <= p.year <= 99
    ensures MonthLength(p) == DaysInMonth(ToDate(p).year, ToDate(p).month)
  {
    var y := ToDate(p).year;
    if p.month == 11 {
      LeapMatches(p);
    } else if p.month <= 5 {
      assert p.month == 0 || p.month == 1 || p.month == 2 || p.month == 3 || p.month == 4 || p.month == 5;
    } else {
      assert p.month == 6 || p.month == 7 || p.month == 8 || p.month == 9 || p.month == 10;
    }
  }

  lemma LeapMatches(p: March)
    requires 0 <= p.year <= 99
    ensures LeapMarch(p) <==> LeapYear(MarchYear(p) + 1)
  {
    var y := MarchYear(p) + 1;
    assert y == 4 * (25 * p.century - 1200) + p.year + 1;
    assert y % 4 == (p.year + 1) % 4;
    assert y == 100 * (p.century - 48) + p.year + 1;
    if p.year == 99 {
      assert y == 100 * (p.century - 47) && y % 100 == 0;
      assert y % 400 == 0 <==> (p.century - 47) % 4 == 0;
    } else {
      assert y % 100 == p.year + 1;
      CenturyMultiple(y);
    }
  }

  lemma CenturyMultiple(y: int)
    ensures y % 400 == 0 ==> y % 100 == 0
  {
    assert y == 100 * (4 * (y / 400)) + y % 400;
  }

  /** Positions in the calendar are exactly the valid dates. */
  lemma PositionOfDate(date: Date)
    requires ValidDate(date) && (if date.month <= 2 then date.year - 1 else date.year) >= -4800
    ensures InCalendar(Position(date)) && ToDate(Position(date)) == date
  {
    var p := Position(date);
    var y := if date.month <= 2 then date.year - 1 else date.year;
    assert 100 * p.century + p.year == y + 4800;
    assert ToDate(p) == date;
    MonthLengthMatches(p);
  }

  lemma DateOfPosition(p: March)
    requires InCalendar(p)
    ensures ValidDate(ToDate(p)) && Position(ToDate(p)) == p
  {
    MonthLengthMatches(p);
    var date := ToDate(p);
    var y := if date.month <= 2 then date.year - 1 else date.year;
    assert y + 4800 == 100 * p.century + p.year;
  }

  /** Every day number is turned into a date of the calendar. */
  lemma DatesAreValid(days: int)
    requires FitsI32(days) && days >= -EPOCH
    ensures ValidDate(DaysToYmd(days))
  {
    DaysToYmdLocates(days);
    LocateInCalendar(days + EPOCH);
    DateOfPosition(Locate(days + EPOCH));
  }

  /** The dates from -4800-03-01 on. */
  predicate FromStart(date: Date) { (if date.month <= 2 then date.year - 1 else date.year) >= -4800 }

  /** From a valid date to its day number and back: exactly when the year counted from March is one the
      formula counts right. */
  lemma DateRoundTrip(date: Date)
    requires ValidDate(date) && FromStart(date) && FitsI32(DayNumber(date))
    ensures DaysToYmd(YmdToDays(date)) == date <==> CountsRight(MarchYear(Position(date)))
  {
    var p := Position(date);
    PositionOfDate(date);
    PositionRanges(p);
    DayNumberOfPosition(p);
    OffsetNatural(p);
    LateMeans(MarchYear(p));
    hide *;
    YmdToDaysFits(date);
    DaysToYmdLocates(DayNumber(date));
    LocateOffset(p);
    var q := Locate(DayNumber(date) + EPOCH);
    LocateInCalendar(DayNumber(date) + EPOCH);
    if Late(MarchYear(p)) != 0 && ToDate(q) == date {
      DateOfPosition(q);
      assert false;
    }
  }

  lemma LateMeans(y: int)
    ensures Late(y) == 0 <==> CountsRight(y)
    ensures 0 <= Late(y) <= 2
  {
  }

  lemma OffsetNatural(p: March)
    requires InCalendar(p)
    ensures Offset(p) >= 0
  {
  }

  /** In particular for every date from March of year 0 on. */
  lemma DateRoundTripCommonEra(date: Date)
    requires ValidDate(date) && (date.year >= 1 || (date.year == 0 && date.month >= 3)) && FitsI32(DayNumber(date))
    ensures DaysToYmd(YmdToDays(date)) == date
  {
    MarchYearOf(date);
    hide DaysToYmd, YmdToDays, DayNumber, ValidDate, Position, MarchYear;
    DateRoundTrip(date);
  }

  lemma PositionRanges(p: March)
    requires InCalendar(p)
    ensures 0 <= p.year <= 99 && 0 <= p.month <= 11
  {
  }

  lemma YmdToDaysFits(date: Date)
    requires FitsI32(DayNumber(date))
    ensures YmdToDays(date) == DayNumber(date)
  {
    FitsUnchanged(DayNumber(date));
  }

  lemma MarchYearOf(date: Date)
    requires date.year >= 1 || (date.year == 0 && date.month >= 3)
    ensures MarchYear(Position(date)) >= 0
  {
  }

  /** Consecutive dates have consecutive day numbers, except where the formula starts or stops being late. */
  lemma DayNumbersCount(date: Date)
    requires ValidDate(date) && FromStart(date)
    ensures ValidDate(NextDay(date)) && FromStart(NextDay(date)) && DayNumber(Date(1970, 1, 1)) == 0
    ensures DayNumber(NextDay(date)) - DayNumber(date) ==
            1 + Late(MarchYear(Position(NextDay(date)))) - Late(MarchYear(Position(date)))
  {
    var p := Position(date);
    PositionOfDate(date);
    var q := Position(NextDay(date));
    PositionOfDate(NextDay(date));
    DayNumberOfPosition(p);
    DayNumberOfPosition(q);
    MonthLengthMatches(p);
    NextPosition(p, q, date);
    EpochIsZero();
    hide DayNumber, ToDate, ValidDate, Position, Offset, MarchYear, Late;
  }

  /** From year 0 on the numbering is the calendar's. */
  lemma DayNumbersCountCommonEra(date: Date)
    requires ValidDate(date) && (date.year >= 1 || (date.year == 0 && date.month >= 3))
    ensures DayNumber(NextDay(date)) == DayNumber(date) + 1
  {
    DayNumbersCount(date);
    MarchYearOf(date);
    MarchYearOf(NextDay(date));
    hide DayNumber, Position, MarchYear;
  }

  lemma EpochIsZero()
    ensures DayNumber(Date(1970, 1, 1)) == 0
  {
  }

  lemma MonthStep(p: March)
    requires InCalendar(p) && p.day + 1 == MonthLength(p) && p.month < 11
    ensures Offset(March(p.century, p.year, p.month + 1, 0)) == Offset(p) + 1
  {
  }

  lemma YearStep(p: March)
    requires InCalendar(p) && p.day + 1 == MonthLength(p) && p.month == 11 && p.year < 99
    ensures Offset(March(p.century, p.year + 1, 0, 0)) == Offset(p) + 1
  {
  }

  lemma CenturyStep(p: March)
    requires InCalendar(p) && p.day + 1 == MonthLength(p) && p.month == 11 && p.year == 99
    ensures Offset(March(p.century + 1, 0, 0, 0)) == Offset(p) + 1
  {
    assert (146_097 * p.century) / 4 == 36_524 * p.century + p.century / 4;
    assert (146_097 * (p.century + 1)) / 4 == 36_524 * (p.century + 1) + (p.century + 1) / 4;
  }

  /** The position after p. */
  function NextMarch(p: March): March {
    if p.day + 1 < MonthLength(p) then p.(day := p.day + 1)
    else if p.month < 11 then March(p.century, p.year, p.month + 1, 0)
    else if p.year < 99 then March(p.century, p.year + 1, 0, 0)
    else March(p.century + 1, 0, 0, 0)
  }

  lemma NextMarchStep(p: March)
    requires InCalendar(p)
    ensures Offset(NextMarch(p)) == Offset(p) + 1
  {
    if p.day + 1 == MonthLength(p) {
      if p.month < 11 {
        MonthStep(p);
      } else if p.year < 99 {
        YearStep(p);
      } else {
        CenturyStep(p);
      }
    }
  }

  lemma NextPosition(p: March, q: March, date: Date)
    requires InCalendar(p) && p == Position(date) && q == Position(NextDay(date)) && 1 <= date.month <= 12
    requires MonthLength(p) == DaysInMonth(date.year, date.month)
    ensures q == NextMarch(p) && Offset(q) == Offset(p) + 1
  {
    NextMarchStep(p);
    hide Offset, MonthLength, DaysInMonth;
  }

  /** The first formula counts day by day: the next number is the next date. */
  lemma NextNumberNextDate(days: int)
    requires FitsI32(days) && FitsI32(days + 1) && days >= -EPOCH
    ensures DaysToYmd(days + 1) == NextDay(DaysToYmd(days))
  {
    hide *;
    var p := Locate(days + EPOCH);
    DaysToYmdLocates(days);
    DaysToYmdLocates(days + 1);
    LocateInCalendar(days + EPOCH);
    DateOfPosition(p);
    StartOfPosition(p);
    NextOfPosition(p);
    PositionOfDate(NextDay(ToDate(p)));
    LocateOffset(Position(NextDay(ToDate(p))));
  }

  lemma NextOfPosition(p: March)
    requires InCalendar(p) && ValidDate(ToDate(p)) && Position(ToDate(p)) == p && FromStart(ToDate(p))
    ensures var next := NextDay(ToDate(p));
      && ValidDate(next) && (if next.month <= 2 then next.year - 1 else next.year) >= -4800
      && Offset(Position(next)) == Offset(p) + 1
  {
    var date := ToDate(p);
    DayNumbersCount(date);
    MonthLengthMatches(p);
    hide DayNumber, Late, MarchYear, Offset;
    NextPosition(p, Position(NextDay(date)), date);
  }

  lemma StartOfPosition(p: March)
    requires InCalendar(p)
    ensures FromStart(ToDate(p))
  {
  }

  /** The date some days later. */
  function DaysLater(date: Date, n: nat): Date { if n == 0 then date else NextDay(DaysLater(date, n - 1)) }

  lemma {:induction false} NumbersCountDays(days: int, n: nat)
    requires FitsI32(days) && FitsI32(days + n) && days >= -EPOCH
    ensures DaysToYmd(days + n) == DaysLater(DaysToYmd(days), n)
  {
    hide DaysToYmd, NextDay;
    if n > 0 {
      NumbersCountDays(days, n - 1);
      NextNumberNextDate(days + n - 1);
    }
  }

  // ------------------------------------------------------------------- datetimes

  datatype DateTime = DateTime(date: Date, hour: int, minute: int, second: int, millis: int)

  function MillisToDatetime(ms: int): DateTime {
    var totalSecs := ms / 1000;
    var secsInDay := totalSecs % 86_400;
    DateTime(DaysToYmd(ToI32(totalSecs / 86_400)), secsInDay / 3600, (secsInDay % 3600) / 60, secsInDay % 60, ms % 1000)
  }

  function DatetimeToMillis(t: DateTime): int {
    YmdToDays(t.date) * 86_400_000 + t.hour * 3_600_000 + t.minute * 60_000 + t.second * 1_000 + t.millis
  }

  predicate ValidTime(t: DateTime) {
    0 <= t.hour < 24 && 0 <= t.minute < 60 && 0 <= t.second < 60 && 0 <= t.millis < 1000
  }

  lemma ClockParts(ms: int)
    ensures var s := (ms / 1000) % 86_400;
      ms == (ms / 1000 / 86_400) * 86_400_000 + (s / 3600) * 3_600_000 + ((s % 3600) / 60) * 60_000
            + (s % 60) * 1_000 + ms % 1000
  {
    var s := (ms / 1000) % 86_400;
    assert ms / 1000 == 86_400 * (ms / 1000 / 86_400) + s;
    assert s == 3600 * (s / 3600) + s % 3600;
    assert s % 3600 == 60 * ((s % 3600) / 60) + (s % 3600) % 60;
    assert (s % 3600) % 60 == s % 60;
  }

  /** From an instant to its components and back: exactly when its day makes the round trip. */
  lemma InstantRoundTrip(ms: int)
    requires -EPOCH <= ms / 1000 / 86_400 < 0x8000_0000
    ensures DatetimeToMillis(MillisToDatetime(ms)) == ms <==>
            CountsRight(MarchYear(Locate(ms / 1000 / 86_400 + EPOCH)))
    ensures ValidTime(MillisToDatetime(ms)) && ValidDate(MillisToDatetime(ms).date)
  {
    var days := ms / 1000 / 86_400;
    FitsUnchanged(days);
    DayRoundTrip(days);
    DatesAreValid(days);
    ClockParts(ms);
    hide DaysToYmd, YmdToDays, MarchYear, Locate, CountsRight, ValidDate;
  }

  lemma ComposeClock(days: int, h: int, mi: int, s: int, f: int)
    requires 0 <= h < 24 && 0 <= mi < 60 && 0 <= s < 60 && 0 <= f < 1000
    ensures var ms := days * 86_400_000 + h * 3_600_000 + mi * 60_000 + s * 1_000 + f;
      && ms / 1000 / 86_400 == days && ms % 1000 == f
      && (ms / 1000) % 86_400 == h * 3600 + mi * 60 + s
  {
    var secs := days * 86_400 + h * 3600 + mi * 60 + s;
    var ms := days * 86_400_000 + h * 3_600_000 + mi * 60_000 + s * 1_000 + f;
    assert ms == 1000 * secs + f;
    assert ms / 1000 == secs;
    assert 0 <= h * 3600 + mi * 60 + s < 86_400;
  }

  /** And from components to the instant and back: exactly when the date does. */
  lemma ComponentsRoundTrip(t: DateTime)
    requires ValidDate(t.date) && FromStart(t.date) && FitsI32(DayNumber(t.date)) && ValidTime(t)
    ensures MillisToDatetime(DatetimeToMillis(t)) == t <==> CountsRight(MarchYear(Position(t.date)))
  {
    hide DaysToYmd, DayNumber, ValidDate, ToI32, MarchYear, Position, CountsRight;
    DateRoundTrip(t.date);
    FitsUnchanged(DayNumber(t.date));
    ComposeClock(YmdToDays(t.date), t.hour, t.minute, t.second, t.millis);
    ClockDigits(t.hour, t.minute, t.second);
  }

  lemma ClockDigits(h: int, mi: int, s: int)
    requires 0 <= h < 24 && 0 <= mi < 60 && 0 <= s < 60
    ensures var x := h * 3600 + mi * 60 + s; x / 3600 == h && (x % 3600) / 60 == mi && x % 60 == s
  {
    var x := h * 3600 + mi * 60 + s;
    assert x % 3600 == mi * 60 + s;
    assert x == 60 * (60 * h + mi) + s;
  }

  /** The clock's own rule for the millisecond after. */
  function NextInstant(t: DateTime): DateTime {
    if t.millis < 999 then t.(millis := t.millis + 1)
    else if t.second < 59 then t.(second := t.second + 1, millis := 0)
    else if t.minute < 59 then t.(minute := t.minute + 1, second := 0, millis := 0)
    else if t.hour < 23 then t.(hour := t.hour + 1, minute := 0, second := 0, millis := 0)
    else DateTime(NextDay(t.date), 0, 0, 0, 0)
  }

  /** Instants are counted millisecond by millisecond from midnight of 1970-01-01. */
  lemma InstantsCount(t: DateTime)
    requires ValidTime(t) && ValidDate(t.date) && (t.date.year >= 1 || (t.date.year == 0 && t.date.month >= 3))
    requires FitsI32(DayNumber(t.date)) && FitsI32(DayNumber(NextDay(t.date)))
    ensures DatetimeToMillis(NextInstant(t)) == DatetimeToMillis(t) + 1
    ensures DatetimeToMillis(DateTime(Date(1970, 1, 1), 0, 0, 0, 0)) == 0
  {
    hide DayNumber, YmdToDays, NextDay, ValidDate;
    DayNumbersCountCommonEra(t.date);
    EpochIsZero();
    YmdToDaysFits(t.date);
    YmdToDaysFits(NextDay(t.date));
    YmdToDaysFits(Date(1970, 1, 1));
  }

  // -------------------------------------------------------------- adding months

  function Min(x: int, y: int): int { if x <= y then x else y }

  function AddDurationToDate(days: int, months: int, durDays: int, millis: int): int {
    var date := DaysToYmd(days);
    var totalMonths := (date.year * 12 + date.month - 1) + months;
    var newYear, newMonth := totalMonths / 12, totalMonths % 12 + 1;
    var maxDay := DaysInMonth(newYear, newMonth);
    var newDays := YmdToDays(Date(newYear, newMonth, Min(date.day, maxDay)));
    newDays + durDays + ToI32(Quot(millis, 86_400_000))
  }

  datatype Month = Month(year: int, month: int)

  predicate ValidMonth(m: Month) { 1 <= m.month <= 12 }

  /** The calendar's own rule for the month after. */
  function NextMonth(m: Month): Month {
    if m.month < 12 then Month(m.year, m.month + 1) else Month(m.year + 1, 1)
  }

  function PreviousMonth(m: Month): Month {
    if m.month > 1 then Month(m.year, m.month - 1) else Month(m.year - 1, 12)
  }

  /** The month n turns of the calendar later, or earlier. */
  function TurnMonths(m: Month, n: int): Month
    decreases if n < 0 then -n else n
  {
    if n == 0 then m
    else if n > 0 then NextMonth(TurnMonths(m, n - 1))
    else PreviousMonth(TurnMonths(m, n + 1))
  }

  /** The date a whole number of months later: same day, or the month's last when it is shorter. */
  function MonthsLater(date: Date, months: int): Date {
    var m := TurnMonths(Month(date.year, date.month), months);
    var last := DaysInMonth(m.year, m.month);
    Date(m.year, m.month, if date.day <= last then date.day else last)
  }

  /** Turning n months moves the count of months since year 0 by n. */
  lemma {:induction false} TurnsCount(m: Month, n: int)
    requires ValidMonth(m)
    ensures ValidMonth(TurnMonths(m, n))
    ensures TurnMonths(m, n).year * 12 + TurnMonths(m, n).month == m.year * 12 + m.month + n
    decreases if n < 0 then -n else n
  {
    if n > 0 {
      TurnsCount(m, n - 1);
    } else if n < 0 {
      TurnsCount(m, n + 1);
    }
  }

  lemma MonthByCount(m: Month, k: Month)
    requires ValidMonth(m) && ValidMonth(k) && m.year * 12 + m.month == k.year * 12 + k.month
    ensures m == k
  {
  }

  /** Turns add up, so n turns forward and n back cancel. */
  lemma TurnsAdd(m: Month, a: int, b: int)
    requires ValidMonth(m)
    ensures TurnMonths(TurnMonths(m, a), b) == TurnMonths(m, a + b)
    ensures TurnMonths(TurnMonths(m, a), -a) == m
  {
    hide TurnMonths;
    TurnsCount(m, a);
    TurnsCount(m, a + b);
    TurnsCount(TurnMonths(m, a), b);
    TurnsCount(TurnMonths(m, a), -a);
    MonthByCount(TurnMonths(TurnMonths(m, a), b), TurnMonths(m, a + b));
    MonthByCount(TurnMonths(TurnMonths(m, a), -a), m);
  }

  /** Twelve months are a year. */
  lemma TwelveMonths(m: Month, years: int)
    requires ValidMonth(m)
    ensures TurnMonths(m, 12 * years) == Month(m.year + years, m.month)
  {
    hide TurnMonths;
    TurnsCount(m, 12 * years);
    MonthByCount(TurnMonths(m, 12 * years), Month(m.year + years, m.month));
  }

  lemma MonthsLaterValid(date: Date, months: int)
    requires ValidDate(date)
    ensures ValidDate(MonthsLater(date, months))
  {
    hide TurnMonths;
    TurnsCount(Month(date.year, date.month), months);
  }

  /** The month the two divisions by twelve name is the one the calendar turns to. */
  lemma AddedMonth(date: Date, months: int)
    requires 1 <= date.month <= 12
    ensures var total := (date.year * 12 + date.month - 1) + months;
      TurnMonths(Month(date.year, date.month), months) == Month(total / 12, total % 12 + 1)
  {
    hide TurnMonths;
    TurnsCount(Month(date.year, date.month), months);
  }

  /** The day number that adding months leads to, before the shift by days. */
  lemma AddedMonths(days: int, months: int, durDays: int, millis: int)
    requires 1 <= DaysToYmd(days).month <= 12
    ensures AddDurationToDate(days, months, durDays, millis) ==
            YmdToDays(MonthsLater(DaysToYmd(days), months)) + durDays + ToI32(Quot(millis, 86_400_000))
  {
    hide DaysToYmd, YmdToDays, TurnMonths, DaysInMonth, Quot, ToI32;
    AddedMonth(DaysToYmd(days), months);
  }

  lemma AddedMonthsOnly(days: int, months: int)
    requires ValidDate(DaysToYmd(days))
    ensures AddDurationToDate(days, months, 0, 0) == YmdToDays(MonthsLater(DaysToYmd(days), months))
  {
    hide DaysToYmd, YmdToDays, AddDurationToDate, MonthsLater;
    AddedMonths(days, months, 0, 0);
    assert Quot(0, 86_400_000) == 0 && ToI32(0) == 0;
  }

  lemma MonthIsValid(date: Date)
    requires ValidDate(date)
    ensures 1 <= date.month <= 12
  {
  }

  /** Adding months lands on the same day of the later month, clamped to its last: exactly when the formula
      counts that date's year right. */
  lemma AddMonthsLands(days: int, months: int)
    requires FitsI32(days) && days >= -EPOCH
    requires FromStart(MonthsLater(DaysToYmd(days), months)) && FitsI32(DayNumber(MonthsLater(DaysToYmd(days), months)))
    ensures DaysToYmd(AddDurationToDate(days, months, 0, 0)) == MonthsLater(DaysToYmd(days), months) <==>
            CountsRight(MarchYear(Position(MonthsLater(DaysToYmd(days), months))))
  {
    hide *;
    DatesAreValid(days);
    MonthsLaterValid(DaysToYmd(days), months);
    DateRoundTrip(MonthsLater(DaysToYmd(days), months));
    AddedMonthsOnly(days, months);
  }

  /** The days of the duration and the whole days in its milliseconds are then counted on from that date,
      or back to it when they are negative. */
  lemma AddDurationCounts(days: int, months: int, durDays: int, millis: int)
    requires FitsI32(days) && days >= -EPOCH
    requires FromStart(MonthsLater(DaysToYmd(days), months)) && FitsI32(DayNumber(MonthsLater(DaysToYmd(days), months)))
    requires CountsRight(MarchYear(Position(MonthsLater(DaysToYmd(days), months))))
    requires var r := AddDurationToDate(days, months, durDays, millis); FitsI32(r) && r >= -EPOCH
    ensures var base, r := MonthsLater(DaysToYmd(days), months), AddDurationToDate(days, months, durDays, millis);
      var shift := durDays + ToI32(Quot(millis, 86_400_000));
      if shift >= 0 then DaysToYmd(r) == DaysLater(base, shift) else DaysLater(DaysToYmd(r), -shift) == base
  {
    hide *;
    var base, r := MonthsLater(DaysToYmd(days), months), AddDurationToDate(days, months, durDays, millis);
    var shift := durDays + ToI32(Quot(millis, 86_400_000));
    DatesAreValid(days);
    MonthsLaterValid(DaysToYmd(days), months);
    DateRoundTrip(base);
    MonthIsValid(DaysToYmd(days));
    AddedMonths(days, months, durDays, millis);
    NumberFromStart(base);
    YmdToDaysFits(base);
    if shift >= 0 {
      NumbersCountDays(YmdToDays(base), shift);
    } else {
      NumbersCountDays(r, -shift);
    }
  }

  lemma NumberFromStart(date: Date)
    requires ValidDate(date) && FromStart(date)
    ensures DayNumber(date) >= -EPOCH
  {
    var p := Position(date);
    PositionOfDate(date);
    DayNumberOfPosition(p);
    OffsetNatural(p);
    LateMeans(MarchYear(p));
    hide DayNumber, Offset, MarchYear, Late;
  }

  /** Going forth and back the same number of months returns to the date exactly when the day was not clamped. */
  lemma MonthsLaterAndBack(date: Date, months: int)
    requires ValidDate(date)
    ensures var back := MonthsLater(MonthsLater(date, months), -months);
      && back.year == date.year && back.month == date.month
      && back.day == Min(date.day, DaysInMonth(MonthsLater(date, months).year, MonthsLater(date, months).month))
      && 1 <= back.day <= date.day <= 31
  {
    hide TurnMonths;
    TurnsAdd(Month(date.year, date.month), months, 0);
    TurnsCount(Month(date.year, date.month), months);
  }

  /** For day numbers: two calls with opposite months return to the number exactly when the day was not clamped. */
  lemma MonthsThereAndBack(days: int, months: int)
    requires FitsI32(days) && days >= -EPOCH && CountsRight(MarchYear(Locate(days + EPOCH)))
    requires FromStart(MonthsLater(DaysToYmd(days), months)) && FitsI32(DayNumber(MonthsLater(DaysToYmd(days), months)))
    requires CountsRight(MarchYear(Position(MonthsLater(DaysToYmd(days), months))))
    ensures var there := MonthsLater(DaysToYmd(days), months);
      AddDurationToDate(AddDurationToDate(days, months, 0, 0), -months, 0, 0) == days <==>
      DaysToYmd(days).day <= DaysInMonth(there.year, there.month)
  {
    hide *;
    var date := DaysToYmd(days);
    var there := MonthsLater(date, months);
    var back := MonthsLater(there, -months);
    DatesAreValid(days);
    AddMonthsLands(days, months);
    MonthsLaterValid(date, months);
    AddedMonthsOnly(AddDurationToDate(days, months, 0, 0), -months);
    MonthsLaterAndBack(date, months);
    DayRoundTrip(days);
    SameMonth(date, back);
    MinMeans(date.day, DaysInMonth(there.year, there.month));
    Back(days, date, back);
  }

  lemma MinMeans(x: int, y: int)
    ensures Min(x, y) == x <==> x <= y
  {
  }

  lemma SameMonth(a: Date, b: Date)
    requires a.year == b.year && a.month == b.month
    ensures DayNumber(b) == DayNumber(a) - (a.day - b.day)
  {
  }

  lemma Back(days: int, date: Date, back: Date)
    requires FitsI32(days) && days >= -EPOCH && YmdToDays(date) == days
    requires DayNumber(back) == DayNumber(date) - (date.day - back.day) && 0 <= date.day - back.day <= 30
    ensures YmdToDays(back) == days <==> back.day == date.day
  {
    hide DayNumber;
  }
}
