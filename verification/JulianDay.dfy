/** Civil dates and Julian day numbers (`dateTime.cpp`): two chains of nested floor divisions that invert
    each other and agree with the separate tables of month lengths and leap years. */
module JulianDay {
  import opened Arithmetic

  const DATE_JD_INVALID: int := -0x8000_0000

  /** Division of C++, which truncates towards zero. */
  function Truncate(a: int, b: int): int
    requires b != 0
  {
    var p, q := if a < 0 then -a else a, if b < 0 then -b else b;
    if (a < 0) == (b < 0) then p / q else -(p / q)
  }

  function FloorDiv(a: int, b: int): (r: int)
    requires b != 0
  {
    if b < 0 && a < 0 then Truncate(a, b)
    else
      var p, q := if b < 0 then -a else a, if b < 0 then -b else b;
      Truncate(p - if p < 0 then q - 1 else 0, q)
  }

  /** The rounding of the source is the floor, for any dividend and either sign of the divisor. */
  lemma FloorDivIsFloor(a: int, b: int)
    requires b != 0
    ensures b > 0 ==> b * FloorDiv(a, b) <= a < b * FloorDiv(a, b) + b
    ensures b > 0 ==> FloorDiv(a, b) == a / b
    ensures b < 0 ==> b * FloorDiv(a, b) + b < a <= b * FloorDiv(a, b)
  {
    hide FloorDiv;
    if b > 0 {
      FloorOfPositive(a, b);
      QuotientUnique(a, b, FloorDiv(a, b));
    } else {
      SignsMove(a, b);
      FloorOfPositive(-a, -b);
      assert -b * FloorDiv(-a, -b) == -(b * FloorDiv(a, b));
    }
  }

  lemma SignsMove(a: int, b: int)
    requires b < 0
    ensures FloorDiv(a, b) == FloorDiv(-a, -b)
  {}

  lemma FloorOfPositive(p: int, q: int)
    requires q > 0
    ensures q * FloorDiv(p, q) <= p < q * FloorDiv(p, q) + q
  {
    if p < 0 {
      FloorOfNegative(-p, q);
      assert FloorDiv(p, q) == -((-p + q - 1) / q);
    } else {
      assert p == q * (p / q) + p % q;
    }
  }

  lemma FloorOfNegative(n: int, q: int)
    requires n > 0 && q > 0
    ensures q * -((n + q - 1) / q) <= -n < q * -((n + q - 1) / q) + q
  {
    var r := (n + q - 1) / q;
    assert n + q - 1 == q * r + (n + q - 1) % q;
    assert q * -r == -(q * r);
  }

  lemma QuotientUnique(a: int, b: int, q: int)
    requires b > 0 && b * q <= a < b * q + b
    ensures q == a / b
  {
    DivModUnique(a, b, q, a - b * q);
  }

  /** Year (no year 0; -1 is the year before 1), month and day. */
  datatype Ymd = Ymd(year: int, month: int, day: int)

  function DaysInMonth(month: int): int {
    if month < 1 || month > 12 then 0
    else [0, 31, 28, 31, 30, 31, 30, 31, 31, 30, 31, 30, 31][month]
  }

  predicate IsLeapYear(year: int) {
    var y := if year < 1 then year + 1 else year;
    (y % 4 == 0 && y % 100 != 0) || y % 400 == 0
  }

  predicate IsValid(v: Ymd) {
    && v.year != 0
    && v.day >= 1
    && (v.day <= DaysInMonth(v.month) || (v.day == 29 && v.month == 2 && IsLeapYear(v.year)))
  }

  function YmdToJd(v: Ymd): int {
    var tYear := if v.year < 0 then v.year + 1 else v.year;
    var a := FloorDiv(14 - v.month, 12);
    var y := tYear + 4800 - a;
    var m := v.month + 12 * a - 3;
    v.day + FloorDiv(153 * m + 2, 5) + 365 * y + FloorDiv(y, 4) - FloorDiv(y, 100) + FloorDiv(y, 400) - 32045
  }

  function JdToYmd(jd: int): Ymd {
    var a := jd + 32044;
    var b := FloorDiv(4 * a + 3, 146097);
    var c := a - FloorDiv(146097 * b, 4);
    var d := FloorDiv(4 * c + 3, 1461);
    var e := c - FloorDiv(1461 * d, 4);
    var m := FloorDiv(5 * e + 2, 153);
    var tDay := e - FloorDiv(153 * m + 2, 5) + 1;
    var tMonth := m + 3 - 12 * FloorDiv(m, 10);
    var tYear := 100 * b + d - 4800 + FloorDiv(m, 10);
    Ymd(if tYear <= 0 then tYear - 1 else tYear, tMonth, tDay)
  }

  // ----- the computational calendar: centuries, years and months counted from 1 March -4800 -----

  /** Century `b`, year of the century `d`, month `m` counted from March, day of the month from 0. */
  datatype Cal = Cal(b: int, d: int, m: int, day: int)

  function MonthStart(m: int): int {
    (153 * m + 2) / 5
  }

  /** A year counted from March is long if the February at its end is in a leap year. */
  predicate LongYear(b: int, d: int) {
    var y := 100 * b + d + 1;
    (y % 4 == 0 && y % 100 != 0) || y % 400 == 0
  }

  function MonthLength(b: int, d: int, m: int): int
    requires 0 <= m < 12
  {
    if m == 11 then (if LongYear(b, d) then 29 else 28)
    else if m == 1 || m == 3 || m == 6 || m == 8 then 30
    else 31
  }

  predicate CalValid(k: Cal) {
    0 <= k.d < 100 && 0 <= k.m < 12 && 0 <= k.day < MonthLength(k.b, k.d, k.m)
  }

  /** Days since 1 March -4800. */
  function CalDays(k: Cal): int {
    146097 * k.b / 4 + 1461 * k.d / 4 + MonthStart(k.m) + k.day
  }

  function CalOf(a: int): Cal {
    var b := (4 * a + 3) / 146097;
    var c := a - 146097 * b / 4;
    var d := (4 * c + 3) / 1461;
    var e := c - 1461 * d / 4;
    var m := (5 * e + 2) / 153;
    Cal(b, d, m, e - MonthStart(m))
  }

  function CalToYmd(k: Cal): Ymd {
    var tYear := 100 * k.b + k.d - 4800 + if k.m >= 10 then 1 else 0;
    Ymd(if tYear <= 0 then tYear - 1 else tYear, if k.m >= 10 then k.m - 9 else k.m + 3, k.day + 1)
  }

  function YmdToCal(v: Ymd): Cal
    requires 1 <= v.month <= 12
  {
    var y := (if v.year < 0 then v.year + 1 else v.year) + 4800 - if v.month <= 2 then 1 else 0;
    Cal(y / 100, y % 100, if v.month <= 2 then v.month + 9 else v.month - 3, v.day - 1)
  }

  // ----- the source's formulas are those of the computational calendar -----

  lemma {:induction false} JdToYmdIsCal(jd: int)
    ensures var k := CalOf(jd + 32044);
      0 <= k.m < 12 ==> JdToYmd(jd) == CalToYmd(k)
  {
    hide FloorDiv;
    var a := jd + 32044;
    FloorDivIsFloor(4 * a + 3, 146097);
    var b := (4 * a + 3) / 146097;
    FloorDivIsFloor(146097 * b, 4);
    var c := a - 146097 * b / 4;
    FloorDivIsFloor(4 * c + 3, 1461);
    var d := (4 * c + 3) / 1461;
    FloorDivIsFloor(1461 * d, 4);
    var e := c - 1461 * d / 4;
    FloorDivIsFloor(5 * e + 2, 153);
    var m := (5 * e + 2) / 153;
    FloorDivIsFloor(153 * m + 2, 5);
    FloorDivIsFloor(m, 10);
  }

  lemma {:induction false} CenturySplit(b: int, d: int)
    requires 0 <= d < 100
    ensures var y := 100 * b + d;
      365 * y + y / 4 - y / 100 + y / 400 == 146097 * b / 4 + 1461 * d / 4
  {
    var y := 100 * b + d;
    assert y / 100 == b;
    assert y / 4 == 25 * b + d / 4;
    assert y / 400 == b / 4;
    assert 146097 * b / 4 == 36524 * b + b / 4;
    assert 1461 * d / 4 == 365 * d + d / 4;
  }

  lemma {:induction false} YmdToJdIsCal(v: Ymd)
    requires 1 <= v.month <= 12
    ensures YmdToJd(v) == CalDays(YmdToCal(v)) - 32044
  {
    hide FloorDiv;
    var k := YmdToCal(v);
    FloorDivIsFloor(14 - v.month, 12);
    var a := (14 - v.month) / 12;
    var y := (if v.year < 0 then v.year + 1 else v.year) + 4800 - a;
    var m := v.month + 12 * a - 3;
    assert a == (if v.month <= 2 then 1 else 0) && m == k.m && y == 100 * k.b + k.d;
    FloorDivIsFloor(153 * m + 2, 5);
    FloorDivIsFloor(y, 4);
    FloorDivIsFloor(y, 100);
    FloorDivIsFloor(y, 400);
    CenturySplit(k.b, k.d);
  }

  // ----- splitting a day number -----

  lemma MonthTable(m: int)
    requires 0 <= m < 12
    ensures MonthStart(m) == [0, 31, 61, 92, 122, 153, 184, 214, 245, 275, 306, 337][m]
  {}

  /** The days of a year determine month and day. */
  lemma {:induction false} MonthOfDay(e: int, m: int, day: int)
    requires 0 <= m < 12 && e == MonthStart(m) + day
    requires 0 <= day < if m == 11 then 29 else if m == 1 || m == 3 || m == 6 || m == 8 then 30 else 31
    ensures (5 * e + 2) / 153 == m
  {
    MonthTable(m);
  }

  lemma {:induction false} DayInMonth(e: int)
    requires 0 <= e < 366
    ensures var m := (5 * e + 2) / 153;
      && 0 <= m < 12
      && 0 <= e - MonthStart(m)
      && e - MonthStart(m) < if m == 11 then 29 else if m == 1 || m == 3 || m == 6 || m == 8 then 30 else 31
  {
    var m := (5 * e + 2) / 153;
    MonthTable(m);
  }

  function YearLength(b: int, d: int): int {
    if LongYear(b, d) then 366 else 365
  }

  lemma YearStart(d: int)
    ensures 1461 * d / 4 == 365 * d + d / 4
  {}

  lemma CenturyStart(b: int)
    ensures 146097 * b / 4 == 36524 * b + b / 4
  {}

  /** The leap rule, year by year of a century. */
  lemma LongYearRule(b: int, d: int)
    requires 0 <= d < 100
    ensures d < 99 ==> (LongYear(b, d) <==> d % 4 == 3)
    ensures d == 99 ==> (LongYear(b, d) <==> b % 4 == 3)
  {
    var y := 100 * b + d + 1;
    if d == 99 {
      WholeCentury(b + 1);
    } else {
      YearOfCentury(b, d + 1);
      if y % 400 == 0 {
        var q := y / 400;
        assert y == 100 * (4 * q);
        QuotientUnique(y, 100, b);
        QuotientUnique(y, 100, 4 * q);
      }
    }
  }

  lemma WholeCentury(c: int)
    ensures 100 * c % 100 == 0 && 100 * c % 4 == 0
    ensures 100 * c % 400 == 0 <==> c % 4 == 0
  {
    QuotientUnique(100 * c, 100, c);
    QuotientUnique(100 * c, 4, 25 * c);
    QuotientUnique(100 * c, 400, c / 4);
  }

  lemma YearOfCentury(b: int, r: int)
    requires 0 < r < 100
    ensures (100 * b + r) % 100 == r && (100 * b + r) % 4 == r % 4
  {
    QuotientUnique(100 * b + r, 100, b);
    QuotientUnique(100 * b + r, 4, 25 * b + r / 4);
  }

  /** The next year of a century starts a year length later, and the next century where the last year ends. */
  lemma {:induction false} YearStep(b: int, d: int)
    requires 0 <= d < 100
    ensures d < 99 ==> 1461 * (d + 1) / 4 == 1461 * d / 4 + YearLength(b, d)
    ensures d == 99 ==> 146097 * (b + 1) / 4 == 146097 * b / 4 + 1461 * d / 4 + YearLength(b, d)
    ensures YearLength(b, d) <= 1461 * (d + 1) / 4 - 1461 * d / 4
  {
    hide LongYear;
    LongYearRule(b, d);
    YearStart(d);
    YearStart(d + 1);
    CenturyStart(b);
    CenturyStart(b + 1);
  }

  /** Days before year `d` of a century, as a function that grows year by year. */
  lemma {:induction false} YearsGrow(b: int, d: int)
    requires 0 <= d < 100
    ensures 146097 * b / 4 + 1461 * d / 4 + YearLength(b, d) <= 146097 * (b + 1) / 4
  {
    YearStep(b, 99);
    YearStep(b, d);
    assert 1461 * (d + 1) / 4 == 365 * (d + 1) + (d + 1) / 4;
    assert d < 99 ==> 1461 * (d + 1) / 4 <= 1461 * 99 / 4;
  }

  lemma DayOfYear(k: Cal)
    requires CalValid(k)
    ensures 0 <= MonthStart(k.m) + k.day < YearLength(k.b, k.d)
  {
    MonthTable(k.m);
  }

  /** Splitting the day number of a valid calendar date gives the date back. */
  lemma {:induction false} CalRoundTrip(k: Cal)
    requires CalValid(k)
    ensures CalOf(CalDays(k)) == k
  {
    hide LongYear;
    var a, e := CalDays(k), MonthStart(k.m) + k.day;
    DayOfYear(k);
    YearsGrow(k.b, k.d);
    CenturyOfDay(a, k.b);
    YearStep(k.b, k.d);
    YearOfDay(1461 * k.d / 4 + e, k.d);
    MonthOfDay(e, k.m, k.day);
  }

  lemma CenturyOfDay(a: int, b: int)
    requires 146097 * b / 4 <= a < 146097 * (b + 1) / 4
    ensures (4 * a + 3) / 146097 == b
  {
    QuotientUnique(4 * a + 3, 146097, b);
  }

  lemma YearOfDay(c: int, d: int)
    requires 1461 * d / 4 <= c < 1461 * (d + 1) / 4
    ensures (4 * c + 3) / 1461 == d
  {
    QuotientUnique(4 * c + 3, 1461, d);
  }

  /** Every day number splits into a valid calendar date, and back. */
  lemma {:induction false} DaysRoundTrip(a: int)
    ensures CalValid(CalOf(a)) && CalDays(CalOf(a)) == a
  {
    hide LongYear;
    var b := (4 * a + 3) / 146097;
    var c := a - 146097 * b / 4;
    assert 146097 * b <= 4 * a + 3 < 146097 * (b + 1);
    assert 0 <= c && a < 146097 * (b + 1) / 4;
    var d := (4 * c + 3) / 1461;
    assert 1461 * d <= 4 * c + 3 < 1461 * (d + 1);
    var e := c - 1461 * d / 4;
    assert 0 <= e && c < 1461 * (d + 1) / 4;
    CenturyLength(b);
    YearInCentury(c, d);
    YearStep(b, d);
    assert e < YearLength(b, d);
    DayInMonth(e);
    LastMonth(b, d, e);
  }

  lemma CenturyLength(b: int)
    ensures 146097 * (b + 1) / 4 - 146097 * b / 4 <= 36525
  {}

  lemma YearInCentury(c: int, d: int)
    requires 0 <= c < 36525 && d == (4 * c + 3) / 1461
    ensures 0 <= d < 100
  {}

  lemma LastMonth(b: int, d: int, e: int)
    requires 0 <= e < YearLength(b, d)
    ensures var m := (5 * e + 2) / 153; 0 <= m < 12 && 0 <= e - MonthStart(m) < MonthLength(b, d, m)
  {
    hide LongYear;
    DayInMonth(e);
    MonthTable((5 * e + 2) / 153);
  }

  // ----- valid dates of both calendars correspond -----

  lemma {:induction false} CalToYmdValid(k: Cal)
    requires CalValid(k)
    ensures IsValid(CalToYmd(k)) && YmdToCal(CalToYmd(k)) == k
  {
    var v := CalToYmd(k);
    var y := 100 * k.b + k.d;
    assert y / 100 == k.b && y % 100 == k.d;
    if k.m == 11 {
      ShiftedLeap(k, v.year);
    }
  }

  lemma ShiftedLeap(k: Cal, year: int)
    requires var t := 100 * k.b + k.d - 4800 + 1; year == if t <= 0 then t - 1 else t
    ensures IsLeapYear(year) == LongYear(k.b, k.d)
  {
    var t, y := 100 * k.b + k.d - 4800 + 1, 100 * k.b + k.d + 1;
    assert t == y - 4800;
    assert t % 4 == y % 4 && t % 100 == y % 100 && t % 400 == y % 400;
  }

  lemma {:induction false} YmdToCalValid(v: Ymd)
    requires IsValid(v)
    ensures 1 <= v.month <= 12 && CalValid(YmdToCal(v)) && CalToYmd(YmdToCal(v)) == v
  {
    var k := YmdToCal(v);
    if v.month == 2 {
      ShiftedLeap(k, v.year);
    }
  }

  // ----- the theorems -----

  /** Every valid date survives the trip through its day number. */
  lemma {:induction false} DateRoundTrip(v: Ymd)
    requires IsValid(v)
    ensures JdToYmd(YmdToJd(v)) == v
  {
    hide YmdToJd, JdToYmd, CalOf, CalDays, CalToYmd, YmdToCal, IsLeapYear;
    YmdToCalValid(v);
    YmdToJdIsCal(v);
    CalRoundTrip(YmdToCal(v));
    JdToYmdIsCal(YmdToJd(v));
  }

  /** Every day number is that of a valid date. */
  lemma {:induction false} DayRoundTrip(jd: int)
    ensures IsValid(JdToYmd(jd)) && YmdToJd(JdToYmd(jd)) == jd
  {
    hide YmdToJd, JdToYmd, CalOf, CalDays, CalToYmd, YmdToCal, IsLeapYear, MonthLength;
    var k := CalOf(jd + 32044);
    DaysRoundTrip(jd + 32044);
    JdToYmdIsCal(jd);
    CalToYmdValid(k);
    YmdToCalValid(JdToYmd(jd));
    YmdToJdIsCal(JdToYmd(jd));
  }

  /** Julian day numbers count from 24 November of the year -4714 of this calendar. */
  lemma {:induction false} Epoch()
    ensures YmdToJd(Ymd(-4714, 11, 24)) == 0 && JdToYmd(0) == Ymd(-4714, 11, 24)
    ensures YmdToJd(Ymd(2000, 1, 1)) == 2451545 && JdToYmd(2451545) == Ymd(2000, 1, 1)
  {
    hide FloorDiv, JdToYmd;
    FloorDivIsFloor(3, 12);
    FloorDivIsFloor(1226, 5);
    FloorDivIsFloor(87, 4);
    FloorDivIsFloor(87, 100);
    FloorDivIsFloor(87, 400);
    FloorDivIsFloor(13, 12);
    FloorDivIsFloor(1532, 5);
    FloorDivIsFloor(6799, 4);
    FloorDivIsFloor(6799, 100);
    FloorDivIsFloor(6799, 400);
    DateRoundTrip(Ymd(-4714, 11, 24));
    DateRoundTrip(Ymd(2000, 1, 1));
  }

  /** The calendar's own successor: by month lengths and leap years, without day numbers. */
  function NextDate(v: Ymd): Ymd {
    var last := if v.month == 2 && IsLeapYear(v.year) then 29 else DaysInMonth(v.month);
    if v.day < last then Ymd(v.year, v.month, v.day + 1)
    else if v.month < 12 then Ymd(v.year, v.month + 1, 1)
    else Ymd(if v.year == -1 then 1 else v.year + 1, 1, 1)
  }

  function NextCal(k: Cal): Cal
    requires 0 <= k.m < 12
  {
    if k.day + 1 < MonthLength(k.b, k.d, k.m) then Cal(k.b, k.d, k.m, k.day + 1)
    else if k.m < 11 then Cal(k.b, k.d, k.m + 1, 0)
    else if k.d < 99 then Cal(k.b, k.d + 1, 0, 0)
    else Cal(k.b + 1, 0, 0, 0)
  }

  lemma {:induction false} NextCalDays(k: Cal)
    requires CalValid(k)
    ensures CalValid(NextCal(k)) && CalDays(NextCal(k)) == CalDays(k) + 1
  {
    MonthTable(k.m);
    YearStep(k.b, k.d);
    if k.m < 11 {
      MonthTable(k.m + 1);
    } else {
      MonthTable(0);
    }
  }

  lemma {:induction false} NextDateIsNextCal(k: Cal)
    requires CalValid(k)
    ensures NextDate(CalToYmd(k)) == CalToYmd(NextCal(k))
  {
    var v := CalToYmd(k);
    if v.month == 2 {
      ShiftedLeap(k, v.year);
    }
  }

  /** The day after, by day number, is the day after in the calendar. */
  lemma {:induction false} NextDay(jd: int)
    ensures JdToYmd(jd + 1) == NextDate(JdToYmd(jd))
  {
    hide JdToYmd, CalOf, CalDays, CalToYmd, NextCal, NextDate, MonthLength;
    var k := CalOf(jd + 32044);
    DaysRoundTrip(jd + 32044);
    JdToYmdIsCal(jd);
    NextCalDays(k);
    CalRoundTrip(NextCal(k));
    JdToYmdIsCal(jd + 1);
    NextDateIsNextCal(k);
  }

  // ----- order -----

  /** Earlier in the calendar: by year, then month, then day. */
  predicate Before(v: Ymd, w: Ymd) {
    v.year < w.year || (v.year == w.year && (v.month < w.month || (v.month == w.month && v.day < w.day)))
  }

  predicate CalBefore(k: Cal, l: Cal) {
    || k.b < l.b
    || (k.b == l.b && (k.d < l.d || (k.d == l.d && (k.m < l.m || (k.m == l.m && k.day < l.day)))))
  }

  lemma {:induction false} CalDaysOrder(k: Cal, l: Cal)
    requires CalValid(k) && CalValid(l) && CalBefore(k, l)
    ensures CalDays(k) < CalDays(l)
  {
    hide LongYear;
    MonthTable(k.m);
    MonthTable(l.m);
    DayOfYear(k);
    DayOfYear(l);
    YearsGrow(k.b, k.d);
    YearStep(k.b, k.d);
  }

  lemma {:induction false} BeforeIsCalBefore(v: Ymd, w: Ymd)
    requires IsValid(v) && IsValid(w) && Before(v, w)
    ensures CalBefore(YmdToCal(v), YmdToCal(w))
  {
    hide IsLeapYear;
  }

  /** Comparing day numbers compares dates. */
  lemma {:induction false} DateOrder(v: Ymd, w: Ymd)
    requires IsValid(v) && IsValid(w)
    ensures Before(v, w) <==> YmdToJd(v) < YmdToJd(w)
  {
    hide YmdToJd, CalDays, YmdToCal, CalBefore, IsLeapYear;
    YmdToCalValid(v);
    YmdToCalValid(w);
    YmdToJdIsCal(v);
    YmdToJdIsCal(w);
    if Before(v, w) {
      BeforeIsCalBefore(v, w);
      CalDaysOrder(YmdToCal(v), YmdToCal(w));
    } else if Before(w, v) {
      BeforeIsCalBefore(w, v);
      CalDaysOrder(YmdToCal(w), YmdToCal(v));
    } else {
      assert v == w;
    }
  }

  // ----- 32-bit arithmetic -----

  predicate Int32(x: int) {
    -0x8000_0000 <= x < 0x8000_0000
  }

  /** The values computed by one FloorDiv with a positive divisor fit. */
  predicate DivFits(a: int, b: int)
    requires b > 0
  {
    Int32(a) && Int32(a - if a < 0 then b - 1 else 0)
  }

  /** No intermediate of JdToYmd overflows. */
  predicate JdToYmdFits(jd: int) {
    var a := jd + 32044;
    var b := FloorDiv(4 * a + 3, 146097);
    var c := a - FloorDiv(146097 * b, 4);
    var d := FloorDiv(4 * c + 3, 1461);
    var e := c - FloorDiv(1461 * d, 4);
    var m := FloorDiv(5 * e + 2, 153);
    && Int32(jd) && Int32(a) && Int32(4 * a) && DivFits(4 * a + 3, 146097)
    && DivFits(146097 * b, 4) && Int32(c) && Int32(4 * c) && DivFits(4 * c + 3, 1461)
    && DivFits(1461 * d, 4) && Int32(e) && Int32(5 * e) && DivFits(5 * e + 2, 153)
    && DivFits(153 * m + 2, 5) && DivFits(m, 10)
    && Int32(e - FloorDiv(153 * m + 2, 5) + 1) && Int32(m + 3 - 12 * FloorDiv(m, 10))
    && Int32(100 * b) && Int32(100 * b + d) && Int32(100 * b + d - 4800)
    && Int32(100 * b + d - 4800 + FloorDiv(m, 10)) && Int32(JdToYmd(jd).year)
  }

  const LOWEST_JD: int := -536866432
  const HIGHEST_JD: int := 536838867

  /** Exactly the day numbers that JdToYmd converts without overflow. The lower end is not where
      `4 * (jd + 32044) + 3` leaves the range but where the correction inside FloorDiv does. */
  lemma {:induction false} JdToYmdRange(jd: int)
    ensures JdToYmdFits(jd) <==> LOWEST_JD <= jd <= HIGHEST_JD
  {
    hide FloorDiv, JdToYmd, CalOf;
    var a := jd + 32044;
    var k := CalOf(a);
    FloorDivIsFloor(4 * a + 3, 146097);
    if LOWEST_JD <= jd <= HIGHEST_JD {
      RangeFits(jd);
    }
  }

  lemma {:induction false} RangeBounds(a: int)
    requires LOWEST_JD + 32044 <= a <= HIGHEST_JD + 32044
    ensures var b := (4 * a + 3) / 146097;
      && -14699 <= b <= 14699
      && 0 <= a - 146097 * b / 4 <= 36524
  {}

  lemma {:induction false} SmallBounds(c: int)
    requires 0 <= c <= 36524
    ensures var d := (4 * c + 3) / 1461;
      var e := c - 1461 * d / 4;
      var m := (5 * e + 2) / 153;
      0 <= d < 100 && 0 <= e <= 365 && 0 <= m < 12 && 0 <= (153 * m + 2) / 5 <= 337
  {}

  lemma {:induction false} RangeFits(jd: int)
    requires LOWEST_JD <= jd <= HIGHEST_JD
    ensures JdToYmdFits(jd)
  {
    hide FloorDiv;
    var a := jd + 32044;
    FloorDivIsFloor(4 * a + 3, 146097);
    RangeBounds(a);
    var b := (4 * a + 3) / 146097;
    FloorDivIsFloor(146097 * b, 4);
    var c := a - 146097 * b / 4;
    FloorDivIsFloor(4 * c + 3, 1461);
    SmallBounds(c);
    var d := (4 * c + 3) / 1461;
    FloorDivIsFloor(1461 * d, 4);
    var e := c - 1461 * d / 4;
    FloorDivIsFloor(5 * e + 2, 153);
    var m := (5 * e + 2) / 153;
    FloorDivIsFloor(153 * m + 2, 5);
    FloorDivIsFloor(m, 10);
  }

  /** A day number for which `4 * (jd + 32044) + 3` fits in 32 bits and the conversion still overflows. */
  lemma OverflowBelow()
    ensures Int32(4 * (-536866433 + 32044) + 3) && !JdToYmdFits(-536866433)
  {
    JdToYmdRange(-536866433);
  }

  /** No intermediate of YmdToJd overflows. */
  predicate YmdToJdFits(v: Ymd) {
    var tYear := if v.year < 0 then v.year + 1 else v.year;
    var a := FloorDiv(14 - v.month, 12);
    var y := tYear + 4800 - a;
    var m := v.month + 12 * a - 3;
    var days := v.day + FloorDiv(153 * m + 2, 5);
    && Int32(v.year) && Int32(14 - v.month) && Int32(tYear + 4800) && Int32(y) && Int32(12 * a)
    && Int32(m) && DivFits(153 * m + 2, 5) && Int32(days) && Int32(365 * y) && Int32(days + 365 * y)
    && DivFits(y, 4) && DivFits(y, 100) && DivFits(y, 400)
    && Int32(days + 365 * y + FloorDiv(y, 4))
    && Int32(days + 365 * y + FloorDiv(y, 4) - FloorDiv(y, 100))
    && Int32(days + 365 * y + FloorDiv(y, 4) - FloorDiv(y, 100) + FloorDiv(y, 400))
    && Int32(YmdToJd(v))
  }

  /** A date whose day number converts back without overflow is also converted without overflow, so on this
      range both round trips hold of the 32-bit program. */
  lemma {:induction false} YmdToJdInRange(v: Ymd)
    requires IsValid(v) && LOWEST_JD <= YmdToJd(v) <= HIGHEST_JD
    ensures YmdToJdFits(v) && JdToYmdFits(YmdToJd(v)) && JdToYmd(YmdToJd(v)) == v
  {
    hide FloorDiv, YmdToJd, JdToYmd, JdToYmdFits, CalDays, CalOf, YmdToCal, IsLeapYear;
    var a := YmdToJd(v) + 32044;
    var k := YmdToCal(v);
    YmdToCalValid(v);
    YmdToJdIsCal(v);
    CalRoundTrip(k);
    RangeBounds(a);
    CalCentury(a);
    DateRoundTrip(v);
    RangeFits(YmdToJd(v));
    YearSpan(v);
    SmallYearFits(v);
  }

  lemma CalCentury(a: int)
    ensures CalOf(a).b == (4 * a + 3) / 146097
  {}

  lemma {:induction false} YearSpan(v: Ymd)
    requires IsValid(v) && -14699 <= YmdToCal(v).b <= 14699
    ensures -1500000 <= v.year <= 1500000
  {
    hide IsLeapYear;
  }

  lemma QuotientFits(y: int, b: int)
    requires -1600000 <= y <= 1600000 && 4 <= b <= 400
    ensures DivFits(y, b) && -400000 <= FloorDiv(y, b) <= 400000
  {
    hide FloorDiv;
    FloorDivIsFloor(y, b);
    var q := FloorDiv(y, b);
    MulStep(400000, q, b);
    MulStep(q, -400000, b);
  }

  lemma MonthFits(month: int)
    requires 1 <= month <= 12
    ensures var a := FloorDiv(14 - month, 12);
      var m := month + 12 * a - 3;
      0 <= a <= 1 && 0 <= m <= 11 && DivFits(153 * m + 2, 5) && 0 <= FloorDiv(153 * m + 2, 5) <= 337
  {
    hide FloorDiv;
    FloorDivIsFloor(14 - month, 12);
    var a := (14 - month) / 12;
    FloorDivIsFloor(153 * (month + 12 * a - 3) + 2, 5);
  }

  lemma {:induction false} SmallYearFits(v: Ymd)
    requires IsValid(v) && -1500000 <= v.year <= 1500000
    ensures YmdToJdFits(v)
  {
    hide FloorDiv, IsLeapYear, DivFits;
    MonthFits(v.month);
    var y := (if v.year < 0 then v.year + 1 else v.year) + 4800 - FloorDiv(14 - v.month, 12);
    QuotientFits(y, 4);
    QuotientFits(y, 100);
    QuotientFits(y, 400);
  }

  // ----- where YmdToJd itself overflows -----

  const FIRST_DATE := Ymd(-5884291, 5, 14)
  const LAST_DATE := Ymd(5874689, 12, 15)

  predicate Between(first: Ymd, v: Ymd, last: Ymd) {
    !Before(v, first) && !Before(last, v)
  }

  /** Year counted from March -4800, and day of that year from 1. */
  function MarchYear(v: Ymd): int {
    (if v.year < 0 then v.year + 1 else v.year) + 4800 - if v.month <= 2 then 1 else 0
  }

  function MarchDay(v: Ymd): int {
    v.day + MonthStart(if v.month <= 2 then v.month + 9 else v.month - 3)
  }

  /** The largest sum of the formula, before the corrections for centuries. */
  function Sum4(v: Ymd): int {
    MarchDay(v) + 365 * MarchYear(v) + MarchYear(v) / 4
  }

  lemma MarchDayBounds(v: Ymd)
    requires IsValid(v)
    ensures 1 <= MarchDay(v) <= 368 && 1 <= v.month <= 12
  {
    hide IsLeapYear;
    MonthTable(if v.month <= 2 then v.month + 9 else v.month - 3);
  }

  /** In the years of the first and last date the day of the year decides. */
  lemma {:induction false} EdgeYears(v: Ymd)
    requires IsValid(v)
    ensures MarchYear(v) == MarchYear(LAST_DATE) ==> (MarchDay(v) <= 290 <==> !Before(LAST_DATE, v))
    ensures MarchYear(v) == MarchYear(FIRST_DATE) ==> (MarchDay(v) >= 75 <==> !Before(v, FIRST_DATE))
  {
    hide IsLeapYear;
    MarchDayBounds(v);
    MonthTable(if v.month <= 2 then v.month + 9 else v.month - 3);
  }

  lemma {:induction false} SumFits(v: Ymd)
    requires IsValid(v)
    ensures Int32(Sum4(v)) <==> Between(FIRST_DATE, v, LAST_DATE)
  {
    hide IsLeapYear, MonthStart, MarchDay;
    MarchDayBounds(v);
    EdgeYears(v);
  }

  lemma WideQuotientFits(y: int, b: int)
    requires -6000000 <= y <= 6000000 && 4 <= b <= 400
    ensures DivFits(y, b)
  {
    hide FloorDiv;
    FloorDivIsFloor(y, b);
  }

  /** The parts of the formula. */
  lemma {:induction false} FormulaParts(v: Ymd)
    requires IsValid(v)
    ensures var tYear, a := if v.year < 0 then v.year + 1 else v.year, FloorDiv(14 - v.month, 12);
      var y, m := tYear + 4800 - a, v.month + 12 * a - 3;
      && 0 <= a <= 1 && 0 <= m <= 11 && DivFits(153 * m + 2, 5) && y == MarchYear(v)
      && v.day + FloorDiv(153 * m + 2, 5) == MarchDay(v)
      && FloorDiv(y, 4) == y / 4 && FloorDiv(y, 100) == y / 100 && FloorDiv(y, 400) == y / 400
  {
    hide FloorDiv, IsLeapYear, DivFits;
    MarchDayBounds(v);
    MonthFits(v.month);
    FloorDivIsFloor(14 - v.month, 12);
    var y, m := MarchYear(v), if v.month <= 2 then v.month + 9 else v.month - 3;
    FloorDivIsFloor(153 * m + 2, 5);
    FloorDivIsFloor(y, 4);
    FloorDivIsFloor(y, 100);
    FloorDivIsFloor(y, 400);
  }

  lemma {:induction false} YearBound(v: Ymd)
    requires IsValid(v) && Int32(Sum4(v))
    ensures -5890000 <= MarchYear(v) <= 5890000
  {
    hide IsLeapYear, MarchDay, MarchYear;
    MarchDayBounds(v);
  }

  /** Exactly the valid dates whose day number YmdToJd computes without overflow. */
  lemma {:induction false} YmdToJdRange(v: Ymd)
    requires IsValid(v)
    ensures YmdToJdFits(v) <==> Between(FIRST_DATE, v, LAST_DATE)
  {
    hide FloorDiv, IsLeapYear, DivFits, MarchDay, Between;
    SumFits(v);
    FormulaParts(v);
    MarchDayBounds(v);
    if Int32(Sum4(v)) {
      YearBound(v);
      WideQuotientFits(MarchYear(v), 4);
      WideQuotientFits(MarchYear(v), 100);
      WideQuotientFits(MarchYear(v), 400);
    }
  }

  /** Day numbers of dates that YmdToJd can convert are not the invalid mark. */
  lemma {:induction false} MarkIsNoDay(v: Ymd)
    requires IsValid(v) && YmdToJdFits(v)
    ensures YmdToJd(v) > DATE_JD_INVALID
  {
    hide FloorDiv, IsLeapYear, DivFits, MarchDay, Between;
    YmdToJdRange(v);
    SumFits(v);
    FormulaParts(v);
    YearBound(v);
    MarchDayBounds(v);
  }

  // ----- the date object -----

  datatype Outcome<T> = Value(value: T) | Overflow

  /** The day number Set leaves behind. */
  function Stored(v: Ymd): Outcome<int> {
    if !IsValid(v) then Value(DATE_JD_INVALID) else if YmdToJdFits(v) then Value(YmdToJd(v)) else Overflow
  }

  /** What Get reads from a day number. */
  function Fetched(jd: int): Outcome<Ymd> {
    if jd == DATE_JD_INVALID then Value(Ymd(0, 0, 0)) else if JdToYmdFits(jd) then Value(JdToYmd(jd)) else Overflow
  }

  /** Set followed by Get. */
  function SetGet(v: Ymd): Outcome<Ymd> {
    match Stored(v)
    case Overflow => Overflow
    case Value(jd) => Fetched(jd)
  }

  const EARLIEST := Ymd(-1474604, 7, 13)
  const LATEST := Ymd(1465102, 10, 18)

  lemma {:induction false} DayRange(v: Ymd)
    requires IsValid(v)
    ensures LOWEST_JD <= YmdToJd(v) <= HIGHEST_JD <==> Between(EARLIEST, v, LATEST)
  {
    hide YmdToJd, IsLeapYear;
    Edges();
    DateOrder(v, EARLIEST);
    DateOrder(LATEST, v);
  }

  lemma Edges()
    ensures IsValid(EARLIEST) && IsValid(LATEST)
    ensures YmdToJd(EARLIEST) == LOWEST_JD && YmdToJd(LATEST) == HIGHEST_JD
  {}

  /** Get returns the date that Set was given exactly if that date is valid and lies between the dates of the
      lowest and highest day numbers that can be converted. It returns zeros exactly if the date is invalid;
      for all other dates the 32-bit arithmetic overflows. */
  lemma {:induction false} SetThenGet(v: Ymd)
    ensures SetGet(v) == Value(v) && v != Ymd(0, 0, 0) <==> IsValid(v) && Between(EARLIEST, v, LATEST)
    ensures SetGet(v) == Value(Ymd(0, 0, 0)) <==> !IsValid(v)
    ensures SetGet(v).Overflow? <==> IsValid(v) && !Between(EARLIEST, v, LATEST)
  {
    hide YmdToJd, JdToYmd, JdToYmdFits, YmdToJdFits, Between, IsLeapYear;
    if IsValid(v) {
      DateRoundTrip(v);
      DayRange(v);
      JdToYmdRange(YmdToJd(v));
      if YmdToJdFits(v) {
        MarkIsNoDay(v);
      }
      if Between(EARLIEST, v, LATEST) {
        YmdToJdInRange(v);
      }
    }
  }

  /** A valid date that Set stores as a day number from which Get cannot compute a date. */
  lemma SetThenGetOverflows()
    ensures var v := Ymd(3000000, 1, 1); IsValid(v) && Stored(v) == Value(YmdToJd(v)) && SetGet(v).Overflow?
  {
    var v := Ymd(3000000, 1, 1);
    YmdToJdRange(v);
    SetThenGet(v);
  }

  class Date {
    var jd: int

    constructor (year: int, month: int, day: int)
      ensures var v := Ymd(year, month, day);
        && (Stored(v).Value? ==> jd == Stored(v).value)
        && (IsValid(v) && YmdToJdFits(v) ==> jd != DATE_JD_INVALID && JdToYmd(jd) == v)
    {
      jd := DATE_JD_INVALID;
      new;
      Set(year, month, day);
    }

    /** The stored number is the one of this date, or the invalid mark; nothing is promised on overflow. */
    method Set(year: int, month: int, day: int)
      modifies this`jd
      ensures var v := Ymd(year, month, day);
        && (Stored(v).Value? ==> jd == Stored(v).value)
        && (IsValid(v) && YmdToJdFits(v) ==> jd != DATE_JD_INVALID && JdToYmd(jd) == v)
    {
      hide YmdToJd, JdToYmd, YmdToJdFits, IsLeapYear;
      var v := Ymd(year, month, day);
      if IsValid(v) {
        jd := YmdToJd(v);
        DateRoundTrip(v);
        if YmdToJdFits(v) {
          MarkIsNoDay(v);
        }
      } else {
        jd := DATE_JD_INVALID;
      }
    }

    method Get() returns (year: int, month: int, day: int)
      ensures Fetched(jd).Value? ==> Ymd(year, month, day) == Fetched(jd).value
      ensures jd != DATE_JD_INVALID && JdToYmdFits(jd) ==>
        IsValid(Ymd(year, month, day)) && YmdToJd(Ymd(year, month, day)) == jd
    {
      hide YmdToJd, JdToYmd, JdToYmdFits, IsLeapYear;
      if jd == DATE_JD_INVALID {
        year, month, day := 0, 0, 0;
      } else {
        var v := JdToYmd(jd);
        DayRoundTrip(jd);
        year, month, day := v.year, v.month, v.day;
      }
    }

    /** Days in the month of the stored date, where its date can be computed. */
    method LengthOfMonth() returns (days: int)
      ensures jd == DATE_JD_INVALID ==> days == 0
      ensures LOWEST_JD <= jd <= HIGHEST_JD ==>
        forall day: int {:trigger Ymd(JdToYmd(jd).year, JdToYmd(jd).month, day)} ::
          IsValid(Ymd(JdToYmd(jd).year, JdToYmd(jd).month, day)) <==> 1 <= day <= days
    {
      hide JdToYmd, YmdToJd, IsLeapYear;
      if jd == DATE_JD_INVALID {
        return 0;
      }
      var v := JdToYmd(jd);
      DayRoundTrip(jd);
      if v.month == 2 && IsLeapYear(v.year) {
        return 29;
      }
      days := DaysInMonth(v.month);
    }
  }
}
