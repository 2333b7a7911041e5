/** Conversion between proleptic Gregorian dates and Julian day numbers, in 32-bit integer arithmetic. */
module JulianDays {

  type int32 = i: int | -0x8000_0000 <= i < 0x8000_0000

  datatype Date = Date(y: int, m: int, d: int)

  /** Integer division of C++: towards zero. */
  function Quot(a: int, b: int): int
    requires b > 0
  {
    if a >= 0 then a / b else -(-a / b)
  }

  predicate Leap(y: int) {
    y % 4 == 0 && (y % 100 != 0 || y % 400 == 0)
  }

  function DaysIn(y: int, m: int): int {
    if m == 2 then (if Leap(y) then 29 else 28)
    else if m == 4 || m == 6 || m == 9 || m == 11 then 30
    else 31
  }

  /** A date of the calendar, from year 1 on. */
  predicate Valid(t: Date) {
    1 <= t.y && 1 <= t.m <= 12 && 1 <= t.d <= DaysIn(t.y, t.m)
  }

  predicate Before(s: Date, t: Date) {
    s.y < t.y || (s.y == t.y && (s.m < t.m || (s.m == t.m && s.d < t.d)))
  }

  function NextDay(t: Date): Date {
    if t.d < DaysIn(t.y, t.m) then t.(d := t.d + 1)
    else if t.m < 12 then Date(t.y, t.m + 1, 1)
    else Date(t.y + 1, 1, 1)
  }

  /** The formula of ymd2jd. */
  function ToJd(t: Date): int {
    Quot(1461 * (t.y + 4800 + Quot(t.m - 14, 12)), 4)
    + Quot(367 * (t.m - 2 - 12 * Quot(t.m - 14, 12)), 12)
    - Quot(3 * Quot(t.y + 4900 + Quot(t.m - 14, 12), 100), 4) + t.d - 32075
  }

  /** The formulas of jd2ymd. */
  function FromJd(jd: int): Date {
    var l := jd + 68569;
    var n := Quot(4 * l, 146097);
    var l1 := l - Quot(146097 * n + 3, 4);
    var i := Quot(4000 * (l1 + 1), 1461001);
    var l2 := l1 - Quot(1461 * i, 4) + 31;
    var j := Quot(80 * l2, 2447);
    var l3 := Quot(j, 11);
    Date(100 * (n - 49) + i + l3, j + 2 - 12 * l3, l2 - Quot(2447 * j, 80))
  }

  // ----- years that start in March -----

  /** Year, counted from 1 March 4801 BC, and month, counted from March. */
  function Y(t: Date): int { t.y + 4800 - (if t.m <= 2 then 1 else 0) }

  function M(t: Date): int { if t.m <= 2 then t.m + 10 else t.m - 2 }

  /** Days before the year, less a constant; days of the year before the date. */
  function YearStart(y: int): int { 1461 * y / 4 - 3 * ((y + 100) / 100) / 4 }

  function DayOfYear(m: int, d: int): int { 367 * m / 12 + d - 31 }

  lemma ToJdIs(t: Date)
    requires Valid(t)
    ensures ToJd(t) == YearStart(Y(t)) + DayOfYear(M(t), t.d) - 32044
    ensures Y(t) >= 4800 && 1 <= M(t) <= 12
  {
    assert Quot(t.m - 14, 12) == if t.m <= 2 then -1 else 0;
  }

  /** The month formula: a month is at most as long as the distance to the next one. */
  lemma MonthLength(t: Date)
    requires Valid(t)
    ensures 0 <= DayOfYear(M(t), t.d) <= 365
    ensures M(t) < 12 ==> DayOfYear(M(t), DaysIn(t.y, t.m)) + 1 == DayOfYear(M(t) + 1, 1)
    ensures M(t) == 12 ==> DayOfYear(M(t), t.d) <= 336 + 29 && (DayOfYear(M(t), t.d) == 365 ==> Leap(t.y))
  {
    var m := M(t);
    if m == 1 {} else if m == 2 {} else if m == 3 {} else if m == 4 {} else if m == 5 {} else if m == 6 {}
    else if m == 7 {} else if m == 8 {} else if m == 9 {} else if m == 10 {} else if m == 11 {} else {}
  }

  lemma FourYears(y: int)
    ensures 1461 * (y + 1) / 4 == 1461 * y / 4 + if (y + 1) % 4 == 0 then 366 else 365
  {
    QuarterDays(y);
    QuarterDays(y + 1);
  }

  lemma QuarterDays(y: int)
    ensures 1461 * y / 4 == 365 * y + y / 4
  {
    assert 1461 * y == 4 * (365 * y) + y;
  }

  lemma FourCenturies(c: int)
    ensures 3 * (c + 1) / 4 == 3 * c / 4 + if c % 4 == 0 then 0 else 1
    ensures (100 * c) % 400 == 0 <==> c % 4 == 0
  {
    var a, r := c / 4, c % 4;
    ThreeQuarters(c, a, r);
    if r < 3 {
      ThreeQuarters(c + 1, a, r + 1);
    } else {
      ThreeQuarters(c + 1, a + 1, 0);
    }
    HundredFold(c, a, r);
  }

  lemma ThreeQuarters(c: int, a: int, r: int)
    requires c == 4 * a + r && 0 <= r < 4
    ensures 3 * c / 4 == 3 * a + if r < 2 then 0 else r - 1
  {
    assert 3 * c == 4 * (3 * a) + 3 * r;
  }

  lemma HundredFold(c: int, a: int, r: int)
    requires c == 4 * a + r && 0 <= r < 4
    ensures (100 * c) % 400 == 100 * r
  {
    assert 100 * c == 400 * a + 100 * r;
  }

  /** A March year has 366 days if the February at its end has 29. */
  lemma YearLength(y: int)
    ensures YearStart(y + 1) == YearStart(y) + if Leap(y - 4799) then 366 else 365
  {
    hide Leap;
    FourYears(y);
    CenturyTerm(y);
    LeapShift(y);
  }

  lemma CenturyTerm(y: int)
    ensures 3 * ((y + 101) / 100) / 4 ==
      3 * ((y + 100) / 100) / 4 + if (y + 1) % 100 == 0 && (y + 1) % 400 != 0 then 1 else 0
    ensures (y + 1) % 100 == 0 ==> (y + 1) % 4 == 0
  {
    var c, r := (y + 100) / 100, (y + 100) % 100;
    if r == 99 {
      Hundreds(y + 101, c + 1, 0);
      Hundreds(y + 1, c, 0);
      FourCenturies(c);
      ModFour(y + 1, 25 * c, 0);
    } else {
      Hundreds(y + 101, c, r + 1);
      Hundreds(y + 1, c - 1, r + 1);
    }
  }

  lemma Hundreds(x: int, q: int, r: int)
    requires x == 100 * q + r && 0 <= r < 100
    ensures x / 100 == q && x % 100 == r
  {
  }

  lemma ModFour(x: int, k: int, r: int)
    requires x == 4 * k + r
    ensures x % 4 == r % 4
  {
  }

  lemma LeapShift(y: int)
    ensures Leap(y - 4799) <==> (y + 1) % 4 == 0 && ((y + 1) % 100 != 0 || (y + 1) % 400 == 0)
  {
    Shift4(y - 4799);
    Shift100(y - 4799);
    Shift400(y - 4799);
  }

  lemma Shift4(x: int)
    ensures (x + 4800) % 4 == x % 4
  {
  }

  lemma Shift100(x: int)
    ensures (x + 4800) % 100 == x % 100
  {
  }

  lemma Shift400(x: int)
    ensures (x + 4800) % 400 == x % 400
  {
  }

  // ----- consecutive days -----

  /** The next day is a date with the next number. */
  lemma NextDayAddsOne(t: Date)
    requires Valid(t)
    ensures Valid(NextDay(t)) && ToJd(NextDay(t)) == ToJd(t) + 1
  {
    hide ToJd, YearStart;
    var u := NextDay(t);
    ToJdIs(t);
    ToJdIs(u);
    MonthLength(t);
    if t.m == 2 && t.d == DaysIn(t.y, 2) {
      YearLength(Y(t));
    }
  }

  /** Every number from that of 1 January 1 on is the number of a date. */
  lemma {:induction false} EveryNumber(jd: int) returns (t: Date)
    requires jd >= 1721426
    ensures Valid(t) && ToJd(t) == jd
    decreases jd
  {
    if jd == 1721426 {
      t := Date(1, 1, 1);
    } else {
      hide ToJd, NextDay;
      var s := EveryNumber(jd - 1);
      NextDayAddsOne(s);
      t := NextDay(s);
    }
  }

  // ----- order -----

  lemma {:induction false} YearsGrow(y: int, z: int)
    requires y < z
    ensures YearStart(y) + 365 <= YearStart(z)
    ensures YearStart(y) + (if Leap(y - 4799) then 366 else 365) <= YearStart(z)
    decreases z - y
  {
    hide YearStart, Leap;
    YearLength(z - 1);
    if y < z - 1 {
      YearsGrow(y, z - 1);
    }
  }

  lemma MonthsGrow(t: Date, m: int)
    requires Valid(t) && M(t) < m <= 12
    ensures DayOfYear(M(t), t.d) < DayOfYear(m, 1)
  {
    var k := M(t);
    if k == 1 {} else if k == 2 {} else if k == 3 {} else if k == 4 {} else if k == 5 {} else if k == 6 {}
    else if k == 7 {} else if k == 8 {} else if k == 9 {} else if k == 10 {} else if k == 11 {} else {}
  }

  /** Later dates have larger numbers. */
  lemma StrictlyIncreasing(s: Date, t: Date)
    requires Valid(s) && Valid(t) && Before(s, t)
    ensures ToJd(s) < ToJd(t)
  {
    hide ToJd, YearStart, Leap;
    ToJdIs(s);
    ToJdIs(t);
    MonthLength(s);
    MonthLength(t);
    if Y(s) < Y(t) {
      YearsGrow(Y(s), Y(t));
      DaysOfYear(s);
    } else {
      MarchOrder(s, t);
      if M(s) < M(t) {
        MonthsGrow(s, M(t));
      }
    }
  }

  lemma DaysOfYear(t: Date)
    requires Valid(t)
    ensures DayOfYear(M(t), t.d) < if Leap(Y(t) - 4799) then 366 else 365
  {
    MonthLength(t);
    if M(t) < 12 {
      MonthsGrow(t, 12);
    }
  }

  lemma MarchOrder(s: Date, t: Date)
    requires Valid(s) && Valid(t) && Before(s, t)
    ensures Y(s) < Y(t) || (Y(s) == Y(t) && (M(s) < M(t) || (M(s) == M(t) && s.d < t.d)))
  {
  }

  /** Some known days: with NextDayAddsOne they fix the number of every date. */
  lemma KnownDays()
    ensures ToJd(Date(1, 1, 1)) == 1721426 && ToJd(Date(1858, 11, 17)) == 2400001
    ensures ToJd(Date(2000, 1, 1)) == 2451545
  {
    hide ToJd;
    FirstDay();
    ModifiedDay();
    Millennium();
  }

  lemma YearIs(y: int, days: int, c: int)
    requires 4 * days <= 1461 * y < 4 * days + 4 && 100 * c <= y + 100 < 100 * c + 100
    ensures YearStart(y) == days - 3 * c / 4
  {
  }

  lemma MonthIs(m: int, d: int)
    ensures DayOfYear(m, d) == 367 * m / 12 + d - 31
  {
  }

  lemma FirstDay()
    ensures ToJd(Date(1, 1, 1)) == 1721426
  {
    hide ToJd, YearStart, DayOfYear;
    ToJdIs(Date(1, 1, 1));
    YearIs(4800, 1753200, 49);
    MonthIs(11, 1);
  }

  lemma ModifiedDay()
    ensures ToJd(Date(1858, 11, 17)) == 2400001
  {
    hide ToJd, YearStart, DayOfYear;
    ToJdIs(Date(1858, 11, 17));
    YearIs(6658, 2431834, 67);
    MonthIs(9, 17);
  }

  lemma Millennium()
    ensures ToJd(Date(2000, 1, 1)) == 2451545
  {
    hide ToJd, YearStart, DayOfYear;
    ToJdIs(Date(2000, 1, 1));
    YearIs(6799, 2483334, 68);
    MonthIs(11, 1);
  }

  /** February has 29 days every fourth year, but of the hundreds only every fourth. */
  lemma Februaries()
    ensures NextDay(Date(1900, 2, 28)) == Date(1900, 3, 1) && NextDay(Date(2000, 2, 28)) == Date(2000, 2, 29)
    ensures NextDay(Date(2004, 2, 28)) == Date(2004, 2, 29) && NextDay(Date(2005, 2, 28)) == Date(2005, 3, 1)
  {
  }

  // ----- round trips -----

  /** The day number, counted from 1 March 4801 BC, splits into centuries and days of the century. */
  lemma Centuries(y: int, day: int)
    requires y >= 4800
    ensures var c, i := (y + 100) / 100, (y + 100) % 100;
      YearStart(y) + day - 32044 + 68569 == (146097 * c + 3) / 4 + (1461 * i / 4 + day)
  {
    var c, i := (y + 100) / 100, (y + 100) % 100;
    assert y == 100 * (c - 1) + i;
    QuarterDays(y);
    QuarterDays(i);
    assert y / 4 == 25 * (c - 1) + i / 4;
    CenturyDays(c);
  }

  lemma CenturyDays(c: int)
    ensures (146097 * c + 3) / 4 == 36525 * c - 3 * c / 4
    ensures 4 * ((146097 * c + 3) / 4) - 146097 * c ==
      if c % 4 == 0 then 0 else if c % 4 == 1 then 3 else if c % 4 == 2 then 2 else 1
  {
    var a, r := c / 4, c % 4;
    assert c == 4 * a + r && 3 * c == 4 * (3 * a) + 3 * r;
    assert 146097 * c + 3 == 4 * (146097 * a) + 146097 * r + 3;
    if r == 0 {} else if r == 1 {} else if r == 2 {} else { assert r == 3; }
  }

  /** The first division finds the century. */
  lemma FindCentury(c: int, rest: int)
    requires c >= 1 && 0 <= rest <= 36524 && (rest == 36524 ==> c % 4 == 0)
    ensures 4 * ((146097 * c + 3) / 4 + rest) / 146097 == c
  {
    CenturyDays(c);
    var x := 4 * ((146097 * c + 3) / 4 + rest);
    assert 146097 * c <= x < 146097 * (c + 1);
  }

  /** The second one finds the year of the century. */
  lemma FindYear(i: int, day: int)
    requires 0 <= i < 100 && 0 <= day <= 365 && (day == 365 ==> i % 4 == 3)
    ensures 4000 * (1461 * i / 4 + day + 1) / 1461001 == i
  {
    QuarterDays(i);
    var x := 4000 * (365 * i + i / 4 + day + 1);
    assert 1461001 * i <= x < 1461001 * (i + 1);
  }

  /** The third one finds the month, and the day is left. */
  lemma FindMonth(t: Date)
    requires Valid(t)
    ensures var l := DayOfYear(M(t), t.d) + 31;
      80 * l / 2447 == M(t) && l - 2447 * M(t) / 80 == t.d
  {
    var k := M(t);
    if k == 1 {} else if k == 2 {} else if k == 3 {} else if k == 4 {} else if k == 5 {} else if k == 6 {}
    else if k == 7 {} else if k == 8 {} else if k == 9 {} else if k == 10 {} else if k == 11 {} else {}
  }

  /** The last day of a leap year is in a year and a century that can have it. */
  lemma LastDay(t: Date)
    requires Valid(t)
    ensures var c, i, day := (Y(t) + 100) / 100, (Y(t) + 100) % 100, DayOfYear(M(t), t.d);
      && 0 <= day <= 365 && (day == 365 ==> i % 4 == 3)
      && 1461 * i / 4 + day <= 36524 && (1461 * i / 4 + day == 36524 ==> c % 4 == 0)
  {
    hide DayOfYear, Leap, DaysIn;
    MonthLength(t);
    DaysOfYear(t);
    LeapShift(Y(t));
    YearOfCentury(Y(t), DayOfYear(M(t), t.d));
  }

  lemma YearOfCentury(y: int, day: int)
    requires 0 <= day <= 365 && (day == 365 ==> (y + 1) % 4 == 0 && ((y + 1) % 100 != 0 || (y + 1) % 400 == 0))
    ensures var c, i := (y + 100) / 100, (y + 100) % 100;
      && (day == 365 ==> i % 4 == 3)
      && 1461 * i / 4 + day <= 36524 && (1461 * i / 4 + day == 36524 ==> c % 4 == 0)
  {
    var c, i := (y + 100) / 100, (y + 100) % 100;
    QuarterDays(i);
    assert y == 4 * (25 * (c - 1)) + i;
    ModFour(y + 1, 25 * (c - 1), i + 1);
    if i == 99 && day == 365 {
      Hundreds(y + 1, c, 0);
      FourCenturies(c);
    }
  }

  /** What the formulas of jd2ymd compute on the way, for the number of a date. */
  ghost predicate Steps(l: int, n: int, l1: int, i: int, l2: int, t: Date) {
    && 0 <= 4 * l && Quot(4 * l, 146097) == n && 1 <= n && 146097 * n <= 4 * l
    && l - Quot(146097 * n + 3, 4) == l1 && 0 <= l1 <= 36524
    && Quot(4000 * (l1 + 1), 1461001) == i && 0 <= i < 100
    && l1 - Quot(1461 * i, 4) + 31 == l2 && 31 <= l2 <= 396
    && Quot(80 * l2, 2447) == M(t) && l2 - Quot(2447 * M(t), 80) == t.d
    && 100 * (n - 49) + i == Y(t) - 4800
  }

  lemma StepsAre(t: Date)
    requires Valid(t)
    ensures var c, i, day := (Y(t) + 100) / 100, (Y(t) + 100) % 100, DayOfYear(M(t), t.d);
      Steps(ToJd(t) + 68569, c, 1461 * i / 4 + day, i, day + 31, t)
  {
    hide ToJd, YearStart, DayOfYear, Y, M, Valid, Quot;
    var c, i, day := (Y(t) + 100) / 100, (Y(t) + 100) % 100, DayOfYear(M(t), t.d);
    ToJdIs(t);
    Centuries(Y(t), day);
    LastDay(t);
    FindMonth(t);
    StepsFrom(ToJd(t) + 68569, c, i, day, t);
  }

  lemma StepsFrom(l: int, c: int, i: int, day: int, t: Date)
    requires c >= 1 && 0 <= i < 100 && 1 <= M(t) <= 12 && Y(t) == 100 * (c - 1) + i
    requires 0 <= day <= 365 && (day == 365 ==> i % 4 == 3)
    requires 1461 * i / 4 + day <= 36524 && (1461 * i / 4 + day == 36524 ==> c % 4 == 0)
    requires l == (146097 * c + 3) / 4 + (1461 * i / 4 + day)
    requires 80 * (day + 31) / 2447 == M(t) && day + 31 - 2447 * M(t) / 80 == t.d
    ensures Steps(l, c, 1461 * i / 4 + day, i, day + 31, t)
  {
    hide Y, M, Quot;
    FindCentury(c, 1461 * i / 4 + day);
    FindYear(i, day);
    CenturyDays(c);
    NotNegative(l, c, i, day, M(t));
  }

  lemma NotNegative(l: int, c: int, i: int, day: int, m: int)
    requires c >= 1 && 0 <= i < 100 && 0 <= day <= 365 && 1 <= m <= 12
    requires l == (146097 * c + 3) / 4 + (1461 * i / 4 + day)
    ensures Quot(4 * l, 146097) == 4 * l / 146097 && Quot(146097 * c + 3, 4) == (146097 * c + 3) / 4
    ensures Quot(4000 * (1461 * i / 4 + day + 1), 1461001) == 4000 * (1461 * i / 4 + day + 1) / 1461001
    ensures Quot(1461 * i, 4) == 1461 * i / 4 && Quot(80 * (day + 31), 2447) == 80 * (day + 31) / 2447
    ensures Quot(2447 * m, 80) == 2447 * m / 80
  {
  }

  /** The date that the steps lead to. */
  lemma StepsLead(jd: int, n: int, l1: int, i: int, l2: int, t: Date)
    requires Valid(t) && Steps(jd + 68569, n, l1, i, l2, t)
    ensures FromJd(jd) == t
    ensures t == Date(100 * (n - 49) + i + Quot(M(t), 11), M(t) + 2 - 12 * Quot(M(t), 11), l2 - Quot(2447 * M(t), 80))
  {
    hide Quot, Y, M, Valid;
    Unshift(t);
  }

  /** From March years back to calendar years. */
  lemma Unshift(t: Date)
    requires Valid(t)
    ensures t.m == M(t) + 2 - 12 * Quot(M(t), 11) && t.y == Y(t) - 4800 + Quot(M(t), 11)
  {
  }

  /** From a date to its number and back. */
  lemma RoundTrip(t: Date)
    requires Valid(t)
    ensures FromJd(ToJd(t)) == t
  {
    hide ToJd, FromJd, Steps;
    StepsAre(t);
    var c, i, day := (Y(t) + 100) / 100, (Y(t) + 100) % 100, DayOfYear(M(t), t.d);
    StepsLead(ToJd(t), c, 1461 * i / 4 + day, i, day + 31, t);
  }

  /** From a number to its date and back; the date is one of the calendar. */
  lemma RoundTripBack(jd: int)
    requires jd >= 1721426
    ensures Valid(FromJd(jd)) && ToJd(FromJd(jd)) == jd
  {
    var t := EveryNumber(jd);
    RoundTrip(t);
  }

  // ----- the program's methods -----

  /** No intermediate value leaves 32 bits for dates up to February 1465073. */
  method Ymd2Jd(ay: int32, am: int32, ad: int32) returns (jd: int)
    requires Valid(Date(ay, am, ad)) && Early(Date(ay, am, ad))
    ensures jd == ToJd(Date(ay, am, ad))
  {
    var a: int32 := Quot(am - 14, 12);
    var p: int32 := 1461 * (ay + 4800 + a);
    var q: int32 := 367 * (am - 2 - 12 * a);
    var r: int32 := 3 * Quot(ay + 4900 + a, 100);
    jd := Quot(p, 4) + Quot(q, 12) - Quot(r, 4) + ad - 32075;
  }

  /** Dates up to the end of February 1465073. */
  predicate Early(t: Date) {
    t.y < 1465073 || (t.y == 1465073 && t.m <= 2)
  }

  /** The bound is the best one: the first product overflows from the next month on. */
  lemma EarlyIsLast(t: Date)
    requires Valid(t)
    ensures 1461 * (t.y + 4800 + Quot(t.m - 14, 12)) < 0x8000_0000 <==> Early(t)
  {
  }

  /** No intermediate value leaves 32 bits for numbers up to 536802342. */
  method Jd2Ymd(jd: int32) returns (y: int32, m: int32, d: int32)
    requires 1721426 <= jd <= LAST_JD
    ensures Valid(Date(y, m, d)) && ToJd(Date(y, m, d)) == jd
  {
    hide ToJd, FromJd, Quot, Valid;
    RoundTripBack(jd);
    ghost var t := FromJd(jd);
    StepsAre(t);
    StepsLead(jd, (Y(t) + 100) / 100, 1461 * ((Y(t) + 100) % 100) / 4 + DayOfYear(M(t), t.d), (Y(t) + 100) % 100,
      DayOfYear(M(t), t.d) + 31, t);
    MonthBounds(t);
    var l: int32 := jd + 68569;
    var l4: int32 := 4 * l;
    var n: int32 := Quot(l4, 146097);
    var c: int32 := 146097 * n + 3;
    l := l - Quot(c, 4);
    var k: int32 := 4000 * (l + 1);
    var i: int32 := Quot(k, 1461001);
    var q: int32 := 1461 * i;
    l := l - Quot(q, 4) + 31;
    var j: int32 := Quot(80 * l, 2447);
    d := l - Quot(2447 * j, 80);
    l := Quot(j, 11);
    m := j + 2 - 12 * l;
    y := 100 * (n - 49) + i + l;
  }

  const LAST_JD: int := 536802342

  /** The bound is the best one: the first product overflows for the next number. */
  lemma LastJdIsLast(jd: int)
    requires jd >= 0
    ensures 4 * (jd + 68569) < 0x8000_0000 <==> jd <= LAST_JD
  {
  }

  lemma MonthBounds(t: Date)
    requires Valid(t)
    ensures 1 <= M(t) <= 12 && 0 <= Quot(M(t), 11) <= 1 && 1 <= t.d <= 31
  {
  }
}
