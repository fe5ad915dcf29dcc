/** Julian day numbers and civil dates: the Gregorian calendar, extended in both directions, with
    year -1 directly before year 1. */
module DateTime {

  const INT32_MIN: int := -0x8000_0000
  const INT32_MAX: int := 0x7FFF_FFFF
  const DATE_JD_INVALID: int := INT32_MIN

  /** C++ division, which truncates towards zero. */
  function Quotient(a: int, b: int): int
    requires b != 0
  {
    if a >= 0 then a / b else -(-a / b)
  }

  /** C++ remainder, which takes the sign of the dividend. */
  function Remainder(a: int, b: int): int
    requires b != 0
  {
    a - b * Quotient(a, b)
  }

  function FloorDiv(a: int, b: int): int
    requires b != 0
  {
    if b < 0 && a < 0 then Quotient(a, b)
    else
      var b' := if b < 0 then -b else b;
      var a' := if b < 0 then -a else a;
      Quotient(a' - (if a' < 0 then b' - 1 else 0), b')
  }

  datatype Ymd = Ymd(year: int, month: int, day: int)

  function YmdToJd(d: Ymd): int {
    var year := if d.year < 0 then d.year + 1 else d.year;
    var a := FloorDiv(14 - d.month, 12);
    var y := year + 4800 - a;
    var m := d.month + 12 * a - 3;
    d.day + FloorDiv(153 * m + 2, 5) + 365 * y + FloorDiv(y, 4) - FloorDiv(y, 100) + FloorDiv(y, 400) - 32045
  }

  function JdToYmd(jd: int): Ymd {
    var a := jd + 32044;
    var b := FloorDiv(4 * a + 3, 146097);
    var c := a - FloorDiv(146097 * b, 4);
    var d := FloorDiv(4 * c + 3, 1461);
    var e := c - FloorDiv(1461 * d, 4);
    var m := FloorDiv(5 * e + 2, 153);
    var day := e - FloorDiv(153 * m + 2, 5) + 1;
    var month := m + 3 - 12 * FloorDiv(m, 10);
    var year := 100 * b + d - 4800 + FloorDiv(m, 10);
    Ymd(if year <= 0 then year - 1 else year, month, day)
  }

  predicate IsLeapYear(year: int) {
    var y := if year < 1 then year + 1 else year;
    (Remainder(y, 4) == 0 && Remainder(y, 100) != 0) || Remainder(y, 400) == 0
  }

  function DaysInMonth(month: int): int {
    var m := if month < 1 || month > 12 then 0 else month;
    [0, 31, 28, 31, 30, 31, 30, 31, 31, 30, 31, 30, 31][m]
  }

  predicate IsValid(d: Ymd) {
    && d.year != 0
    && d.day >= 1
    && (d.day <= DaysInMonth(d.month) || (d.day == 29 && d.month == 2 && IsLeapYear(d.year)))
  }

  // ---- an independent reading of the calendar ----

  /** The last day of a month, leap years considered. */
  function MonthLength(year: int, month: int): int {
    if month == 2 && IsLeapYear(year) then 29 else DaysInMonth(month)
  }

  /** The day after: within the month, the first of the next month, or the first of January of the
      next year; after year -1 comes year 1. */
  function NextDay(d: Ymd): Ymd {
    if d.day < MonthLength(d.year, d.month) then d.(day := d.day + 1)
    else if d.month < 12 then Ymd(d.year, d.month + 1, 1)
    else Ymd(if d.year == -1 then 1 else d.year + 1, 1, 1)
  }

  // ---- the three C++ operators in Dafny's terms ----

  lemma QuotientUnique(x: int, b: int, q: int, r: int)
    requires x == b * q + r && 0 <= r < b
    ensures x / b == q
  {
    var q', r' := x / b, x % b;
    if q' < q {
      MulOrder(q' + 1, q, b);
    } else if q < q' {
      MulOrder(q + 1, q', b);
    }
  }

  lemma MulOrder(a: int, b: int, p: int)
    requires a <= b && p > 0
    ensures p * a <= p * b
  {
  }

  /** For a positive divisor `FloorDiv` rounds towards minus infinity, as `/` does here. */
  lemma FloorDivEuclid(a: int, b: int)
    requires b > 0
    ensures FloorDiv(a, b) == a / b
  {
    if a < 0 {
      MulNegate(b, a / b);
      QuotientUnique(b - 1 - a, b, -(a / b), b - 1 - a % b);
    }
  }

  lemma MulNegate(b: int, q: int)
    ensures b * -q == -(b * q)
  {
  }

  /** For a negative divisor too, it is the floor of the exact quotient. */
  lemma FloorDivNegative(a: int, b: int)
    requires b < 0
    ensures FloorDiv(a, b) == -a / -b
  {
    if a >= 0 {
      FloorDivEuclid(-a, -b);
    }
  }

  lemma RemainderZero(a: int, b: int)
    requires b > 0
    ensures Remainder(a, b) == 0 <==> a % b == 0
  {
    if a < 0 {
      MulNegate(b, -a / b);
      if a % b == 0 {
        MulNegate(b, a / b);
        QuotientUnique(-a, b, -(a / b), 0);
      } else if Remainder(a, b) == 0 {
        QuotientUnique(a, b, -(-a / b), 0);
      }
    }
  }

  // ---- years that start in March ----

  /** Days before the March year `y`. */
  function YearStart(y: int): int {
    365 * y + y / 4 - y / 100 + y / 400
  }

  /** Days of a March year before its month `m`, counted from zero. */
  function MonthStart(m: int): int {
    (153 * m + 2) / 5
  }

  /** Leap years without a missing year zero. */
  predicate Leap(y: int) {
    y % 4 == 0 && (y % 100 != 0 || y % 400 == 0)
  }

  /** The number of a year when year zero is counted. */
  function Astronomical(year: int): int {
    if year < 0 then year + 1 else year
  }

  function MarchYear(d: Ymd): int {
    Astronomical(d.year) + 4800 - (if d.month <= 2 then 1 else 0)
  }

  function MarchMonth(d: Ymd): int {
    if d.month <= 2 then d.month + 9 else d.month - 3
  }

  lemma LeapYearMeaning(year: int)
    requires year != 0
    ensures IsLeapYear(year) <==> Leap(Astronomical(year))
    ensures Leap(Astronomical(year)) <==> Leap(Astronomical(year) + 4800)
  {
    var y := Astronomical(year);
    RemainderZero(y, 4);
    RemainderZero(y, 100);
    RemainderZero(y, 400);
  }

  lemma YearLength(y: int)
    ensures YearStart(y + 1) - YearStart(y) == if Leap(y + 1) then 366 else 365
  {
    DivStep(y, 4);
    DivStep(y, 100);
    DivStep(y, 400);
    NestedMultiples(y + 1);
  }

  lemma DivStep(y: int, k: int)
    requires k > 1
    ensures (y + 1) / k - y / k == if (y + 1) % k == 0 then 1 else 0
  {
    var q, r := y / k, y % k;
    if r + 1 < k {
      QuotientUnique(y + 1, k, q, r + 1);
    } else {
      assert k * (q + 1) == k * q + k;
      QuotientUnique(y + 1, k, q + 1, 0);
    }
  }

  lemma NestedMultiples(y: int)
    ensures y % 400 == 0 ==> y % 100 == 0
    ensures y % 100 == 0 ==> y % 4 == 0
  {
  }

  lemma {:induction false} YearStartOrder(y: int, z: int)
    requires y < z
    ensures YearStart(y) + 365 * (z - y) <= YearStart(z)
    ensures YearStart(y + 1) <= YearStart(z)
    decreases z - y
  {
    YearLength(z - 1);
    if y + 1 < z {
      YearStartOrder(y, z - 1);
    }
  }

  lemma MonthStarts(m: int)
    requires 0 <= m <= 11
    ensures MonthStart(m + 1) - MonthStart(m) ==
      if m == 1 || m == 3 || m == 6 || m == 8 || m == 11 then 30 else 31
    ensures MonthStart(m) == [0, 31, 61, 92, 122, 153, 184, 214, 245, 275, 306, 337][m]
  {
  }

  lemma YmdToJdMeaning(d: Ymd)
    requires 1 <= d.month <= 12
    ensures YmdToJd(d) + 32044 == YearStart(MarchYear(d)) + MonthStart(MarchMonth(d)) + d.day - 1
  {
    hide FloorDiv;
    var a := FloorDiv(14 - d.month, 12);
    FloorDivEuclid(14 - d.month, 12);
    assert a == if d.month <= 2 then 1 else 0;
    var y := MarchYear(d);
    FloorDivEuclid(153 * MarchMonth(d) + 2, 5);
    FloorDivEuclid(y, 4);
    FloorDivEuclid(y, 100);
    FloorDivEuclid(y, 400);
    assert y == Astronomical(d.year) + 4800 - a && MarchMonth(d) == d.month + 12 * a - 3;
  }

  /** Day of the March year, from zero. */
  function DayOfMarchYear(d: Ymd): int {
    MonthStart(MarchMonth(d)) + d.day - 1
  }

  /** A valid date has a month, and lies inside its month and its year. */
  lemma ValidDay(d: Ymd)
    requires IsValid(d)
    ensures 1 <= d.month <= 12 && d.day <= MonthLength(d.year, d.month)
    ensures MonthStart(MarchMonth(d)) <= DayOfMarchYear(d) < MonthStart(MarchMonth(d) + 1)
    ensures YearStart(MarchYear(d)) + DayOfMarchYear(d) < YearStart(MarchYear(d) + 1)
  {
    hide YearStart, MonthStart, IsLeapYear, Leap;
    MonthStarts(MarchMonth(d));
    YearLength(MarchYear(d));
    LeapYearMeaning(d.year);
  }

  // ---- from day numbers to dates ----

  lemma Above(x: int, a: int)
    ensures a >= x / 4 <==> 4 * a + 3 >= x
  {
  }

  /** Centuries of the day count: `b` is the one that day `a` falls in. */
  lemma CenturyOf(a: int)
    ensures var b := (4 * a + 3) / 146097;
      146097 * b / 4 <= a < 146097 * (b + 1) / 4
  {
    var b := (4 * a + 3) / 146097;
    Above(146097 * b, a);
    Above(146097 * (b + 1), a);
  }

  /** Years of a century: `d` is the one that day `c` falls in. */
  lemma YearOfCentury(c: int)
    requires 0 <= c <= 36524
    ensures var d := (4 * c + 3) / 1461;
      0 <= d <= 99 && 1461 * d / 4 <= c < 1461 * (d + 1) / 4
  {
    var d := (4 * c + 3) / 1461;
    Above(1461 * d, c);
    Above(1461 * (d + 1), c);
  }

  /** Months of a year: `m` is the one that day `e` falls in. */
  lemma MonthOfYear(e: int)
    requires 0 <= e <= 365
    ensures var m := (5 * e + 2) / 153;
      0 <= m <= 11 && MonthStart(m) <= e < MonthStart(m + 1)
  {
  }

  /** Year starts split into centuries and years of a century. */
  lemma YearStartSplit(b: int, d: int)
    requires 0 <= d <= 99
    ensures YearStart(100 * b + d) == 146097 * b / 4 + 1461 * d / 4
  {
    var y := 100 * b + d;
    QuotientUnique(y, 4, 25 * b + d / 4, d % 4);
    QuotientUnique(y, 100, b, d);
    QuotientUnique(y, 400, b / 4, 100 * (b % 4) + d);
    QuotientUnique(146097 * b, 4, 36524 * b + b / 4, b % 4);
    QuotientUnique(1461 * d, 4, 365 * d + d / 4, d % 4);
  }

  lemma CenturyLength(b: int)
    ensures 146097 * (b + 1) / 4 - 146097 * b / 4 == if (b + 1) % 4 == 0 then 36525 else 36524
  {
  }

  /** Day `a` counted from the start of the March year zero falls into year 100 b + d. */
  lemma MarchYearOf(a: int)
    ensures var b := (4 * a + 3) / 146097;
      var c := a - 146097 * b / 4;
      var d := (4 * c + 3) / 1461;
      var e := c - 1461 * d / 4;
      && YearStart(100 * b + d) + e == a && 0 <= e <= 365
      && a < YearStart(100 * b + d + 1)
  {
    var b := (4 * a + 3) / 146097;
    CenturyOf(a);
    CenturyLength(b);
    var c := a - 146097 * b / 4;
    YearOfCentury(c);
    var d := (4 * c + 3) / 1461;
    YearStartSplit(b, d);
    if d < 99 {
      YearStartSplit(b, d + 1);
    } else {
      YearStartSplit(b + 1, 0);
    }
    YearLength(100 * b + d);
  }

  /** `JdToYmd` from the day `e` of the March year `y`. */
  function FromMarch(y: int, e: int): Ymd {
    var m := (5 * e + 2) / 153;
    var year := y - 4800 + m / 10;
    Ymd(if year <= 0 then year - 1 else year, m + 3 - 12 * (m / 10), e - MonthStart(m) + 1)
  }

  lemma JdToYmdPlain(jd: int)
    ensures var a := jd + 32044;
      var b := (4 * a + 3) / 146097;
      var c := a - 146097 * b / 4;
      var d := (4 * c + 3) / 1461;
      JdToYmd(jd) == FromMarch(100 * b + d, c - 1461 * d / 4)
  {
    hide FloorDiv;
    var a := jd + 32044;
    var b := (4 * a + 3) / 146097;
    var c := a - 146097 * b / 4;
    var d := (4 * c + 3) / 1461;
    var e := c - 1461 * d / 4;
    var m := (5 * e + 2) / 153;
    FloorDivEuclid(4 * a + 3, 146097);
    FloorDivEuclid(146097 * b, 4);
    FloorDivEuclid(4 * c + 3, 1461);
    FloorDivEuclid(1461 * d, 4);
    FloorDivEuclid(5 * e + 2, 153);
    FloorDivEuclid(153 * m + 2, 5);
    FloorDivEuclid(m, 10);
  }

  lemma FromMarchMeaning(y: int, e: int)
    requires 0 <= e <= 365
    ensures var r := FromMarch(y, e);
      && 1 <= r.month <= 12 && r.year != 0 && r.day >= 1
      && MarchYear(r) == y && DayOfMarchYear(r) == e
      && DayOfMarchYear(r) < MonthStart(MarchMonth(r) + 1)
      && 0 <= MarchMonth(r) <= 11
  {
    hide MonthStart;
    var m := (5 * e + 2) / 153;
    MonthOfYear(e);
    assert m / 10 == if m <= 9 then 0 else 1;
    var r := FromMarch(y, e);
    assert MarchMonth(r) == m;
  }

  /** What `JdToYmd` computes: the March year, month and day that contain the day. */
  lemma JdToYmdMeaning(jd: int)
    ensures var r := JdToYmd(jd);
      && 1 <= r.month <= 12 && r.year != 0 && r.day >= 1
      && YearStart(MarchYear(r)) + DayOfMarchYear(r) == jd + 32044
      && YearStart(MarchYear(r)) + DayOfMarchYear(r) < YearStart(MarchYear(r) + 1)
      && DayOfMarchYear(r) < MonthStart(MarchMonth(r) + 1)
  {
    hide JdToYmd, YearStart, MonthStart, FromMarch, MarchYear, MarchMonth, DayOfMarchYear;
    var a := jd + 32044;
    var b := (4 * a + 3) / 146097;
    var c := a - 146097 * b / 4;
    var d := (4 * c + 3) / 1461;
    JdToYmdPlain(jd);
    MarchYearOf(a);
    FromMarchMeaning(100 * b + d, c - 1461 * d / 4);
  }

  // ---- the bijection ----

  /** Every day number is that of a valid date, and converting back gives the number. */
  lemma JdRoundTrip(jd: int)
    ensures IsValid(JdToYmd(jd)) && YmdToJd(JdToYmd(jd)) == jd
  {
    hide JdToYmd, YmdToJd, YearStart, MonthStart, IsLeapYear, Leap;
    var r := JdToYmd(jd);
    JdToYmdMeaning(jd);
    YmdToJdMeaning(r);
    MonthStarts(MarchMonth(r));
    YearLength(MarchYear(r));
    LeapYearMeaning(r.year);
  }

  /** Where a day lies determines its March year. */
  lemma SameYear(y: int, z: int, a: int)
    requires YearStart(y) <= a < YearStart(y + 1) && YearStart(z) <= a < YearStart(z + 1)
    ensures y == z
  {
    hide YearStart;
    if y < z {
      YearStartOrder(y, z);
    } else if z < y {
      YearStartOrder(z, y);
    }
  }

  lemma SameMonth(m: int, n: int, e: int)
    requires 0 <= m <= 11 && 0 <= n <= 11
    requires MonthStart(m) <= e < MonthStart(m + 1) && MonthStart(n) <= e < MonthStart(n + 1)
    ensures m == n
  {
  }

  /** A valid date is recovered from its day number. */
  lemma YmdRoundTrip(d: Ymd)
    requires IsValid(d)
    ensures JdToYmd(YmdToJd(d)) == d
  {
    hide JdToYmd, YmdToJd, YearStart, MonthStart, IsLeapYear;
    var jd := YmdToJd(d);
    var r := JdToYmd(jd);
    ValidDay(d);
    YmdToJdMeaning(d);
    JdToYmdMeaning(jd);
    MonthStarts(MarchMonth(d));
    MonthStartPositive(MarchMonth(r));
    MonthStartPositive(MarchMonth(d));
    SameYear(MarchYear(d), MarchYear(r), jd + 32044);
    SameMonth(MarchMonth(d), MarchMonth(r), DayOfMarchYear(d));
  }

  lemma MonthStartPositive(m: int)
    requires 0 <= m <= 11
    ensures 0 <= MonthStart(m)
  {
  }

  /** Earlier in the calendar. */
  predicate Earlier(p: Ymd, q: Ymd) {
    p.year < q.year || (p.year == q.year && (p.month < q.month || (p.month == q.month && p.day < q.day)))
  }

  /** Day numbers order valid dates as the calendar does. */
  lemma OrderPreserved(p: Ymd, q: Ymd)
    requires IsValid(p) && IsValid(q)
    ensures Earlier(p, q) <==> YmdToJd(p) < YmdToJd(q)
  {
    if Earlier(p, q) {
      EarlierIsLess(p, q);
    } else if Earlier(q, p) {
      EarlierIsLess(q, p);
    } else {
      assert p == q;
    }
  }

  lemma EarlierIsLess(p: Ymd, q: Ymd)
    requires IsValid(p) && IsValid(q) && Earlier(p, q)
    ensures YmdToJd(p) < YmdToJd(q)
  {
    hide YmdToJd, YearStart, MonthStart, IsLeapYear;
    ValidDay(p);
    ValidDay(q);
    YmdToJdMeaning(p);
    YmdToJdMeaning(q);
    MonthStartPositive(MarchMonth(q));
    if MarchYear(p) < MarchYear(q) {
      YearStartOrder(MarchYear(p), MarchYear(q));
    } else {
      MonthOrder(MarchMonth(p), MarchMonth(q));
    }
  }

  lemma MonthOrder(m: int, n: int)
    requires 0 <= m <= 11 && 0 <= n <= 11
    ensures m < n ==> MonthStart(m + 1) <= MonthStart(n)
  {
  }

  /** The formula counts days: the next day of the calendar has the next number. */
  lemma NextDayCounts(d: Ymd)
    requires IsValid(d)
    ensures IsValid(NextDay(d)) && YmdToJd(NextDay(d)) == YmdToJd(d) + 1
  {
    hide YmdToJd, YearStart, MonthStart, IsLeapYear, Leap;
    var n := NextDay(d);
    ValidDay(d);
    YmdToJdMeaning(d);
    YmdToJdMeaning(n);
    MonthStarts(MarchMonth(d));
    MonthStarts(MarchMonth(n));
    YearLength(MarchYear(d));
    LeapYearMeaning(d.year);
  }

  // ---- 32-bit arithmetic ----

  predicate Int32(x: int) {
    INT32_MIN <= x <= INT32_MAX
  }

  /** `FloorDiv` by a positive divisor stays within 32 bits. */
  predicate FloorDivFits(a: int, b: int)
    requires b > 0
  {
    Int32(a) && (a < 0 ==> Int32(a - (b - 1)))
  }

  /** Every intermediate value of `JdToYmd` is a 32-bit number: up to the century `b` ... */
  predicate CenturyFits(jd: int) {
    var a := jd + 32044;
    var b := FloorDiv(4 * a + 3, 146097);
    && Int32(jd) && Int32(a) && Int32(4 * a) && FloorDivFits(4 * a + 3, 146097)
    && FloorDivFits(146097 * b, 4)
  }

  /** ... and from the day `c` of the century on. */
  predicate DayOfCenturyFits(b: int, c: int) {
    var d := FloorDiv(4 * c + 3, 1461);
    var e := c - FloorDiv(1461 * d, 4);
    var m := FloorDiv(5 * e + 2, 153);
    var year := 100 * b + d - 4800 + FloorDiv(m, 10);
    && Int32(c) && Int32(4 * c) && FloorDivFits(4 * c + 3, 1461)
    && FloorDivFits(1461 * d, 4) && Int32(e) && Int32(5 * e) && FloorDivFits(5 * e + 2, 153)
    && Int32(153 * m) && FloorDivFits(153 * m + 2, 5) && Int32(e - FloorDiv(153 * m + 2, 5))
    && FloorDivFits(m, 10) && Int32(m + 3) && Int32(12 * FloorDiv(m, 10)) && Int32(m + 3 - 12 * FloorDiv(m, 10))
    && Int32(100 * b) && Int32(100 * b + d) && Int32(100 * b + d - 4800) && Int32(year) && Int32(year - 1)
  }

  predicate JdToYmdFits(jd: int) {
    var a := jd + 32044;
    var b := FloorDiv(4 * a + 3, 146097);
    CenturyFits(jd) && DayOfCenturyFits(b, a - FloorDiv(146097 * b, 4))
  }

  lemma CenturyRange(jd: int)
    ensures CenturyFits(jd) <==> -536866432 <= jd <= 536838867
    ensures CenturyFits(jd) ==> -15000 <= (4 * (jd + 32044) + 3) / 146097 <= 15000
  {
    hide FloorDiv;
    FloorDivEuclid(4 * (jd + 32044) + 3, 146097);
  }

  lemma DayOfCenturyRange(b: int, c: int)
    requires 0 <= c <= 36524 && -15000 <= b <= 15000
    ensures DayOfCenturyFits(b, c)
  {
    hide FloorDiv;
    var d := (4 * c + 3) / 1461;
    var e := c - 1461 * d / 4;
    var m := (5 * e + 2) / 153;
    FloorDivEuclid(4 * c + 3, 1461);
    FloorDivEuclid(1461 * d, 4);
    FloorDivEuclid(5 * e + 2, 153);
    FloorDivEuclid(153 * m + 2, 5);
    FloorDivEuclid(m, 10);
    YearOfCentury(c);
    assert 0 <= e <= 366;
    assert 0 <= m <= 12;
  }

  /** Day numbers that `JdToYmd` converts without overflow: about 536 million to either side. */
  lemma JdRange(jd: int)
    ensures JdToYmdFits(jd) <==> -536866432 <= jd <= 536838867
  {
    hide FloorDiv, CenturyFits, DayOfCenturyFits;
    var a := jd + 32044;
    var b := (4 * a + 3) / 146097;
    FloorDivEuclid(4 * a + 3, 146097);
    FloorDivEuclid(146097 * b, 4);
    CenturyRange(jd);
    CenturyOf(a);
    CenturyLength(b);
    if CenturyFits(jd) {
      DayOfCenturyRange(b, a - 146097 * b / 4);
    }
  }

  /** Every intermediate value of `YmdToJd` is a 32-bit number. */
  predicate YmdToJdFits(d: Ymd) {
    var year := if d.year < 0 then d.year + 1 else d.year;
    var a := FloorDiv(14 - d.month, 12);
    var y := year + 4800 - a;
    var m := d.month + 12 * a - 3;
    && Int32(d.year) && Int32(d.month) && Int32(d.day) && FloorDivFits(14 - d.month, 12)
    && Int32(year + 4800) && Int32(y) && Int32(12 * a) && Int32(d.month + 12 * a) && Int32(m)
    && SumFits(y, m, d.day)
  }

  predicate SumFits(y: int, m: int, day: int) {
    var s1 := day + FloorDiv(153 * m + 2, 5);
    var s2 := s1 + 365 * y;
    var s3 := s2 + FloorDiv(y, 4);
    var s4 := s3 - FloorDiv(y, 100);
    var s5 := s4 + FloorDiv(y, 400);
    && Int32(153 * m) && FloorDivFits(153 * m + 2, 5) && Int32(s1) && Int32(365 * y) && Int32(s2)
    && FloorDivFits(y, 4) && Int32(s3) && FloorDivFits(y, 100) && Int32(s4)
    && FloorDivFits(y, 400) && Int32(s5) && Int32(s5 - 32045) && s5 - 32045 != DATE_JD_INVALID
  }

  /** The largest sum on the way, reached before the years divisible by 100 are taken off: the day number of a
      calendar in which every fourth year is a leap year. */
  function JulianCount(d: Ymd): int {
    DayOfMarchYear(d) + 1 + 365 * MarchYear(d) + MarchYear(d) / 4
  }

  lemma SumRange(y: int, m: int, day: int)
    requires 0 <= m <= 11 && 1 <= day <= 31
    ensures SumFits(y, m, day) <==> Int32((153 * m + 2) / 5 + day + 365 * y + y / 4)
    ensures SumFits(y, m, day) ==> -6_000_000 <= y <= 6_000_000
  {
    hide FloorDiv;
    FloorDivEuclid(153 * m + 2, 5);
    FloorDivEuclid(y, 4);
    FloorDivEuclid(y, 100);
    FloorDivEuclid(y, 400);
    assert 0 <= (153 * m + 2) / 5 <= 337;
  }

  lemma JulianOrder(p: Ymd, q: Ymd)
    requires IsValid(p) && IsValid(q)
    ensures Earlier(p, q) <==> JulianCount(p) < JulianCount(q)
  {
    if Earlier(p, q) {
      EarlierIsJulianLess(p, q);
    } else if Earlier(q, p) {
      EarlierIsJulianLess(q, p);
    } else {
      assert p == q;
    }
  }

  lemma EarlierIsJulianLess(p: Ymd, q: Ymd)
    requires IsValid(p) && IsValid(q) && Earlier(p, q)
    ensures JulianCount(p) < JulianCount(q)
  {
    hide YearStart, MonthStart, IsLeapYear;
    ValidDay(p);
    ValidDay(q);
    MonthStartPositive(MarchMonth(q));
    if MarchYear(p) < MarchYear(q) {
      JulianYear(MarchYear(p));
      DivOrder(MarchYear(p) + 1, MarchYear(q));
    } else {
      MonthOrder(MarchMonth(p), MarchMonth(q));
    }
  }

  /** No year is longer than in the calendar with a leap year in every four. */
  lemma JulianYear(y: int)
    ensures YearStart(y + 1) - YearStart(y) <= 365 + (y + 1) / 4 - y / 4
  {
    YearLength(y);
    DivStep(y, 4);
  }

  lemma DivOrder(a: int, b: int)
    requires a <= b
    ensures a / 4 <= b / 4
  {
  }

  /** The first and the last date that `YmdToJd` converts without overflow. */
  const FIRST_STORED: Ymd := Ymd(-5884291, 5, 14)
  const LAST_STORED: Ymd := Ymd(5874689, 12, 15)

  /** No 32-bit operation of `YmdToJd` overflows exactly for the valid dates from the one to the other; none of
      them has the number of the invalid mark. */
  lemma YmdRange(d: Ymd)
    requires IsValid(d)
    ensures YmdToJdFits(d) <==> !Earlier(d, FIRST_STORED) && !Earlier(LAST_STORED, d)
    ensures YmdToJdFits(d) ==> YmdToJd(d) != DATE_JD_INVALID
  {
    hide FloorDiv, SumFits, YmdToJd;
    StoredLimits();
    hide IsValid, JulianCount;
    JulianOrder(d, FIRST_STORED);
    JulianOrder(LAST_STORED, d);
    FitsByJulianCount(d);
    if YmdToJdFits(d) {
      SumIsJd(d);
    }
  }

  lemma StoredLimits()
    ensures IsValid(FIRST_STORED) && JulianCount(FIRST_STORED) == INT32_MIN
    ensures IsValid(LAST_STORED) && JulianCount(LAST_STORED) == INT32_MAX
  {
  }

  lemma FitsByJulianCount(d: Ymd)
    requires IsValid(d)
    ensures YmdToJdFits(d) <==> Int32(JulianCount(d))
  {
    hide FloorDiv, IsLeapYear, SumFits;
    ValidMonth(d);
    FloorDivEuclid(14 - d.month, 12);
    SumRange(MarchYear(d), MarchMonth(d), d.day);
  }

  /** The first and the last date that can be read back from its day number. */
  const FIRST_READABLE: Ymd := Ymd(-1474604, 7, 13)
  const LAST_READABLE: Ymd := Ymd(1465102, 10, 18)

  /** A valid date can be read back without overflow exactly from the one to the other: about a quarter of the
      dates that can be stored. */
  lemma ReadableRange(d: Ymd)
    requires IsValid(d)
    ensures JdToYmdFits(YmdToJd(d)) <==> !Earlier(d, FIRST_READABLE) && !Earlier(LAST_READABLE, d)
  {
    ReadableLimits();
    hide YmdToJd, JdToYmdFits, IsValid;
    JdRange(YmdToJd(d));
    OrderPreserved(d, FIRST_READABLE);
    OrderPreserved(LAST_READABLE, d);
  }

  lemma ReadableLimits()
    ensures IsValid(FIRST_READABLE) && YmdToJd(FIRST_READABLE) == -536866432
    ensures IsValid(LAST_READABLE) && YmdToJd(LAST_READABLE) == 536838867
  {
    YmdToJdMeaning(FIRST_READABLE);
    YmdToJdMeaning(LAST_READABLE);
  }

  /** The first of January of the year 3 000 000 is stored, and cannot be read back. */
  lemma StoredButNotReadable()
    ensures var d := Ymd(3_000_000, 1, 1);
      IsValid(d) && YmdToJdFits(d) && YmdToJd(d) != DATE_JD_INVALID && !JdToYmdFits(YmdToJd(d))
  {
    hide YmdToJd, YmdToJdFits, JdToYmdFits;
    YmdRange(Ymd(3_000_000, 1, 1));
    ReadableRange(Ymd(3_000_000, 1, 1));
  }

  lemma SumIsJd(d: Ymd)
    requires YmdToJdFits(d)
    ensures YmdToJd(d) != DATE_JD_INVALID && Int32(YmdToJd(d))
  {
    hide FloorDiv;
  }

  lemma ValidMonth(d: Ymd)
    requires IsValid(d)
    ensures 1 <= d.month <= 12 && 1 <= d.day <= 31
  {
  }

  // ---- days of the week and of the year ----

  function DayOfWeek(jd: int): int {
    if jd >= 0 then Remainder(jd, 7) + 1 else Remainder(jd + 1, 7) + 7
  }

  /** The week runs on evenly in both directions, through day number zero. */
  lemma WeekRunsOn(jd: int)
    ensures 1 <= DayOfWeek(jd) <= 7
    ensures DayOfWeek(jd + 1) == DayOfWeek(jd) % 7 + 1
    ensures DayOfWeek(jd) == jd % 7 + 1
  {
  }

  function DayOfYear(jd: int): int {
    jd - YmdToJd(Ymd(JdToYmd(jd).year, 1, 1)) + 1
  }

  /** The days of the months before `month`. */
  function DaysBefore(year: int, month: int): int
    requires 1 <= month <= 12
    decreases month
  {
    if month == 1 then 0 else DaysBefore(year, month - 1) + MonthLength(year, month - 1)
  }

  lemma {:induction false} FirstOfMonth(year: int, month: int)
    requires year != 0 && 1 <= month <= 12
    ensures YmdToJd(Ymd(year, month, 1)) == YmdToJd(Ymd(year, 1, 1)) + DaysBefore(year, month)
  {
    hide YmdToJd, IsLeapYear;
    if month > 1 {
      FirstOfMonth(year, month - 1);
      var last := Ymd(year, month - 1, MonthLength(year, month - 1));
      NextDayCounts(last);
      DaysInOneMonth(year, month - 1, last.day);
    }
  }

  lemma DaysInOneMonth(year: int, month: int, day: int)
    requires 1 <= month <= 12
    ensures YmdToJd(Ymd(year, month, day)) == YmdToJd(Ymd(year, month, 1)) + day - 1
  {
    YmdToJdMeaning(Ymd(year, month, day));
    YmdToJdMeaning(Ymd(year, month, 1));
    hide YmdToJd;
  }

  /** The day of the year counts the months before and the day of the month. */
  lemma DayOfYearCounts(d: Ymd)
    requires IsValid(d)
    ensures DayOfYear(YmdToJd(d)) == DaysBefore(d.year, d.month) + d.day
  {
    hide YmdToJd, JdToYmd, IsLeapYear;
    YmdRoundTrip(d);
    ValidMonth(d);
    FirstOfMonth(d.year, d.month);
    DaysInOneMonth(d.year, d.month, d.day);
  }

  /** A fixed point of the count: the first of January 2000 is day 2451545. */
  lemma Anchor()
    ensures YmdToJd(Ymd(2000, 1, 1)) == 2451545 && DayOfWeek(2451545) == 6
    ensures YmdToJd(Ymd(1, 1, 1)) == YmdToJd(Ymd(-1, 12, 31)) + 1
  {
    YmdToJdMeaning(Ymd(2000, 1, 1));
    YmdToJdMeaning(Ymd(1, 1, 1));
    YmdToJdMeaning(Ymd(-1, 12, 31));
  }

  class Date {
    var m_jd: int

    constructor ()
      ensures m_jd == DATE_JD_INVALID
    {
      m_jd := DATE_JD_INVALID;
    }

    /** Remember a date; an impossible one makes the object invalid.  The 32-bit arithmetic is exact from
        `FIRST_STORED` to `LAST_STORED`; the date can be read back from `FIRST_READABLE` to `LAST_READABLE`. */
    method Set(d: Ymd)
      modifies this
      ensures m_jd == if IsValid(d) then YmdToJd(d) else DATE_JD_INVALID
      ensures IsValid(d) ==> (YmdToJdFits(d) <==> !Earlier(d, FIRST_STORED) && !Earlier(LAST_STORED, d))
      ensures IsValid(d) && YmdToJdFits(d) ==> m_jd != DATE_JD_INVALID && Int32(m_jd)
      ensures IsValid(d) ==> (JdToYmdFits(m_jd) <==> !Earlier(d, FIRST_READABLE) && !Earlier(LAST_READABLE, d))
      ensures IsValid(d) && JdToYmdFits(m_jd) ==> JdToYmd(m_jd) == d
    {
      hide YmdToJd, JdToYmd, IsValid, YmdToJdFits, JdToYmdFits;
      if IsValid(d) {
        YmdRange(d);
        if YmdToJdFits(d) {
          SumIsJd(d);
        }
        ReadableRange(d);
        YmdRoundTrip(d);
        m_jd := YmdToJd(d);
      } else {
        m_jd := DATE_JD_INVALID;
      }
    }

    /** The date that was set, or zeros.  Only a day number within the limits of `JdRange` is converted by the
        32-bit arithmetic as by the formula. */
    method Get() returns (d: Ymd)
      ensures m_jd == DATE_JD_INVALID ==> d == Ymd(0, 0, 0)
      ensures -536866432 <= m_jd <= 536838867 <==> JdToYmdFits(m_jd)
      ensures JdToYmdFits(m_jd) ==> m_jd != DATE_JD_INVALID && IsValid(d) && YmdToJd(d) == m_jd
      ensures JdToYmdFits(m_jd) ==> !Earlier(d, FIRST_READABLE) && !Earlier(LAST_READABLE, d)
    {
      hide YmdToJd, JdToYmd, IsValid, JdToYmdFits;
      JdRange(m_jd);
      if m_jd == DATE_JD_INVALID {
        d := Ymd(0, 0, 0);
      } else {
        JdRoundTrip(m_jd);
        d := JdToYmd(m_jd);
        ReadableRange(d);
      }
    }
  }
}
