/** Dates as Julian Day Numbers: the proleptic Gregorian calendar with historical years (no year 0). */
module DateTime {
  import opened RustInt

  const DATE_JD_INVALID := I32_MIN

  /** Integer division rounding down, written over truncating division. */
  function FloorDiv(a0: int, b0: int): int
    requires b0 != 0
  {
    if b0 < 0 && a0 < 0 then TruncDiv(a0, b0)
    else
      var (a, b) := if b0 < 0 then (-a0, -b0) else (a0, b0);
      TruncDiv(a - (if a < 0 then b - 1 else 0), b)
  }

  /** It is the floor: the quotient `q` with `q * b` next to `a` on the side away from infinity. */
  lemma FloorDivIsFloor(a: int, b: int)
    requires b != 0
    ensures b > 0 ==> FloorDiv(a, b) == a / b
    ensures b < 0 ==> FloorDiv(a, b) == -a / -b
  {
    if b < 0 && a >= 0 {
      FloorDown(-a, -b);
    } else if b > 0 {
      FloorDown(a, b);
    }
  }

  lemma Floor(a: int, b: int)
    requires b > 0
    ensures FloorDiv(a, b) == a / b
  {
    FloorDown(a, b);
  }

  lemma FloorDown(a: int, b: int)
    requires b > 0
    ensures TruncDiv(a - (if a < 0 then b - 1 else 0), b) == a / b
  {
    if a < 0 {
      var n := b - 1 - a;
      var q := n / b;
      assert n == q * b + n % b;
      assert a == -q * b + (b - 1 - n % b);
      Quotient(a, b, -q, b - 1 - n % b);
    }
  }

  datatype Ymd = Ymd(year: int, month: int, day: int)

  /** `ymd_to_jd`. */
  function YmdToJd(t: Ymd): int {
    var year := if t.year < 0 then t.year + 1 else t.year;
    var a := FloorDiv(14 - t.month, 12);
    var y := year + 4800 - a;
    var m := t.month + 12 * a - 3;
    t.day + FloorDiv(153 * m + 2, 5) + 365 * y + FloorDiv(y, 4) - FloorDiv(y, 100) + FloorDiv(y, 400) - 32045
  }

  /** `jd_to_ymd`. */
  function JdToYmd(jd: int): Ymd {
    var a := jd + 32044;
    var b := FloorDiv(4 * a + 3, 146097);
    var c := a - FloorDiv(146097 * b, 4);
    var d := FloorDiv(4 * c + 3, 1461);
    var e := c - FloorDiv(1461 * d, 4);
    var m := FloorDiv(5 * e + 2, 153);
    var year := 100 * b + d - 4800 + FloorDiv(m, 10);
    Ymd(if year <= 0 then year - 1 else year,
        m + 3 - 12 * FloorDiv(m, 10),
        e - FloorDiv(153 * m + 2, 5) + 1)
  }

  predicate IsLeapYear(year0: int) {
    var year := if year0 < 1 then year0 + 1 else year0;
    (TruncMod(year, 4) == 0 && TruncMod(year, 100) != 0) || TruncMod(year, 400) == 0
  }

  function DaysInMonthStatic(month: int): int {
    var m := if !(1 <= month <= 12) then 0 else month;
    [0, 31, 28, 31, 30, 31, 30, 31, 31, 30, 31, 30, 31][m]
  }

  predicate IsValid(t: Ymd) {
    t.year != 0 && t.day >= 1
    && (t.day <= DaysInMonthStatic(t.month) || (t.day == 29 && t.month == 2 && IsLeapYear(t.year)))
  }

  // ---- The calendar counted from 1 March, where leap days come last.

  /** Days before the March-based year `y`. */
  function Days(y: int): int {
    365 * y + y / 4 - y / 100 + y / 400
  }

  function YearLength(y: int): int {
    Days(y + 1) - Days(y)
  }

  /** Days before the March-based month `m` (0 is March) in its year. */
  function MonthStart(m: int): int {
    (153 * m + 2) / 5
  }

  predicate Leap(y: int) {
    (y % 4 == 0 && y % 100 != 0) || y % 400 == 0
  }

  lemma YearLengths(y: int)
    ensures YearLength(y) == if Leap(y + 1) then 366 else 365
  {
    assert (y + 1) / 4 - y / 4 == if (y + 1) % 4 == 0 then 1 else 0;
    assert (y + 1) / 100 - y / 100 == if (y + 1) % 100 == 0 then 1 else 0;
    assert (y + 1) / 400 - y / 400 == if (y + 1) % 400 == 0 then 1 else 0;
    Multiples(y + 1);
  }

  lemma Multiples(y: int)
    ensures y % 400 == 0 ==> y % 100 == 0
    ensures y % 100 == 0 ==> y % 4 == 0
  {
  }

  lemma {:induction false} DaysMonotone(y: int, z: int)
    requires y < z
    ensures Days(y) + 365 <= Days(z)
    decreases z - y
  {
    YearLengths(z - 1);
    if y < z - 1 {
      DaysMonotone(y, z - 1);
    }
  }

  /** The March-based year and day of year of a valid date. */
  function MarchYear(t: Ymd): int {
    (if t.year < 0 then t.year + 1 else t.year) + 4800 - (if t.month <= 2 then 1 else 0)
  }

  function MarchMonth(t: Ymd): int {
    if t.month <= 2 then t.month + 9 else t.month - 3
  }

  function MarchDay(t: Ymd): int {
    MonthStart(MarchMonth(t)) + t.day - 1
  }

  lemma LeapAgrees(year: int)
    requires year != 0
    ensures IsLeapYear(year) <==> Leap((if year < 0 then year + 1 else year) + 4800)
  {
    var y := if year < 0 then year + 1 else year;
    Shifted(y, 4, 1200);
    Shifted(y, 100, 48);
    Shifted(y, 400, 12);
  }

  lemma Shifted(y: int, b: int, n: int)
    requires b > 0
    ensures (y + n * b) % b == y % b
  {
    Quotient(y + n * b, b, y / b + n, y % b);
  }

  lemma ToJd(t: Ymd)
    requires 1 <= t.month <= 12
    ensures YmdToJd(t) == Days(MarchYear(t)) + MarchDay(t) - 32044
  {
    var y := MarchYear(t);
    Floor(14 - t.month, 12);
    Floor(153 * MarchMonth(t) + 2, 5);
    Floor(y, 4);
    Floor(y, 100);
    Floor(y, 400);
  }

  /** The month table and the (153 m + 2) / 5 rule are the same lengths, but for February. */
  lemma MonthLengths(m: int)
    requires 0 <= m <= 11
    ensures var length := DaysInMonthStatic(if m >= 10 then m - 9 else m + 3);
            if m < 11 then MonthStart(m + 1) - MonthStart(m) == length else length == 28 && MonthStart(11) == 337
  {
    if m < 6 { assert m == 0 || m == 1 || m == 2 || m == 3 || m == 4 || m == 5; }
    else { assert m == 6 || m == 7 || m == 8 || m == 9 || m == 10 || m == 11; }
  }

  /** The month of a day of a March-based year. */
  lemma MonthOfDay(m: int, e: int)
    requires 0 <= m <= 11 && MonthStart(m) <= e < if m < 11 then MonthStart(m + 1) else 366
    ensures (5 * e + 2) / 153 == m
  {
  }

  /** The first half of the inverse: the year and the day in it, by centuries and then by years. */
  lemma SplitYears(a: int) returns (b: int, c: int, d: int, e: int)
    ensures b == (4 * a + 3) / 146097 && c == a - 146097 * b / 4
    ensures d == (4 * c + 3) / 1461 && e == c - 1461 * d / 4
    ensures a == Days(100 * b + d) + e && 0 <= e < YearLength(100 * b + d)
  {
    b := (4 * a + 3) / 146097;
    c := a - 146097 * b / 4;
    Century(a, b, c);
    d := (4 * c + 3) / 1461;
    e := c - 1461 * d / 4;
    InCentury(b, c, d, e);
    CenturyDays(b, d);
    if d < 99 { CenturyDays(b, d + 1); } else { CenturyDays(b + 1, 0); }
  }

  lemma Century(a: int, b: int, c: int)
    requires b == (4 * a + 3) / 146097 && c == a - 146097 * b / 4
    ensures 0 <= c < 146097 * (b + 1) / 4 - 146097 * b / 4 <= 36525
  {
  }

  lemma InCentury(b: int, c: int, d: int, e: int)
    requires 0 <= c < 146097 * (b + 1) / 4 - 146097 * b / 4 <= 36525
    requires d == (4 * c + 3) / 1461 && e == c - 1461 * d / 4
    ensures 0 <= d <= 99 && 0 <= e < 1461 * (d + 1) / 4 - 1461 * d / 4
  {
  }

  lemma CenturyDays(b: int, d: int)
    requires 0 <= d <= 99
    ensures Days(100 * b + d) == 146097 * b / 4 + 1461 * d / 4
  {
    var y := 100 * b + d;
    assert y / 100 == b;
    assert y / 4 == 25 * b + d / 4;
    assert y / 400 == b / 4;
    assert 146097 * b / 4 == 36524 * b + b / 4;
    assert 1461 * d / 4 == 365 * d + d / 4;
  }

  /** `jd_to_ymd`, in March-based terms: the year, then the month, then the day. */
  lemma FromJd(jd: int) returns (y: int, m: int, e: int)
    ensures jd + 32044 == Days(y) + e && 0 <= e < YearLength(y) <= 366 && 0 <= m <= 11
    ensures MonthStart(m) <= e < if m < 11 then MonthStart(m + 1) else 366
    ensures JdToYmd(jd) == FromMarch(y, m, e - MonthStart(m) + 1)
  {
    var b, c, d;
    b, c, d, e := SplitYears(jd + 32044);
    y, m := 100 * b + d, (5 * e + 2) / 153;
    YearLengths(y);
    DayToMonth(e, m);
    PlainDivisions(jd, b, c, d, e, m);
  }

  lemma DayToMonth(e: int, m: int)
    requires 0 <= e < 366 && m == (5 * e + 2) / 153
    ensures 0 <= m <= 11 && MonthStart(m) <= e < if m < 11 then MonthStart(m + 1) else 366
  {
  }

  lemma PlainDivisions(jd: int, b: int, c: int, d: int, e: int, m: int)
    requires b == (4 * (jd + 32044) + 3) / 146097 && c == jd + 32044 - 146097 * b / 4
    requires d == (4 * c + 3) / 1461 && e == c - 1461 * d / 4 && m == (5 * e + 2) / 153 && 0 <= m <= 11
    ensures JdToYmd(jd) == FromMarch(100 * b + d, m, e - MonthStart(m) + 1)
  {
    FloorParts(jd + 32044, b, c, d, e, m);
    FloorMonth(m);
    DateOfParts(jd, b, c, d, e, m, MonthStart(m), if m >= 10 then 1 else 0);
  }

  lemma FloorMonth(m: int)
    requires 0 <= m <= 11
    ensures FloorDiv(153 * m + 2, 5) == MonthStart(m) && FloorDiv(m, 10) == if m >= 10 then 1 else 0
  {
    Floor(153 * m + 2, 5);
    Floor(m, 10);
  }

  lemma FloorParts(a: int, b: int, c: int, d: int, e: int, m: int)
    requires b == (4 * a + 3) / 146097 && c == a - 146097 * b / 4
    requires d == (4 * c + 3) / 1461 && e == c - 1461 * d / 4 && m == (5 * e + 2) / 153
    ensures b == FloorDiv(4 * a + 3, 146097) && c == a - FloorDiv(146097 * b, 4)
    ensures d == FloorDiv(4 * c + 3, 1461) && e == c - FloorDiv(1461 * d, 4) && m == FloorDiv(5 * e + 2, 153)
  {
    Floor(4 * a + 3, 146097);
    Floor(146097 * b, 4);
    Floor(4 * c + 3, 1461);
    Floor(1461 * d, 4);
    Floor(5 * e + 2, 153);
  }

  lemma DateOfParts(jd: int, b: int, c: int, d: int, e: int, m: int, start: int, past: int)
    requires b == FloorDiv(4 * (jd + 32044) + 3, 146097) && c == jd + 32044 - FloorDiv(146097 * b, 4)
    requires d == FloorDiv(4 * c + 3, 1461) && e == c - FloorDiv(1461 * d, 4) && m == FloorDiv(5 * e + 2, 153)
    requires start == FloorDiv(153 * m + 2, 5) && past == FloorDiv(m, 10)
    ensures var year := 100 * b + d - 4800 + past;
            JdToYmd(jd) == Ymd(if year <= 0 then year - 1 else year, m + 3 - 12 * past, e - start + 1)
  {
  }

  /** The historical date of a March-based year, month and day of month. */
  function FromMarch(y: int, m: int, day: int): Ymd {
    var year := y - 4800 + if m >= 10 then 1 else 0;
    Ymd(if year <= 0 then year - 1 else year, if m >= 10 then m - 9 else m + 3, day)
  }

  /** A March-based date of the right ranges is a valid date with just those parts. */
  lemma MarchValid(y: int, m: int, e: int)
    requires 0 <= m <= 11 && 0 <= e < YearLength(y)
    requires MonthStart(m) <= e < if m < 11 then MonthStart(m + 1) else 366
    ensures var t := FromMarch(y, m, e - MonthStart(m) + 1);
            IsValid(t) && MarchYear(t) == y && MarchMonth(t) == m && MarchDay(t) == e
  {
    var t := FromMarch(y, m, e - MonthStart(m) + 1);
    MonthLengths(m);
    YearLengths(y);
    LeapAgrees(t.year);
  }

  /** Every Julian Day, negative ones included, is a valid date, and that date's Julian Day. */
  lemma FromJdToJd(jd: int)
    ensures IsValid(JdToYmd(jd)) && YmdToJd(JdToYmd(jd)) == jd
  {
    var y, m, e := FromJd(jd);
    MarchValid(y, m, e);
    ToJd(JdToYmd(jd));
  }

  /** Every valid date is the date of its own Julian Day. */
  lemma ToJdFromJd(t: Ymd)
    requires IsValid(t)
    ensures JdToYmd(YmdToJd(t)) == t
  {
    MarchRange(t);
    ToJd(t);
    DateOf(t, YmdToJd(t));
  }

  lemma DateOf(t: Ymd, jd: int)
    requires IsValid(t) && Days(MarchYear(t)) + MarchDay(t) - 32044 == jd
    ensures JdToYmd(jd) == t
  {
    var y, m, e := FromJd(jd);
    OneDate(t, y, m, e);
  }

  lemma OneDate(t: Ymd, y: int, m: int, e: int)
    requires IsValid(t) && Days(MarchYear(t)) + MarchDay(t) == Days(y) + e && 0 <= e < YearLength(y)
    requires 0 <= m <= 11 && MonthStart(m) <= e < if m < 11 then MonthStart(m + 1) else 366
    ensures FromMarch(y, m, e - MonthStart(m) + 1) == t
  {
    MarchRange(t);
    SameDate(MarchYear(t), MarchMonth(t), MarchDay(t), y, m, e);
    MarchParts(t);
  }

  /** A day has one March-based date. */
  lemma SameDate(y: int, m: int, e: int, z: int, n: int, f: int)
    requires Days(y) + e == Days(z) + f && 0 <= e < YearLength(y) && 0 <= f < YearLength(z)
    requires 0 <= m <= 11 && MonthStart(m) <= e < if m < 11 then MonthStart(m + 1) else 366
    requires 0 <= n <= 11 && MonthStart(n) <= f < if n < 11 then MonthStart(n + 1) else 366
    ensures y == z && m == n && e == f
  {
    SameYear(y, e, z, f);
    MonthOfDay(m, e);
    MonthOfDay(n, f);
  }

  lemma MarchParts(t: Ymd)
    requires t.year != 0 && 1 <= t.month <= 12
    ensures FromMarch(MarchYear(t), MarchMonth(t), MarchDay(t) - MonthStart(MarchMonth(t)) + 1) == t
  {
  }

  /** A valid date lies within its March-based month and year. */
  lemma MarchRange(t: Ymd)
    requires IsValid(t)
    ensures 1 <= t.month <= 12
    ensures var m, e := MarchMonth(t), MarchDay(t);
            && MonthStart(m) <= e < (if m < 11 then MonthStart(m + 1) else 366)
            && 0 <= e < YearLength(MarchYear(t))
  {
    MonthLengths(MarchMonth(t));
    LeapAgrees(t.year);
    YearLengths(MarchYear(t));
    assert MarchMonth(t) < 11 ==> MonthStart(MarchMonth(t) + 1) <= 337;
  }

  /** The order of dates as they are written. */
  predicate Earlier(t: Ymd, u: Ymd) {
    t.year < u.year || (t.year == u.year && (t.month < u.month || (t.month == u.month && t.day < u.day)))
  }

  /** Julian Days order valid dates as they are written. */
  lemma JdKeepsOrder(t: Ymd, u: Ymd)
    requires IsValid(t) && IsValid(u)
    ensures Earlier(t, u) <==> YmdToJd(t) < YmdToJd(u)
  {
    if Earlier(t, u) {
      EarlierJd(t, u);
    } else if Earlier(u, t) {
      EarlierJd(u, t);
    } else {
      assert t == u;
    }
  }

  lemma EarlierJd(t: Ymd, u: Ymd)
    requires IsValid(t) && IsValid(u) && Earlier(t, u)
    ensures YmdToJd(t) < YmdToJd(u)
  {
    MarchRange(t);
    MarchRange(u);
    MarchOrder(t, u);
    ToJd(t);
    ToJd(u);
  }

  /** Counting years from March keeps the order, since it only moves where the year begins. */
  lemma MarchOrder(t: Ymd, u: Ymd)
    requires t.year != 0 && u.year != 0 && 1 <= t.month <= 12 && 1 <= u.month <= 12
    requires MonthStart(MarchMonth(t)) <= MarchDay(t)
    requires MarchDay(t) < if MarchMonth(t) < 11 then MonthStart(MarchMonth(t) + 1) else 366
    requires MonthStart(MarchMonth(u)) <= MarchDay(u) && 0 <= MarchDay(u) && MarchDay(t) < YearLength(MarchYear(t))
    requires Earlier(t, u)
    ensures Days(MarchYear(t)) + MarchDay(t) < Days(MarchYear(u)) + MarchDay(u)
  {
  }

  lemma SameYear(y: int, d: int, z: int, e: int)
    requires Days(y) + d == Days(z) + e && 0 <= d < YearLength(y) && 0 <= e < YearLength(z)
    ensures y == z
  {
    if y < z {
      if y + 1 < z { DaysMonotone(y + 1, z); }
    } else if z < y {
      if z + 1 < y { DaysMonotone(z + 1, y); }
    }
  }
}
