/** What Julian Day arithmetic means in the calendar: the next day, the day of the week and of the
    year; and where the 32-bit arithmetic of the implementation is exact. */
module DateArithmetic {
  import opened Wrappers
  import opened RustInt
  import opened DateTime

  function DaysInMonth(year: int, month: int): int {
    if month == 2 && IsLeapYear(year) then 29 else DaysInMonthStatic(month)
  }

  function DaysInYear(year: int): int {
    if IsLeapYear(year) then 366 else 365
  }

  /** The calendar's own rule for tomorrow: month end, year end, and no year 0. */
  function NextDay(t: Ymd): Ymd {
    if t.day < DaysInMonth(t.year, t.month) then Ymd(t.year, t.month, t.day + 1)
    else if t.month < 12 then Ymd(t.year, t.month + 1, 1)
    else Ymd(if t.year == -1 then 1 else t.year + 1, 1, 1)
  }

  function Later(t: Ymd, days: nat): Ymd {
    if days == 0 then t else NextDay(Later(t, days - 1))
  }

  lemma NextDayAddsOne(t: Ymd)
    requires IsValid(t)
    ensures IsValid(NextDay(t)) && YmdToJd(NextDay(t)) == YmdToJd(t) + 1
  {
    MarchRange(t);
    ToJd(t);
    NextDayInMarch(t);
    ToJd(NextDay(t));
  }

  lemma NextDayInMarch(t: Ymd)
    requires IsValid(t) && 1 <= t.month <= 12
    ensures var n := NextDay(t);
            IsValid(n) && 1 <= n.month <= 12 && Days(MarchYear(n)) + MarchDay(n) == Days(MarchYear(t)) + MarchDay(t) + 1
  {
    var n := NextDay(t);
    if t.day < DaysInMonth(t.year, t.month) {
      assert MarchYear(n) == MarchYear(t) && MarchDay(n) == MarchDay(t) + 1;
    } else if t.month == 2 {
      FebruaryEnd(t);
    } else {
      assert MarchYear(n) == MarchYear(t) && MarchMonth(n) == MarchMonth(t) + 1;
      MonthLengths(MarchMonth(t));
    }
  }

  /** After the last of February a new March-based year begins. */
  lemma FebruaryEnd(t: Ymd)
    requires IsValid(t) && t.month == 2 && t.day == DaysInMonth(t.year, 2)
    ensures MarchDay(t) + 1 == YearLength(MarchYear(t))
    ensures MarchYear(NextDay(t)) == MarchYear(t) + 1 && MarchDay(NextDay(t)) == 0
  {
    LeapAgrees(t.year);
    YearLengths(MarchYear(t));
    assert MonthStart(11) == 337 && MonthStart(0) == 0;
  }

  /** Counting days in the calendar is counting Julian Days. */
  lemma {:induction false} LaterAddsDays(t: Ymd, days: nat)
    requires IsValid(t)
    ensures IsValid(Later(t, days)) && YmdToJd(Later(t, days)) == YmdToJd(t) + days
  {
    if days > 0 {
      LaterAddsDays(t, days - 1);
      NextDayAddsOne(Later(t, days - 1));
    }
  }

  /** And counting Julian Days is counting days in the calendar. */
  lemma JdCountsDays(jd: int, days: nat)
    ensures JdToYmd(jd + days) == Later(JdToYmd(jd), days)
  {
    forall j
      ensures Follows(JdToYmd, j)
    {
      NextJd(j);
    }
    Follow(JdToYmd, jd, days);
  }

  predicate Follows(date: int -> Ymd, jd: int) {
    date(jd + 1) == NextDay(date(jd))
  }

  lemma {:induction false} Follow(date: int -> Ymd, jd: int, days: nat)
    requires forall j :: Follows(date, j)
    ensures date(jd + days) == Later(date(jd), days)
  {
    if days > 0 {
      Follow(date, jd, days - 1);
      assert Follows(date, jd + days - 1);
    }
  }

  lemma NextJd(jd: int)
    ensures JdToYmd(jd + 1) == NextDay(JdToYmd(jd))
  {
    FromJdToJd(jd);
    NextJdOf(JdToYmd(jd), jd);
  }

  lemma NextJdOf(t: Ymd, jd: int)
    requires IsValid(t) && YmdToJd(t) == jd
    ensures JdToYmd(jd + 1) == NextDay(t)
  {
    NextDayAddsOne(t);
    ByMarch(NextDay(t), jd + 1);
  }

  lemma ByMarch(t: Ymd, jd: int)
    requires IsValid(t) && YmdToJd(t) == jd
    ensures JdToYmd(jd) == t
  {
    MarchRange(t);
    ToJd(t);
    DateOf(t, jd);
  }

  /** `day_of_week`: Monday is 1. */
  function DayOfWeek(jd: int): int {
    if jd >= 0 then TruncMod(jd, 7) + 1 else TruncMod(jd + 1, 7) + 7
  }

  /** It cycles through 1..7 without a seam at zero. */
  lemma DayOfWeekCycles(jd: int)
    ensures 1 <= DayOfWeek(jd) <= 7
    ensures DayOfWeek(jd + 1) == if DayOfWeek(jd) == 7 then 1 else DayOfWeek(jd) + 1
    ensures DayOfWeek(jd + 7) == DayOfWeek(jd)
  {
    DayOfWeekIsMod(jd);
    DayOfWeekIsMod(jd + 1);
    DayOfWeekIsMod(jd + 7);
    WeekSteps(jd);
  }

  /** Where both counts are anchored: the Unix epoch is Julian Day 2440588, a Thursday. */
  lemma UnixEpoch(t: Ymd)
    requires t == Ymd(1970, 1, 1)
    ensures YmdToJd(t) == 2440588 && DayOfWeek(YmdToJd(t)) == 4
  {
    DayOfWeekIsMod(YmdToJd(t));
    EpochJd(t);
  }

  lemma EpochJd(t: Ymd)
    requires t == Ymd(1970, 1, 1)
    ensures YmdToJd(t) == 2440588
  {
    MarchRange(t);
    ToJd(t);
  }

  lemma WeekSteps(x: int)
    ensures (x + 1) % 7 == if x % 7 == 6 then 0 else x % 7 + 1
    ensures (x + 7) % 7 == x % 7
  {
  }

  lemma DayOfWeekIsMod(jd: int)
    ensures DayOfWeek(jd) == jd % 7 + 1
  {
  }

  /** `day_of_year`. */
  function DayOfYear(jd: int): int {
    jd - YmdToJd(Ymd(JdToYmd(jd).year, 1, 1)) + 1
  }

  /** The days of a year before a month, month by month. */
  function DaysBefore(year: int, month: nat): int {
    if month <= 1 then 0 else DaysBefore(year, month - 1) + DaysInMonth(year, month - 1)
  }

  lemma DaysBeforeIs(year: int, month: nat)
    requires 1 <= month <= 13
    ensures DaysBefore(year, month) ==
            if month <= 2 then 31 * (month - 1)
            else MonthStart(month - 3) + if IsLeapYear(year) then 60 else 59
  {
    assert DaysBefore(year, 2) == 31;
    assert DaysBefore(year, 3) == 31 + DaysInMonth(year, 2);
    if month > 3 {
      DaysBeforeIs(year, month - 1);
      MonthLengths(month - 4);
    }
  }

  /** The day of the year is the days of the months before, and the day of the month. */
  lemma DayOfYearIs(jd: int)
    ensures var t := JdToYmd(jd);
            && IsValid(t) && 1 <= t.month
            && DayOfYear(jd) == DaysBefore(t.year, t.month) + t.day
            && 1 <= DayOfYear(jd) <= DaysInYear(t.year)
            && (DayOfYear(jd) == DaysInYear(t.year) <==> t.month == 12 && t.day == 31)
  {
    var t := JdToYmd(jd);
    FromJdToJd(jd);
    SinceNewYear(t);
    YearEnd(t);
  }

  lemma SinceNewYear(t: Ymd)
    requires IsValid(t)
    ensures 1 <= t.month && YmdToJd(t) - YmdToJd(Ymd(t.year, 1, 1)) + 1 == DaysBefore(t.year, t.month) + t.day
  {
    var jan1 := Ymd(t.year, 1, 1);
    MarchRange(t);
    ToJd(t);
    ToJd(jan1);
    SinceNewYearInMarch(t, jan1);
  }

  lemma SinceNewYearInMarch(t: Ymd, jan1: Ymd)
    requires t.year != 0 && 1 <= t.month <= 12 && jan1 == Ymd(t.year, 1, 1)
    ensures Days(MarchYear(t)) + MarchDay(t) - Days(MarchYear(jan1)) - MarchDay(jan1) + 1
            == DaysBefore(t.year, t.month) + t.day
  {
    DaysBeforeIs(t.year, t.month);
    assert MarchDay(jan1) == 306;
    if t.month > 2 {
      LeapAgrees(t.year);
      assert MarchYear(t) == MarchYear(jan1) + 1;
      YearLengths(MarchYear(jan1));
    }
  }

  /** A day fits in what is left of its year. */
  lemma YearEnd(t: Ymd)
    requires IsValid(t)
    ensures 1 <= DaysBefore(t.year, t.month) + t.day <= DaysInYear(t.year)
    ensures DaysBefore(t.year, t.month) + t.day == DaysInYear(t.year) <==> t.month == 12 && t.day == 31
  {
    MarchRange(t);
    DaysBeforeIs(t.year, t.month);
    if t.month > 2 {
      MonthLengths(t.month - 3);
      assert t.month < 12 ==> MonthStart(t.month - 2) <= MonthStart(9);
    }
  }

  /** A call `floordiv(a, b)` stays within 32 bits, its own subtraction included. */
  predicate FloorFits(a: int, b: int) {
    InI32(a) && InI32(b) && (a < 0 ==> InI32(a - (b - 1)))
  }

  /** No step of `ymd_to_jd` leaves 32 bits. */
  predicate YmdFits(t: Ymd) {
    var year := if t.year < 0 then t.year + 1 else t.year;
    var a := FloorDiv(14 - t.month, 12);
    var s1 := t.day + FloorDiv(153 * (t.month + 12 * a - 3) + 2, 5);
    && MonthFits(t.month, a) && InI32(t.year) && InI32(year + 4800) && InI32(s1) && SumFits(s1, year + 4800 - a)
  }

  predicate MonthFits(month: int, a: int) {
    var m := month + 12 * a - 3;
    && FloorFits(14 - month, 12) && InI32(12 * a) && InI32(month + 12 * a) && InI32(m)
    && InI32(153 * m) && FloorFits(153 * m + 2, 5)
  }

  predicate SumFits(s1: int, y: int) {
    var s2 := s1 + 365 * y;
    var s3 := s2 + FloorDiv(y, 4);
    var s4 := s3 - FloorDiv(y, 100);
    var s5 := s4 + FloorDiv(y, 400);
    && InI32(365 * y) && FloorFits(y, 4) && FloorFits(y, 100) && FloorFits(y, 400)
    && InI32(s2) && InI32(s3) && InI32(s4) && InI32(s5) && InI32(s5 - 32045)
  }

  /** No step of `jd_to_ymd` leaves 32 bits. */
  predicate JdFits(jd: int) {
    var a := jd + 32044;
    var b := FloorDiv(4 * a + 3, 146097);
    var c := a - FloorDiv(146097 * b, 4);
    var d := FloorDiv(4 * c + 3, 1461);
    var e := c - FloorDiv(1461 * d, 4);
    var m := FloorDiv(5 * e + 2, 153);
    InI32(jd) && InI32(a) && InI32(4 * a) && FloorFits(4 * a + 3, 146097) && PartsFit(b, c, d, e, m)
  }

  predicate PartsFit(b: int, c: int, d: int, e: int, m: int) {
    && FloorFits(146097 * b, 4) && InI32(4 * c) && FloorFits(4 * c + 3, 1461) && FloorFits(1461 * d, 4)
    && InI32(5 * e) && FloorFits(5 * e + 2, 153) && InI32(153 * m) && FloorFits(153 * m + 2, 5)
    && FloorFits(m, 10) && InI32(100 * b) && InI32(100 * b + d) && InI32(100 * b + d - 4800)
  }

  /** The first and the last date whose Julian Day is computed without leaving 32 bits. */
  const FIRST_FIT := Ymd(-5_884_291, 5, 14)
  const LAST_FIT := Ymd(5_874_689, 12, 15)

  predicate Between(first: Ymd, t: Ymd, last: Ymd) {
    !Earlier(t, first) && !Earlier(last, t)
  }

  /** No step of `ymd_to_jd` leaves 32 bits on this range of dates and no other. */
  lemma YmdFitsRange(t: Ymd)
    requires IsValid(t)
    ensures YmdFits(t) <==> Between(FIRST_FIT, t, LAST_FIT)
  {
    FitEnds();
    PartialSumFits(t);
    PartialSumOrder(t, FIRST_FIT);
    PartialSumOrder(LAST_FIT, t);
  }

  /** The sum of day, month and year with a leap day every fourth one: the farthest of the steps from 0. */
  function PartialSum(t: Ymd): int {
    MarchDay(t) + 1 + 365 * MarchYear(t) + MarchYear(t) / 4
  }

  lemma FitEnds()
    ensures IsValid(FIRST_FIT) && PartialSum(FIRST_FIT) == -0x8000_0000
    ensures IsValid(LAST_FIT) && PartialSum(LAST_FIT) == 0x7fff_ffff
  {
  }

  /** It decides whether all steps fit. */
  lemma PartialSumFits(t: Ymd)
    requires IsValid(t)
    ensures YmdFits(t) <==> InI32(PartialSum(t))
  {
    MonthStep(t);
    MonthFitsAlways(t.month, FloorDiv(14 - t.month, 12));
    SumFitsIff(MarchDay(t) + 1, MarchYear(t));
    FitsBySum(t, MarchDay(t) + 1, MarchYear(t));
  }

  lemma FitsBySum(t: Ymd, s1: int, y: int)
    requires var a := FloorDiv(14 - t.month, 12);
             && 0 <= a <= 1 && MonthFits(t.month, a)
             && s1 == t.day + FloorDiv(153 * (t.month + 12 * a - 3) + 2, 5)
             && y == (if t.year < 0 then t.year + 1 else t.year) + 4800 - a
    requires InI32(s1) && (SumFits(s1, y) ==> -5_890_000 <= y <= 5_890_000)
    ensures YmdFits(t) <==> SumFits(s1, y)
  {
  }

  lemma MonthStep(t: Ymd)
    requires IsValid(t)
    ensures var a := FloorDiv(14 - t.month, 12);
            && 1 <= t.month <= 12 && a == (14 - t.month) / 12 && 0 <= a <= 1
            && MarchYear(t) == (if t.year < 0 then t.year + 1 else t.year) + 4800 - a
            && MarchDay(t) + 1 == t.day + FloorDiv(153 * (t.month + 12 * a - 3) + 2, 5) && 0 <= MarchDay(t) < 366
  {
    MarchRange(t);
    YearLengths(MarchYear(t));
    Floor(14 - t.month, 12);
    Floor(153 * MarchMonth(t) + 2, 5);
  }

  lemma MonthFitsAlways(month: int, a: int)
    requires 1 <= month <= 12 && a == (14 - month) / 12
    ensures MonthFits(month, a)
  {
  }

  lemma SumFitsIff(s1: int, y: int)
    requires 1 <= s1 <= 366
    ensures SumFits(s1, y) <==> InI32(s1 + 365 * y + y / 4)
    ensures SumFits(s1, y) ==> -5_890_000 <= y <= 5_890_000
  {
    Floor(y, 4);
    Floor(y, 100);
    Floor(y, 400);
  }

  /** It orders dates as they are written, as a Julian year is never shorter than a Gregorian one. */
  lemma PartialSumOrder(t: Ymd, u: Ymd)
    requires IsValid(t) && IsValid(u)
    ensures Earlier(t, u) <==> PartialSum(t) < PartialSum(u)
  {
    if Earlier(t, u) {
      EarlierSum(t, u);
    } else if Earlier(u, t) {
      EarlierSum(u, t);
    } else {
      assert t == u;
    }
  }

  lemma EarlierSum(t: Ymd, u: Ymd)
    requires IsValid(t) && IsValid(u) && Earlier(t, u)
    ensures PartialSum(t) < PartialSum(u)
  {
    MarchRange(t);
    MarchRange(u);
    MarchBefore(t, u);
    SumGrows(MarchYear(t), MarchDay(t), MarchYear(u), MarchDay(u));
  }

  lemma MarchBefore(t: Ymd, u: Ymd)
    requires t.year != 0 && u.year != 0 && 1 <= t.month <= 12 && 1 <= u.month <= 12 && Earlier(t, u)
    requires MarchDay(t) < if MarchMonth(t) < 11 then MonthStart(MarchMonth(t) + 1) else 366
    requires MonthStart(MarchMonth(u)) <= MarchDay(u)
    ensures MarchYear(t) < MarchYear(u) || (MarchYear(t) == MarchYear(u) && MarchDay(t) < MarchDay(u))
  {
  }

  lemma SumGrows(y: int, e: int, z: int, f: int)
    requires 0 <= e < YearLength(y) && 0 <= f && (y < z || (y == z && e < f))
    ensures e + 365 * y + y / 4 < f + 365 * z + z / 4
  {
    if y < z {
      YearLengths(y);
      Quarters(y + 1, z);
    }
  }

  lemma Quarters(y: int, z: int)
    requires y <= z
    ensures z / 4 >= y / 4 && (Leap(y) ==> y / 4 == (y - 1) / 4 + 1)
  {
  }

  /** The way back is exact on this range of Julian Days and no other: about 1.46 million years. */
  lemma JdFitsRange(jd: int)
    ensures JdFits(jd) <==> -536_866_432 <= jd <= 536_838_867
  {
  }

  /** The first and the last date that come back. */
  const FIRST_BACK := Ymd(-1_474_604, 7, 13)
  const LAST_BACK := Ymd(1_465_102, 10, 18)

  /** So both directions stay within 32 bits, and are inverse, on this range of dates and no other. */
  lemma SetGetRange(t: Ymd)
    requires IsValid(t)
    ensures YmdFits(t) && JdFits(YmdToJd(t)) <==> Between(FIRST_BACK, t, LAST_BACK)
    ensures JdToYmd(YmdToJd(t)) == t
  {
    ToJdFromJd(t);
    BackEnds();
    JdFitsRange(YmdToJd(t));
    JdKeepsOrder(t, FIRST_BACK);
    JdKeepsOrder(LAST_BACK, t);
    YmdFitsRange(t);
  }

  lemma BackEnds()
    ensures IsValid(FIRST_BACK) && YmdToJd(FIRST_BACK) == -536_866_432
    ensures IsValid(LAST_BACK) && YmdToJd(LAST_BACK) == 536_838_867
  {
    ToJd(FIRST_BACK);
    ToJd(LAST_BACK);
  }

  /** In particular for a million years either way, but not for two million. */
  lemma SetGetYears(t: Ymd)
    requires IsValid(t)
    ensures -1_000_000 <= t.year <= 1_000_000 ==> YmdFits(t) && JdFits(YmdToJd(t)) && JdToYmd(YmdToJd(t)) == t
    ensures t == Ymd(2_000_000, 1, 1) ==> YmdFits(t) && !JdFits(YmdToJd(t))
  {
    SetGetRange(t);
    YmdFitsRange(t);
    MillionYears(t);
  }

  lemma MillionYears(t: Ymd)
    ensures -1_000_000 <= t.year <= 1_000_000 ==>
              Between(FIRST_BACK, t, LAST_BACK) && Between(FIRST_FIT, t, LAST_FIT)
    ensures t == Ymd(2_000_000, 1, 1) ==> Between(FIRST_FIT, t, LAST_FIT) && !Between(FIRST_BACK, t, LAST_BACK)
  {
  }

  lemma FitsIsNumber(t: Ymd)
    requires YmdFits(t)
    ensures InI32(YmdToJd(t))
  {
  }

  /** A date: a Julian Day, with the least 32-bit number for "invalid". */
  class Date {
    var jd: i32

    constructor (jd: i32)
      ensures this.jd == jd
    {
      this.jd := jd;
    }

    predicate IsInvalid()
      reads this
    {
      jd == DATE_JD_INVALID
    }

    /** Any year, month and day: a date that does not exist makes the object invalid. False stands for a step that
        leaves 32 bits. */
    method Set(t: Ymd) returns (ok: bool)
      modifies this
      ensures ok <==> (IsValid(t) ==> Between(FIRST_FIT, t, LAST_FIT))
      ensures ok ==> jd == if IsValid(t) then YmdToJd(t) else DATE_JD_INVALID
      ensures IsValid(t) && Between(FIRST_BACK, t, LAST_BACK) ==> ok && Get() == Some(t)
      ensures !ok ==> jd == old(jd)
    {
      if IsValid(t) {
        YmdFitsRange(t);
        SetGetRange(t);
        if !YmdFits(t) {
          return false;
        }
        FitsIsNumber(t);
        jd := YmdToJd(t);
      } else {
        jd := DATE_JD_INVALID;
      }
      ok := true;
    }

    function Get(): Option<Ymd>
      reads this
    {
      if IsInvalid() then Some(Ymd(0, 0, 0)) else if JdFits(jd) then Some(JdToYmd(jd)) else None
    }

    /** `+=`: a calendar day for each day added. It does not look whether the date is valid. False stands for a sum
        that is not a 32-bit number. */
    method AddDays(days: i32) returns (ok: bool)
      modifies this
      ensures ok <==> InI32(old(jd) + days)
      ensures jd == if ok then old(jd) + days else old(jd)
      ensures ok && days >= 0 ==> Counts(old(jd), days, jd)
      ensures ok && days < 0 ==> Counts(jd, -(days as int), old(jd))
    {
      ok := InI32(jd + days);
      if ok {
        if days >= 0 {
          CountsAlways(jd, days);
        } else {
          CountsAlways(jd + days, -(days as int));
        }
        jd := jd + days;
      }
    }

    /** `-=`. */
    method SubDays(days: i32) returns (ok: bool)
      modifies this
      ensures ok <==> InI32(old(jd) - days)
      ensures jd == if ok then old(jd) - days else old(jd)
      ensures ok && days >= 0 ==> Counts(jd, days, old(jd))
      ensures ok && days < 0 ==> Counts(old(jd), -(days as int), jd)
    {
      ok := InI32(jd - days);
      if ok {
        if days >= 0 {
          CountsAlways(jd - days, days);
        } else {
          CountsAlways(jd, -(days as int));
        }
        jd := jd - days;
      }
    }
  }

  /** The calendar date of `from`, counted `days` days on, is the date of `to`. */
  ghost predicate Counts(from: int, days: nat, to: int) {
    forall t {:trigger Later(t, days)} :: IsValid(t) && YmdToJd(t) == from ==> YmdToJd(Later(t, days)) == to
  }

  lemma CountsAlways(from: int, days: nat)
    ensures Counts(from, days, from + days)
  {
    forall t | IsValid(t) && YmdToJd(t) == from
      ensures YmdToJd(Later(t, days)) == from + days
    {
      LaterAddsDays(t, days);
    }
  }
}
