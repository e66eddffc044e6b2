/** The second calendar, by 400-year eras, and the FILETIME conversions built on it. */
module SysTimer {
  import opened Wrappers
  import opened RustInt
  import opened DateTime

  const TICKS_PER_DAY := 864_000_000_000
  const TICKS_PER_HOUR := 36_000_000_000
  const TICKS_PER_MINUTE := 600_000_000
  const TICKS_PER_SECOND := 10_000_000
  const TICKS_PER_MS := 10_000
  const FILETIME_UNIX_DIFF_DAYS := 134_774
  const UNIX_EPOCH_JD := 2_440_588
  const TWO_64 := 0x1_0000_0000_0000_0000

  type u64 = x: int | 0 <= x < TWO_64
  type u16 = x: int | 0 <= x < 0x1_0000

  /** `days_from_civil`: days since 1970-01-01, for an astronomical year. */
  function DaysFromCivil(y0: int, m: int, d: int): int {
    var y := y0 - if m <= 2 then 1 else 0;
    var era := TruncDiv(if y >= 0 then y else y - 399, 400);
    var yoe := y - era * 400;
    var doy := TruncDiv(153 * (if m > 2 then m - 3 else m + 9) + 2, 5) + d - 1;
    var doe := yoe * 365 + TruncDiv(yoe, 4) - TruncDiv(yoe, 100) + doy;
    era * 146097 + doe - 719468
  }

  /** `civil_from_days`. */
  function CivilFromDays(z0: int): (int, int, int) {
    var z := z0 + 719468;
    var era := TruncDiv(if z >= 0 then z else z - 146096, 146097);
    CivilInEra(era, z - era * 146097)
  }

  function CivilInEra(era: int, doe: int): (int, int, int) {
    var yoe := TruncDiv(doe - TruncDiv(doe, 1460) + TruncDiv(doe, 36524) - TruncDiv(doe, 146096), 365);
    var y := yoe + era * 400;
    var doy := doe - (365 * yoe + TruncDiv(yoe, 4) - TruncDiv(yoe, 100));
    var mp := TruncDiv(5 * doy + 2, 153);
    var d := doy - TruncDiv(153 * mp + 2, 5) + 1;
    var m := if mp < 10 then mp + 3 else mp - 9;
    (if m <= 2 then y + 1 else y, m, d)
  }

  /** Historical years have no 0; astronomical ones do. */
  function Astronomical(year: int): int {
    if year < 0 then year + 1 else year
  }

  function Historical(year: int): int {
    if year <= 0 then year - 1 else year
  }

  lemma Era(y: int, n: int)
    requires n == 400 || n == 146097
    ensures TruncDiv(if y >= 0 then y else y - (n - 1), n) == y / n
  {
  }

  lemma EraDays(era: int, yoe: int)
    requires 0 <= yoe < 400
    ensures Days(400 * era + yoe) == 146097 * era + 365 * yoe + yoe / 4 - yoe / 100
  {
    var y := 400 * era + yoe;
    assert y / 400 == era && y / 100 == 4 * era + yoe / 100 && y / 4 == 100 * era + yoe / 4;
  }

  /** The two calendars count the same days. */
  lemma CalendarsAgree(t: Ymd)
    requires IsValid(t)
    ensures DaysFromCivil(Astronomical(t.year), t.month, t.day) == YmdToJd(t) - UNIX_EPOCH_JD
  {
    MarchRange(t);
    ToJd(t);
    var y := MarchYear(t) - 4800;
    Era(y, 400);
    EraDays(y / 400, y % 400);
    EraDays(y / 400 + 12, y % 400);
    CivilParts(t, y);
  }

  lemma CivilParts(t: Ymd, y: int)
    requires 1 <= t.month <= 12 && y == MarchYear(t) - 4800
    ensures DaysFromCivil(Astronomical(t.year), t.month, t.day)
            == y / 400 * 146097 + y % 400 * 365 + y % 400 / 4 - y % 400 / 100 + MarchDay(t) - 719468
  {
    Era(y, 400);
  }

  /** The year of an era from a day of it: the three corrections undo the leap days. */
  lemma YearOfEra(yoe: int, doy: int, doe: int)
    requires 0 <= yoe < 400 && 0 <= doy < YearLength(yoe)
    requires doe == 365 * yoe + yoe / 4 - yoe / 100 + doy
    ensures 0 <= doe < 146097
    ensures (doe - doe / 1460 + doe / 36524 - doe / 146096) / 365 == yoe
  {
    YearLengths(yoe);
    var c, q, r := yoe / 100, yoe % 100 / 4, yoe % 4;
    EraParts(yoe, c, q, r);
    var k := 1461 * q + 365 * r + doy;
    assert doe == 36524 * c + k;
    assert doy == 365 ==> r == 3 && (q == 24 ==> c == 3);
    CenturyOfEra(doe, c, q, r, k, doy);
    CycleOfEra(doe, c, q, r, doy);
  }

  lemma EraParts(yoe: int, c: int, q: int, r: int)
    requires 0 <= yoe < 400 && c == yoe / 100 && q == yoe % 100 / 4 && r == yoe % 4
    ensures 0 <= c <= 3 && 0 <= q <= 24 && 0 <= r <= 3
    ensures yoe == 100 * c + 4 * q + r && yoe / 4 == 25 * c + q
    ensures Leap(yoe + 1) ==> r == 3 && (q == 24 ==> c == 3)
  {
    assert yoe % 100 == 4 * q + yoe % 100 % 4;
  }

  /** Which century, and whether it is the very last day of the era. */
  lemma CenturyOfEra(doe: int, c: int, q: int, r: int, k: int, doy: int)
    requires 0 <= c <= 3 && 0 <= q <= 24 && 0 <= r <= 3 && 0 <= doy <= 365
    requires doe == 36524 * c + k && k == 1461 * q + 365 * r + doy
    requires doy == 365 ==> r == 3 && (q == 24 ==> c == 3)
    ensures 0 <= doe < 146097 && doe / 36524 - doe / 146096 == c
  {
    assert k <= 36524 && (k == 36524 ==> c == 3);
  }

  /** Which four-year cycle: the division by 1460 is one too high just on days that doy makes up for. */
  lemma CycleOfEra(doe: int, c: int, q: int, r: int, doy: int)
    requires 0 <= c <= 3 && 0 <= q <= 24 && 0 <= r <= 3 && 0 <= doy <= 365
    requires doy == 365 ==> r == 3
    requires doe == 36524 * c + 1461 * q + 365 * r + doy
    ensures doe / 1460 == 25 * c + q + (if 24 * c + q + 365 * r + doy >= 1460 then 1 else 0)
    ensures 0 <= doy - (doe / 1460 - 25 * c - q) < 365
  {
  }

  /** Both calendars read the same date off a day. */
  lemma CalendarsAgreeBack(z: int)
    ensures var t := JdToYmd(z + UNIX_EPOCH_JD);
            CivilFromDays(z) == (Astronomical(t.year), t.month, t.day)
  {
    var y, m, e := FromJd(z + UNIX_EPOCH_JD);
    CivilFromMarch(z, y, m, e);
  }

  lemma CivilFromMarch(z: int, y: int, m: int, e: int)
    requires z + UNIX_EPOCH_JD + 32044 == Days(y) + e && 0 <= e < YearLength(y) <= 366 && 0 <= m <= 11
    requires MonthStart(m) <= e < if m < 11 then MonthStart(m + 1) else 366
    ensures var t := FromMarch(y, m, e - MonthStart(m) + 1);
            CivilFromDays(z) == (Astronomical(t.year), t.month, t.day)
  {
    var era, yoe := (y - 4800) / 400, (y - 4800) % 400;
    DayOfEra(z, y, e, era, yoe);
    var doe := z + 719468 - 146097 * era;
    YearOfEra(yoe, e, doe);
    MonthOfDay(m, e);
    CivilDivisions(z, era, yoe, doe, e, m);
    MarchDate(y, m, e - MonthStart(m) + 1);
  }

  lemma MarchDate(y: int, m: int, day: int)
    ensures var t := FromMarch(y, m, day);
            && Astronomical(t.year) == y - 4800 + (if m >= 10 then 1 else 0)
            && t.month == (if m < 10 then m + 3 else m - 9) && t.day == day
  {
  }

  lemma DayOfEra(z: int, y: int, e: int, era: int, yoe: int)
    requires z + UNIX_EPOCH_JD + 32044 == Days(y) + e && y - 4800 == 400 * era + yoe && 0 <= yoe < 400
    ensures z + 719468 - 146097 * era == 365 * yoe + yoe / 4 - yoe / 100 + e
    ensures YearLength(y) == YearLength(yoe)
  {
    EraDays(era + 12, yoe);
    SameLength(y, era + 12, yoe);
  }

  lemma SameLength(y: int, n: int, yoe: int)
    requires y == 400 * n + yoe
    ensures YearLength(y) == YearLength(yoe)
  {
    assert (y + 1) / 400 == n + (yoe + 1) / 400 && y / 400 == n + yoe / 400;
    assert (y + 1) / 100 == 4 * n + (yoe + 1) / 100 && y / 100 == 4 * n + yoe / 100;
    assert (y + 1) / 4 == 100 * n + (yoe + 1) / 4 && y / 4 == 100 * n + yoe / 4;
  }

  lemma CivilDivisions(z: int, era: int, yoe: int, doe: int, e: int, m: int)
    requires 0 <= doe < 146097 && z + 719468 == 146097 * era + doe
    requires yoe == (doe - doe / 1460 + doe / 36524 - doe / 146096) / 365 && 0 <= yoe < 400
    requires e == doe - (365 * yoe + yoe / 4 - yoe / 100) && 0 <= e < 366
    requires m == (5 * e + 2) / 153 && 0 <= m <= 11
    ensures CivilFromDays(z) ==
            (era * 400 + yoe + (if m >= 10 then 1 else 0), if m < 10 then m + 3 else m - 9, e - MonthStart(m) + 1)
  {
    DaysEra(z + 719468, era, doe);
    EraDivisions(doe, yoe, e, m);
    CivilOfParts(era, doe, yoe, e, m);
  }

  lemma DaysEra(z: int, era: int, doe: int)
    requires 0 <= doe < 146097 && z == 146097 * era + doe
    ensures TruncDiv(if z >= 0 then z else z - 146096, 146097) == era
  {
    Era(z, 146097);
    Quotient(z, 146097, era, doe);
  }

  /** `civil_from_days` from the values of its divisions. */
  lemma CivilOfParts(era: int, doe: int, yoe: int, e: int, m: int)
    requires yoe == TruncDiv(doe - TruncDiv(doe, 1460) + TruncDiv(doe, 36524) - TruncDiv(doe, 146096), 365)
    requires e == doe - (365 * yoe + TruncDiv(yoe, 4) - TruncDiv(yoe, 100)) && m == TruncDiv(5 * e + 2, 153)
    requires TruncDiv(153 * m + 2, 5) == MonthStart(m) && 0 <= m <= 11
    ensures CivilInEra(era, doe) ==
            (era * 400 + yoe + (if m >= 10 then 1 else 0), if m < 10 then m + 3 else m - 9, e - MonthStart(m) + 1)
  {
  }

  /** None of the divisions within an era has a negative operand. */
  lemma EraDivisions(doe: int, yoe: int, e: int, m: int)
    requires 0 <= doe < 146097 && 0 <= yoe < 400 && 0 <= e < 366 && 0 <= m <= 11
    ensures TruncDiv(doe, 1460) == doe / 1460 && TruncDiv(doe, 36524) == doe / 36524
    ensures TruncDiv(doe, 146096) == doe / 146096
    ensures var n := doe - doe / 1460 + doe / 36524 - doe / 146096; TruncDiv(n, 365) == n / 365
    ensures TruncDiv(yoe, 4) == yoe / 4 && TruncDiv(yoe, 100) == yoe / 100
    ensures TruncDiv(5 * e + 2, 153) == (5 * e + 2) / 153 && TruncDiv(153 * m + 2, 5) == (153 * m + 2) / 5
  {
  }

  /** Days to date and back, on every integer; date to days and back, on every valid date. */
  lemma CivilInverse(z: int)
    ensures var (y, m, d) := CivilFromDays(z);
            IsValid(Ymd(Historical(y), m, d)) && DaysFromCivil(y, m, d) == z
  {
    var t := JdToYmd(z + UNIX_EPOCH_JD);
    CalendarsAgreeBack(z);
    FromJdToJd(z + UNIX_EPOCH_JD);
    CalendarsAgree(t);
    Eras(t.year);
  }

  lemma Eras(year: int)
    requires year != 0
    ensures Historical(Astronomical(year)) == year
  {
  }

  lemma DaysInverse(t: Ymd)
    requires IsValid(t)
    ensures CivilFromDays(DaysFromCivil(Astronomical(t.year), t.month, t.day))
            == (Astronomical(t.year), t.month, t.day)
  {
    CalendarsAgree(t);
    ToJdFromJd(t);
    CalendarsAgreeBack(YmdToJd(t) - UNIX_EPOCH_JD);
  }

  datatype SysTime = SysTime(year: u16, month: u16, day: u16, hour: u16, minute: u16, second: u16,
                             milliseconds: u16, isInvalid: bool)

  datatype FileTime = FileTime(ticks: u64, isInvalid: bool)

  /** `as u16`. */
  function AsU16(x: int): (r: u16)
    ensures 0 <= x < 0x1_0000 ==> r == x
  {
    x % 0x1_0000
  }

  /** `sys_file_to_system_time_utc`. */
  function FileToSystem(f: FileTime): SysTime {
    if f.isInvalid then SysTime(0, 0, 0, 0, 0, 0, 0, true)
    else
      var dayTicks := f.ticks % TICKS_PER_DAY;
      var (year, month, day) := CivilFromDays(f.ticks / TICKS_PER_DAY - FILETIME_UNIX_DIFF_DAYS);
      var second := dayTicks % TICKS_PER_MINUTE / TICKS_PER_SECOND;
      SysTime(AsU16(year), AsU16(month), AsU16(day),
              AsU16(dayTicks / TICKS_PER_HOUR),
              AsU16(dayTicks % TICKS_PER_HOUR / TICKS_PER_MINUTE),
              AsU16(if second == 60 then 59 else second),
              AsU16(dayTicks % TICKS_PER_SECOND / TICKS_PER_MS), false)
  }

  /** The ticks `sys_system_to_file_time_utc` adds up, before they must fit a u64: the day count is
      cast to u64, so days before 1601 become huge. */
  function Ticks(f: SysTime): nat {
    var days := DaysFromCivil(f.year, f.month, f.day) + FILETIME_UNIX_DIFF_DAYS;
    (if days < 0 then days % TWO_64 else days) * TICKS_PER_DAY + TimeTicks(f)
  }

  function TimeTicks(f: SysTime): nat {
    f.hour as int * TICKS_PER_HOUR + f.minute as int * TICKS_PER_MINUTE
      + f.second as int * TICKS_PER_SECOND + f.milliseconds as int * TICKS_PER_MS
  }

  /** `sys_system_to_file_time_utc`; None stands for an overflow of the u64 arithmetic, whose partial
      sums only grow. */
  function SystemToFile(f: SysTime): Option<FileTime> {
    if f.isInvalid then Some(FileTime(0, true))
    else if Ticks(f) < TWO_64 then Some(FileTime(Ticks(f), false))
    else None
  }

  predicate ValidTime(f: SysTime) {
    !f.isInvalid && IsValid(Ymd(f.year, f.month, f.day)) && f.hour < 24 && f.minute < 60 && f.second < 60
    && f.milliseconds < 1000
  }

  /** The time of day, out of its ticks and back. The leap-second clamp has nothing to clamp. */
  lemma TimeOfDay(ticks: int, h: int, m: int, s: int, ms: int)
    requires 0 <= ticks < TICKS_PER_DAY
    requires h == ticks / TICKS_PER_HOUR && m == ticks % TICKS_PER_HOUR / TICKS_PER_MINUTE
    requires s == ticks % TICKS_PER_MINUTE / TICKS_PER_SECOND && ms == ticks % TICKS_PER_SECOND / TICKS_PER_MS
    ensures 0 <= h < 24 && 0 <= m < 60 && 0 <= s < 60 && 0 <= ms < 1000
    ensures h * TICKS_PER_HOUR + m * TICKS_PER_MINUTE + s * TICKS_PER_SECOND + ms * TICKS_PER_MS
            == ticks - ticks % TICKS_PER_MS
  {
    Nested(ticks, TICKS_PER_HOUR, 60, TICKS_PER_MINUTE);
    Nested(ticks, TICKS_PER_MINUTE, 60, TICKS_PER_SECOND);
    Nested(ticks, TICKS_PER_SECOND, 1000, TICKS_PER_MS);
  }

  /** A remainder splits into the remainder by a divisor of the modulus, and whole ones of it. */
  lemma Nested(x: int, big: int, n: int, small: int)
    requires x >= 0 && small > 0 && n > 0 && big == n * small
    ensures x % big == x % big / small * small + x % small && 0 <= x % big / small < n
  {
    var q, r := x / big, x % big;
    assert x == q * big + r;
    assert q * big == q * n * small;
    var t := r / small;
    assert r == t * small + r % small;
    assert x == (q * n + t) * small + r % small;
    Quotient(x, small, q * n + t, r % small);
    if t >= n {
      NextMultiple(n - 1, t, small);
    }
  }

  /** The FILETIME epoch is 1601-01-01, and dates keep their order. */
  lemma EpochYear(t: Ymd)
    requires IsValid(t)
    ensures var z := YmdToJd(t) - UNIX_EPOCH_JD;
            && (z >= -FILETIME_UNIX_DIFF_DAYS <==> t.year >= 1601)
            && (z <= 21_215_625 ==> t.year <= 60_056)
            && (t.year >= 1 ==> z >= -1_000_000)
  {
    ToJd(t);
    MarchRange(t);
    var y := MarchYear(t);
    assert Days(6400) == 2_337_552;
    assert t.month > 2 ==> MonthStart(MarchMonth(t)) <= 275;
    assert MonthStart(10) == 306;
    if y < 6400 { DaysMonotone(y, 6400); }
    if y > 6400 { DaysMonotone(6400, y); }
  }

  /** The date half of the conversion: an existing date, of a year that fits, of the same day. */
  lemma FileDate(days: int)
    requires 0 <= days <= (TWO_64 - 1) / TICKS_PER_DAY
    ensures var (year, month, day) := CivilFromDays(days - FILETIME_UNIX_DIFF_DAYS);
            && 1601 <= year <= 60_056 && IsValid(Ymd(year, month, day)) && 1 <= month <= 12 && 1 <= day <= 31
            && DaysFromCivil(year, month, day) + FILETIME_UNIX_DIFF_DAYS == days
  {
    var (year, month, day) := CivilFromDays(days - FILETIME_UNIX_DIFF_DAYS);
    CivilInverse(days - FILETIME_UNIX_DIFF_DAYS);
    var t := Ymd(Historical(year), month, day);
    CalendarsAgree(t);
    EpochYear(t);
    MarchRange(t);
  }

  /** Ticks to calendar time and back lose only what is below a millisecond, for every tick count. */
  lemma FileRoundTrip(ticks: u64)
    ensures var f := FileToSystem(FileTime(ticks, false));
            ValidTime(f) && Ticks(f) == ticks - ticks % TICKS_PER_MS
            && SystemToFile(f) == Some(FileTime(Ticks(f), false))
  {
    var days, rest := ticks / TICKS_PER_DAY, ticks % TICKS_PER_DAY;
    var (year, month, day) := CivilFromDays(days - FILETIME_UNIX_DIFF_DAYS);
    FileDate(days);
    var h, m := rest / TICKS_PER_HOUR, rest % TICKS_PER_HOUR / TICKS_PER_MINUTE;
    var s, ms := rest % TICKS_PER_MINUTE / TICKS_PER_SECOND, rest % TICKS_PER_SECOND / TICKS_PER_MS;
    TimeOfDay(rest, h, m, s, ms);
    MsOfDay(ticks);
    FileParts(ticks, SysTime(year, month, day, h, m, s, ms, false));
    TicksAddUp(SysTime(year, month, day, h, m, s, ms, false), days, rest);
  }

  lemma TicksAddUp(f: SysTime, days: nat, rest: nat)
    requires DaysFromCivil(f.year, f.month, f.day) + FILETIME_UNIX_DIFF_DAYS == days
    requires TimeTicks(f) == rest - rest % TICKS_PER_MS
    ensures Ticks(f) == days * TICKS_PER_DAY + rest - rest % TICKS_PER_MS
  {
  }

  lemma MsOfDay(ticks: nat)
    ensures ticks % TICKS_PER_MS == ticks % TICKS_PER_DAY % TICKS_PER_MS
  {
    var q, r := ticks / TICKS_PER_DAY, ticks % TICKS_PER_DAY;
    Quotient(ticks, TICKS_PER_MS, q * 86_400_000 + r / TICKS_PER_MS, r % TICKS_PER_MS);
  }

  /** `FileToSystem`, when its casts to u16 change nothing. */
  lemma FileParts(ticks: u64, f: SysTime)
    requires CivilFromDays(ticks / TICKS_PER_DAY - FILETIME_UNIX_DIFF_DAYS) == (f.year, f.month, f.day) && !f.isInvalid
    requires var rest := ticks % TICKS_PER_DAY;
             && f.hour == rest / TICKS_PER_HOUR && f.minute == rest % TICKS_PER_HOUR / TICKS_PER_MINUTE
             && f.second == rest % TICKS_PER_MINUTE / TICKS_PER_SECOND && f.second != 60
             && f.milliseconds == rest % TICKS_PER_SECOND / TICKS_PER_MS
    ensures FileToSystem(FileTime(ticks, false)) == f
  {
  }

  /** The time of day, into ticks and back. */
  lemma TimeOfDayBack(h: int, m: int, s: int, ms: int, ticks: int)
    requires 0 <= h < 24 && 0 <= m < 60 && 0 <= s < 60 && 0 <= ms < 1000
    requires ticks == h * TICKS_PER_HOUR + m * TICKS_PER_MINUTE + s * TICKS_PER_SECOND + ms * TICKS_PER_MS
    ensures 0 <= ticks < TICKS_PER_DAY
    ensures ticks / TICKS_PER_HOUR == h && ticks % TICKS_PER_HOUR / TICKS_PER_MINUTE == m
    ensures ticks % TICKS_PER_MINUTE / TICKS_PER_SECOND == s && ticks % TICKS_PER_SECOND / TICKS_PER_MS == ms
  {
    Quotient(ticks, TICKS_PER_HOUR, h, m * TICKS_PER_MINUTE + s * TICKS_PER_SECOND + ms * TICKS_PER_MS);
    Quotient(ticks, TICKS_PER_MINUTE, 60 * h + m, s * TICKS_PER_SECOND + ms * TICKS_PER_MS);
    Quotient(ticks, TICKS_PER_SECOND, 3600 * h + 60 * m + s, ms * TICKS_PER_MS);
  }

  /** The date half of the conversion to ticks. */
  lemma SystemDate(f: SysTime) returns (days: int)
    requires ValidTime(f)
    ensures days == DaysFromCivil(f.year, f.month, f.day) + FILETIME_UNIX_DIFF_DAYS
    ensures CivilFromDays(days - FILETIME_UNIX_DIFF_DAYS) == (f.year, f.month, f.day)
    ensures -1_000_000 <= days && (days >= 0 <==> f.year >= 1601)
    ensures var t := Ymd(f.year, f.month, f.day);
            (days < LAST_DAY <==> Earlier(t, LAST_DATE)) && (days == LAST_DAY <==> t == LAST_DATE)
  {
    var t := Ymd(f.year, f.month, f.day);
    days := DaysFromCivil(f.year, f.month, f.day) + FILETIME_UNIX_DIFF_DAYS;
    CalendarsAgree(t);
    EpochYear(t);
    DaysInverse(t);
    ComparedToLast(t);
  }

  /** The last day of 64-bit ticks, and how far they reach into it: to 05:36:10.955. */
  const LAST_DAY := 21_350_398
  const LAST_DATE := Ymd(60_056, 5, 28)
  const LAST_TICKS := 201_709_551_615

  lemma ComparedToLast(t: Ymd)
    requires IsValid(t)
    ensures var days := YmdToJd(t) - UNIX_EPOCH_JD + FILETIME_UNIX_DIFF_DAYS;
            (days < LAST_DAY <==> Earlier(t, LAST_DATE)) && (days == LAST_DAY <==> t == LAST_DATE)
  {
    LastIsValid();
    JdKeepsOrder(t, LAST_DATE);
    JdKeepsOrder(LAST_DATE, t);
  }

  lemma LastIsValid()
    ensures IsValid(LAST_DATE) && YmdToJd(LAST_DATE) == LAST_DAY + UNIX_EPOCH_JD - FILETIME_UNIX_DIFF_DAYS
  {
    ToJd(LAST_DATE);
  }

  lemma BeforeEpoch(f: SysTime, days: int)
    requires days == DaysFromCivil(f.year, f.month, f.day) + FILETIME_UNIX_DIFF_DAYS && -1_000_000 <= days < 0
    ensures Ticks(f) >= TWO_64
  {
    Quotient(days, TWO_64, -1, days + TWO_64);
  }

  lemma SinceEpoch(f: SysTime, days: int)
    requires days == DaysFromCivil(f.year, f.month, f.day) + FILETIME_UNIX_DIFF_DAYS && 0 <= days
    requires TimeTicks(f) < TICKS_PER_DAY
    ensures Ticks(f) == days * TICKS_PER_DAY + TimeTicks(f)
    ensures Ticks(f) / TICKS_PER_DAY == days && Ticks(f) % TICKS_PER_DAY == TimeTicks(f)
  {
    Quotient(Ticks(f), TICKS_PER_DAY, days, TimeTicks(f));
  }

  /** The times whose ticks fit 64 bits. */
  predicate InFileTime(f: SysTime) {
    var t := Ymd(f.year, f.month, f.day);
    f.year >= 1601 && (Earlier(t, LAST_DATE) || (t == LAST_DATE && TimeTicks(f) <= LAST_TICKS))
  }

  /** Tick 0 is the start of 1601, and tick 116444736000000000 that of 1970. */
  lemma Epochs(year: u16)
    requires year == 1601 || year == 1970
    ensures var f := SysTime(year, 1, 1, 0, 0, 0, 0, false);
            SystemToFile(f) == Some(FileTime(if year == 1601 then 0 else 116_444_736_000_000_000, false))
  {
    assert DaysFromCivil(year, 1, 1) == if year == 1601 then -134774 else 0;
  }

  /** Calendar time to ticks and back: an existing time is converted if and only if it lies between the epoch
      and the last tick, and then comes back the same. */
  lemma SystemRoundTrip(f: SysTime)
    requires ValidTime(f)
    ensures SystemToFile(f).Some? <==> InFileTime(f)
    ensures SystemToFile(f).Some? ==> FileToSystem(SystemToFile(f).value) == f
  {
    var days := SystemDate(f);
    if days < 0 {
      BeforeEpoch(f, days);
    } else {
      TicksBack(f, days);
      Converted(f, days, TimeTicks(f));
      TicksFit(days, TimeTicks(f));
    }
  }

  lemma Converted(f: SysTime, days: nat, ticks: nat)
    requires !f.isInvalid && Ticks(f) == days * TICKS_PER_DAY + ticks
    ensures SystemToFile(f).Some? <==> days * TICKS_PER_DAY + ticks < TWO_64
    ensures SystemToFile(f).Some? ==> Ticks(f) < TWO_64 && SystemToFile(f).value == FileTime(Ticks(f), false)
  {
  }

  lemma TicksFit(days: nat, ticks: nat)
    requires ticks < TICKS_PER_DAY
    ensures days * TICKS_PER_DAY + ticks < TWO_64 <==>
            days < LAST_DAY || (days == LAST_DAY && ticks <= LAST_TICKS)
  {
  }

  lemma TicksBack(f: SysTime, days: nat)
    requires ValidTime(f) && days == DaysFromCivil(f.year, f.month, f.day) + FILETIME_UNIX_DIFF_DAYS
    requires CivilFromDays(days - FILETIME_UNIX_DIFF_DAYS) == (f.year, f.month, f.day)
    ensures Ticks(f) == days * TICKS_PER_DAY + TimeTicks(f) && TimeTicks(f) < TICKS_PER_DAY
    ensures Ticks(f) < TWO_64 ==> FileToSystem(FileTime(Ticks(f), false)) == f
  {
    TimeOfDayBack(f.hour, f.minute, f.second, f.milliseconds, TimeTicks(f));
    SinceEpoch(f, days);
    if Ticks(f) < TWO_64 {
      FileParts(Ticks(f), f);
    }
  }
}
