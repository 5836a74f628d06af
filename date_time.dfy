/** `DLDateTime`: a civil date and time held twice, as a Windows FILETIME count
    (`time64`, 100-nanosecond intervals since 1601-01-01) and as a bit-packed 64-bit
    record (`PackedDate`). */
module DateTime {

  /** Rust's `u64`: the range `time64` lives in. */
  type U64 = x: int | 0 <= x < 0x1_0000_0000_0000_0000

  const U64_MODULUS: int := 0x1_0000_0000_0000_0000

  /** A value reduced to `u64` the way release builds do it: an `i64 as u64` cast or a
      `u64` multiplication or addition that overflows keeps the low 64 bits. */
  function Wrap64(x: int): (r: U64)
    ensures 0 <= x < U64_MODULUS ==> r == x
  {
    x % U64_MODULUS
  }

  /** Rust's `/` on `i64` with a positive divisor: the quotient rounds toward zero. */
  function TruncDiv(a: int, b: int): int
    requires b > 0
  {
    if a >= 0 then a / b else -((-a) / b)
  }

  // ---------------------------------------------------------------------------
  // Calendar arithmetic of `calculate_time64`

  /** `is_leap_year`: the Gregorian rule. */
  predicate IsLeapYear(year: int)
  {
    (year % 4 == 0 && year % 100 != 0) || year % 400 == 0
  }

  /** `DAYS_BEFORE_MONTH`: index `m` holds the days of a common year before month `m`;
      index 0 is unused by valid months but reachable from a month of 0. */
  const DAYS_BEFORE_MONTH: seq<int> := [0, 0, 31, 59, 90, 120, 151, 181, 212, 243, 273, 304, 334]

  /** `days_since_1601`, as the code computes it. A month above 12 indexes past the end
      of the table, which panics; the precondition stands for that. */
  function DaysSince1601(year: int, month: int, day: int): int
    requires 0 <= month < |DAYS_BEFORE_MONTH|
  {
    var n := year - 1601;
    n * 365
    + (TruncDiv(n, 4) - TruncDiv(n, 100) + TruncDiv(n, 400))
    + DAYS_BEFORE_MONTH[month]
    + (day - 1)
    + (if IsLeapYear(year) && month > 2 then 1 else 0)
  }

  // Reference calendar: days counted one year and one month at a time.

  function DaysInYear(year: int): int
  {
    if IsLeapYear(year) then 366 else 365
  }

  function DaysInMonth(year: int, month: int): int
    requires 1 <= month <= 12
  {
    if month == 2 then (if IsLeapYear(year) then 29 else 28)
    else if month == 4 || month == 6 || month == 9 || month == 11 then 30
    else 31
  }

  /** The number of leap years in `[1601, year)`, counted one by one. */
  function LeapYearsSince1601(year: int): nat
    requires year >= 1601
    decreases year
  {
    if year == 1601 then 0
    else LeapYearsSince1601(year - 1) + (if IsLeapYear(year - 1) then 1 else 0)
  }

  /** Days from 1601-01-01 to January 1 of `year`. */
  function DaysBeforeYear(year: int): nat
    requires year >= 1601
    decreases year
  {
    if year == 1601 then 0 else DaysBeforeYear(year - 1) + DaysInYear(year - 1)
  }

  /** Days from January 1 of `year` to the first day of `month`. */
  function DaysBeforeMonth(year: int, month: int): nat
    requires 1 <= month <= 12
  {
    if month == 1 then 0 else DaysBeforeMonth(year, month - 1) + DaysInMonth(year, month - 1)
  }

  /** Days from 1601-01-01 to `year`-`month`-`day`. */
  function CivilDays(year: int, month: int, day: int): int
    requires year >= 1601 && 1 <= month <= 12
  {
    DaysBeforeYear(year) + DaysBeforeMonth(year, month) + (day - 1)
  }

  /** Stepping a count from `m` to `m + 1` raises its quotient by 4, 100 or 400 exactly
      when `m + 1` is a multiple of that divisor. */
  lemma QuotientStep(m: nat)
    ensures (m + 1) / 4 == m / 4 + (if (m + 1) % 4 == 0 then 1 else 0)
    ensures (m + 1) / 100 == m / 100 + (if (m + 1) % 100 == 0 then 1 else 0)
    ensures (m + 1) / 400 == m / 400 + (if (m + 1) % 400 == 0 then 1 else 0)
  {
  }

  /** 1600 is a multiple of 400, so shifting a year by 1600 keeps its leap status. */
  lemma LeapShift(k: nat)
    ensures IsLeapYear(k + 1600) <==> (k % 4 == 0 && k % 100 != 0) || k % 400 == 0
    ensures k % 400 == 0 ==> k % 100 == 0
    ensures k % 100 == 0 ==> k % 4 == 0
  {
    assert (k + 1600) % 4 == k % 4;
    assert (k + 1600) % 100 == k % 100;
    assert (k + 1600) % 400 == k % 400;
    if k % 400 == 0 { assert k == 400 * (k / 400) && k == 100 * (4 * (k / 400)); }
    if k % 100 == 0 { assert k == 100 * (k / 100) && k == 4 * (25 * (k / 100)); }
  }

  /** The `/4 - /100 + /400` term counts the leap years in `[1601, year)`. */
  lemma {:induction false} LeapYearCount(year: int)
    requires year >= 1601
    ensures var n := year - 1601;
      LeapYearsSince1601(year) == TruncDiv(n, 4) - TruncDiv(n, 100) + TruncDiv(n, 400)
  {
    if year > 1601 {
      var m := year - 1602;
      LeapYearCount(year - 1);
      QuotientStep(m);
      LeapShift(m + 1);
      var step4 := if (m + 1) % 4 == 0 then 1 else 0;
      var step100 := if (m + 1) % 100 == 0 then 1 else 0;
      var step400 := if (m + 1) % 400 == 0 then 1 else 0;
      assert (if IsLeapYear(year - 1) then 1 else 0) == step4 - step100 + step400;
      assert TruncDiv(m + 1, 4) == m / 4 + step4;
      assert TruncDiv(m + 1, 100) == m / 100 + step100;
      assert TruncDiv(m + 1, 400) == m / 400 + step400;
    }
  }

  /** Whole years contribute 365 days each plus one per leap year. */
  lemma {:induction false} DaysBeforeYearCount(year: int)
    requires year >= 1601
    ensures DaysBeforeYear(year) == (year - 1601) * 365 + LeapYearsSince1601(year)
  {
    if year > 1601 {
      DaysBeforeYearCount(year - 1);
    }
  }

  /** `DAYS_BEFORE_MONTH` is the running total of the common-year month lengths; a leap
      year adds its February 29 to every month after February. */
  lemma DaysBeforeMonthTable(year: int, month: int)
    requires 1 <= month <= 12
    ensures DaysBeforeMonth(year, month)
      == DAYS_BEFORE_MONTH[month] + (if IsLeapYear(year) && month > 2 then 1 else 0)
  {
  }

  /** For a year from 1601 on and a month in 1..=12, `days_since_1601` is the number of
      days from 1601-01-01 to the given date. */
  lemma DaysSince1601IsCivilDays(year: int, month: int, day: int)
    requires year >= 1601 && 1 <= month <= 12
    ensures DaysSince1601(year, month, day) == CivilDays(year, month, day)
  {
    LeapYearCount(year);
    DaysBeforeYearCount(year);
    DaysBeforeMonthTable(year, month);
  }

  /** The reference count is a day count: the day after a month's last day is the first
      of the next month, and the day after December 31 is January 1. */
  lemma CivilDaysConsecutive(year: int, month: int)
    requires year >= 1601 && 1 <= month <= 12
    ensures month < 12 ==>
      CivilDays(year, month + 1, 1) == CivilDays(year, month, DaysInMonth(year, month)) + 1
    ensures month == 12 ==>
      CivilDays(year + 1, 1, 1) == CivilDays(year, 12, DaysInMonth(year, 12)) + 1
  {
    if month == 12 {
      DaysBeforeMonthTable(year, 12);
    }
  }

  /** Before 1601 the formula is no day count: the truncating `/4` term does not count
      1600 as a leap year, yet its February 29 is still added, so 1600-12-31 lands on the
      same value as 1601-01-01. */
  lemma BeforeEpochNotADayCount()
    ensures DaysSince1601(1600, 12, 31) == 0 == DaysSince1601(1601, 1, 1)
  {
  }

  /** A month of 0 reads table entry 0, so it counts like January. */
  lemma MonthZeroIsJanuary(year: int, day: int)
    ensures DaysSince1601(year, 0, day) == DaysSince1601(year, 1, day)
  {
  }

  // ---------------------------------------------------------------------------
  // FILETIME

  const INTERVALS_PER_SECOND: int := 10_000_000
  const INTERVALS_PER_MILLISECOND: int := 10_000

  /** The exact FILETIME count for a day count and a time of day. */
  function FileTime(days: int, hours: int, minutes: int, seconds: int, milliseconds: int): int
  {
    (days * 86400 + hours * 3600 + minutes * 60 + seconds) * INTERVALS_PER_SECOND
    + milliseconds * INTERVALS_PER_MILLISECOND
  }

  /** `calculate_time64`, step by step as the code does it: the `i64` day count is cast
      to `u64`, and every `u64` product and sum keeps its low 64 bits. */
  function CalculateTime64(
    year: bv16, month: bv8, day: bv8, hours: bv8, minutes: bv8, seconds: bv8,
    milliseconds: bv16): U64
    requires month <= 12
  {
    var days := DaysSince1601(year as int, month as int, day as int);
    var totalSeconds :=
      Wrap64(Wrap64(Wrap64(Wrap64(Wrap64(days) * 86400) + hours as int * 3600)
                    + minutes as int * 60)
             + seconds as int);
    Wrap64(Wrap64(totalSeconds * INTERVALS_PER_SECOND)
           + milliseconds as int * INTERVALS_PER_MILLISECOND)
  }

  lemma ModAdd(a: int, b: int)
    ensures Wrap64(Wrap64(a) + b) == Wrap64(a + b)
  {
  }

  lemma ModMul(a: int, k: int)
    ensures Wrap64(Wrap64(a) * k) == Wrap64(a * k)
  {
    var q := a / U64_MODULUS;
    assert a == U64_MODULUS * q + Wrap64(a);
    assert a * k == U64_MODULUS * (q * k) + Wrap64(a) * k;
    var p := (Wrap64(a) * k) / U64_MODULUS;
    assert Wrap64(a) * k == U64_MODULUS * p + Wrap64(Wrap64(a) * k);
    assert a * k == U64_MODULUS * (q * k + p) + Wrap64(Wrap64(a) * k);
  }

  /** Reducing after every `u64` step gives the exact value reduced once. */
  lemma WrapSteps(days: int, hours: int, minutes: int, seconds: int, milliseconds: int)
    ensures
      var totalSeconds :=
        Wrap64(Wrap64(Wrap64(Wrap64(Wrap64(days) * 86400) + hours * 3600) + minutes * 60) + seconds);
      Wrap64(Wrap64(totalSeconds * INTERVALS_PER_SECOND) + milliseconds * INTERVALS_PER_MILLISECOND)
        == Wrap64(FileTime(days, hours, minutes, seconds, milliseconds))
  {
    var e := days * 86400;
    var h, mi := hours * 3600, minutes * 60;
    var ms := milliseconds * INTERVALS_PER_MILLISECOND;
    ModMul(days, 86400);
    ModAdd(e, h);
    ModAdd(e + h, mi);
    ModAdd(e + h + mi, seconds);
    var total := e + h + mi + seconds;
    ModMul(total, INTERVALS_PER_SECOND);
    ModAdd(total * INTERVALS_PER_SECOND, ms);
  }

  /** The step-by-step wrapping computation equals the exact FILETIME count reduced
      once to 64 bits. */
  lemma CalculateTime64Wraps(
    year: bv16, month: bv8, day: bv8, hours: bv8, minutes: bv8, seconds: bv8,
    milliseconds: bv16)
    requires month <= 12
    ensures CalculateTime64(year, month, day, hours, minutes, seconds, milliseconds)
      == Wrap64(FileTime(DaysSince1601(year as int, month as int, day as int),
                         hours as int, minutes as int, seconds as int, milliseconds as int))
  {
    WrapSteps(DaysSince1601(year as int, month as int, day as int),
              hours as int, minutes as int, seconds as int, milliseconds as int);
  }

  /** Every date from 1601-01-01 to the end of year 60054, with any `u8` time fields and
      any `u16` millisecond count, has a FILETIME below 2^64. */
  lemma FileTimeFits(year: int, month: int, day: int, hours: int, minutes: int, seconds: int, milliseconds: int)
    requires 1601 <= year <= 60054 && 1 <= month <= 12 && 1 <= day < 256
    requires 0 <= hours < 256 && 0 <= minutes < 256 && 0 <= seconds < 256
    requires 0 <= milliseconds < 0x1_0000
    ensures 0 <= FileTime(DaysSince1601(year, month, day), hours, minutes, seconds, milliseconds) < U64_MODULUS
  {
  }

  /** In range, `calculate_time64` is the FILETIME of the civil date: the days since
      1601-01-01 in seconds, plus the time of day, in 100-nanosecond units. */
  lemma CalculateTime64IsFileTime(
    year: bv16, month: bv8, day: bv8, hours: bv8, minutes: bv8, seconds: bv8,
    milliseconds: bv16)
    requires 1601 <= year <= 60054 && 1 <= month <= 12 && 1 <= day
    ensures CalculateTime64(year, month, day, hours, minutes, seconds, milliseconds)
      == FileTime(CivilDays(year as int, month as int, day as int),
                  hours as int, minutes as int, seconds as int, milliseconds as int)
  {
    var y, mo, d := year as int, month as int, day as int;
    var h, mi, s, ms := hours as int, minutes as int, seconds as int, milliseconds as int;
    CalculateTime64Wraps(year, month, day, hours, minutes, seconds, milliseconds);
    DaysSince1601IsCivilDays(y, mo, d);
    FileTimeFits(y, mo, d, h, mi, s, ms);
    var ft := FileTime(DaysSince1601(y, mo, d), h, mi, s, ms);
    assert Wrap64(ft) == ft;
  }

  /** 1601-01-01 is day 0, and 1601-01-01 00:00:00.000 is FILETIME 0. */
  lemma EpochIsZero()
    ensures DaysSince1601(1601, 1, 1) == 0
    ensures CalculateTime64(1601, 1, 1, 0, 0, 0, 0) == 0
  {
  }

  // ---------------------------------------------------------------------------
  // PackedDate: fields of a u64, lowest bit 0

  const YEAR_MASK: bv64 := 0xFFF              // bits 0..=11
  const MILLISECOND_MASK: bv64 := 0x3FF << 12  // bits 12..=21
  const MONTH_MASK: bv64 := 0xF << 22          // bits 22..=25
  const DAY_OF_WEEK_MASK: bv64 := 0x7 << 26    // bits 26..=28
  const DAY_MASK: bv64 := 0x1F << 29           // bits 29..=33
  const HOURS_MASK: bv64 := 0x1F << 34         // bits 34..=38
  const MINUTES_MASK: bv64 := 0x3F << 39       // bits 39..=44
  const SECONDS_MASK: bv64 := 0x3F << 45       // bits 45..=50
  const IS_UTC_BIT: bv64 := 1 << 51

  /** The packed record. A getter shifts its field to the top and back down to bit 0;
      a setter clears the field and ORs in the new value cut to the field's width. */
  datatype PackedDate = PackedDate(bits: bv64) {

    function Year(): bv16 { ((bits << 52) >> 52) as bv16 }
    function SetYear(v: bv16): PackedDate
    {
      PackedDate((bits & !YEAR_MASK) | ((v as bv64) & YEAR_MASK))
    }

    function Millisecond(): bv16 { ((bits << 42) >> 54) as bv16 }
    function SetMillisecond(v: bv16): PackedDate
    {
      PackedDate((bits & !MILLISECOND_MASK) | (((v as bv64) << 12) & MILLISECOND_MASK))
    }

    function Month(): bv8 { ((bits << 38) >> 60) as bv8 }
    function SetMonth(v: bv8): PackedDate
    {
      PackedDate((bits & !MONTH_MASK) | (((v as bv64) << 22) & MONTH_MASK))
    }

    function DayOfWeek(): bv8 { ((bits << 35) >> 61) as bv8 }
    function SetDayOfWeek(v: bv8): PackedDate
    {
      PackedDate((bits & !DAY_OF_WEEK_MASK) | (((v as bv64) << 26) & DAY_OF_WEEK_MASK))
    }

    function Day(): bv8 { ((bits << 30) >> 59) as bv8 }
    function SetDay(v: bv8): PackedDate
    {
      PackedDate((bits & !DAY_MASK) | (((v as bv64) << 29) & DAY_MASK))
    }

    function Hours(): bv8 { ((bits << 25) >> 59) as bv8 }
    function SetHours(v: bv8): PackedDate
    {
      PackedDate((bits & !HOURS_MASK) | (((v as bv64) << 34) & HOURS_MASK))
    }

    function Minutes(): bv8 { ((bits << 19) >> 58) as bv8 }
    function SetMinutes(v: bv8): PackedDate
    {
      PackedDate((bits & !MINUTES_MASK) | (((v as bv64) << 39) & MINUTES_MASK))
    }

    function Seconds(): bv8 { ((bits << 13) >> 58) as bv8 }
    function SetSeconds(v: bv8): PackedDate
    {
      PackedDate((bits & !SECONDS_MASK) | (((v as bv64) << 45) & SECONDS_MASK))
    }

    function IsUtc(): bool { bits & IS_UTC_BIT != 0 }
    function SetIsUtc(v: bool): PackedDate
    {
      if v then PackedDate(bits | IS_UTC_BIT) else PackedDate(bits & !IS_UTC_BIT)
    }
  }

  // One lemma per setter, for any record: the field written reads back cut to its
  // width, and every other field keeps its value.

  lemma SetYearGet(p: PackedDate, v: bv16)
    ensures p.SetYear(v).Year() == v & 0xFFF
    ensures p.SetYear(v).Millisecond() == p.Millisecond()
      && p.SetYear(v).Month() == p.Month()
      && p.SetYear(v).DayOfWeek() == p.DayOfWeek()
      && p.SetYear(v).Day() == p.Day()
      && p.SetYear(v).Hours() == p.Hours()
      && p.SetYear(v).Minutes() == p.Minutes()
      && p.SetYear(v).Seconds() == p.Seconds()
      && p.SetYear(v).IsUtc() == p.IsUtc()
  {
  }

  lemma SetMillisecondGet(p: PackedDate, v: bv16)
    ensures p.SetMillisecond(v).Millisecond() == v & 0x3FF
    ensures p.SetMillisecond(v).Year() == p.Year()
      && p.SetMillisecond(v).Month() == p.Month()
      && p.SetMillisecond(v).DayOfWeek() == p.DayOfWeek()
      && p.SetMillisecond(v).Day() == p.Day()
      && p.SetMillisecond(v).Hours() == p.Hours()
      && p.SetMillisecond(v).Minutes() == p.Minutes()
      && p.SetMillisecond(v).Seconds() == p.Seconds()
      && p.SetMillisecond(v).IsUtc() == p.IsUtc()
  {
  }

  lemma SetMonthGet(p: PackedDate, v: bv8)
    ensures p.SetMonth(v).Month() == v & 0xF
    ensures p.SetMonth(v).Year() == p.Year()
      && p.SetMonth(v).Millisecond() == p.Millisecond()
      && p.SetMonth(v).DayOfWeek() == p.DayOfWeek()
      && p.SetMonth(v).Day() == p.Day()
      && p.SetMonth(v).Hours() == p.Hours()
      && p.SetMonth(v).Minutes() == p.Minutes()
      && p.SetMonth(v).Seconds() == p.Seconds()
      && p.SetMonth(v).IsUtc() == p.IsUtc()
  {
  }

  lemma SetDayOfWeekGet(p: PackedDate, v: bv8)
    ensures p.SetDayOfWeek(v).DayOfWeek() == v & 0x7
    ensures p.SetDayOfWeek(v).Year() == p.Year()
      && p.SetDayOfWeek(v).Millisecond() == p.Millisecond()
      && p.SetDayOfWeek(v).Month() == p.Month()
      && p.SetDayOfWeek(v).Day() == p.Day()
      && p.SetDayOfWeek(v).Hours() == p.Hours()
      && p.SetDayOfWeek(v).Minutes() == p.Minutes()
      && p.SetDayOfWeek(v).Seconds() == p.Seconds()
      && p.SetDayOfWeek(v).IsUtc() == p.IsUtc()
  {
  }

  lemma SetDayGet(p: PackedDate, v: bv8)
    ensures p.SetDay(v).Day() == v & 0x1F
    ensures p.SetDay(v).Year() == p.Year()
      && p.SetDay(v).Millisecond() == p.Millisecond()
      && p.SetDay(v).Month() == p.Month()
      && p.SetDay(v).DayOfWeek() == p.DayOfWeek()
      && p.SetDay(v).Hours() == p.Hours()
      && p.SetDay(v).Minutes() == p.Minutes()
      && p.SetDay(v).Seconds() == p.Seconds()
      && p.SetDay(v).IsUtc() == p.IsUtc()
  {
  }

  lemma SetHoursGet(p: PackedDate, v: bv8)
    ensures p.SetHours(v).Hours() == v & 0x1F
    ensures p.SetHours(v).Year() == p.Year()
      && p.SetHours(v).Millisecond() == p.Millisecond()
      && p.SetHours(v).Month() == p.Month()
      && p.SetHours(v).DayOfWeek() == p.DayOfWeek()
      && p.SetHours(v).Day() == p.Day()
      && p.SetHours(v).Minutes() == p.Minutes()
      && p.SetHours(v).Seconds() == p.Seconds()
      && p.SetHours(v).IsUtc() == p.IsUtc()
  {
  }

  lemma SetMinutesGet(p: PackedDate, v: bv8)
    ensures p.SetMinutes(v).Minutes() == v & 0x3F
    ensures p.SetMinutes(v).Year() == p.Year()
      && p.SetMinutes(v).Millisecond() == p.Millisecond()
      && p.SetMinutes(v).Month() == p.Month()
      && p.SetMinutes(v).DayOfWeek() == p.DayOfWeek()
      && p.SetMinutes(v).Day() == p.Day()
      && p.SetMinutes(v).Hours() == p.Hours()
      && p.SetMinutes(v).Seconds() == p.Seconds()
      && p.SetMinutes(v).IsUtc() == p.IsUtc()
  {
  }

  lemma SetSecondsGet(p: PackedDate, v: bv8)
    ensures p.SetSeconds(v).Seconds() == v & 0x3F
    ensures p.SetSeconds(v).Year() == p.Year()
      && p.SetSeconds(v).Millisecond() == p.Millisecond()
      && p.SetSeconds(v).Month() == p.Month()
      && p.SetSeconds(v).DayOfWeek() == p.DayOfWeek()
      && p.SetSeconds(v).Day() == p.Day()
      && p.SetSeconds(v).Hours() == p.Hours()
      && p.SetSeconds(v).Minutes() == p.Minutes()
      && p.SetSeconds(v).IsUtc() == p.IsUtc()
  {
  }

  lemma SetIsUtcGet(p: PackedDate, v: bool)
    ensures p.SetIsUtc(v).IsUtc() == v
    ensures p.SetIsUtc(v).Year() == p.Year()
      && p.SetIsUtc(v).Millisecond() == p.Millisecond()
      && p.SetIsUtc(v).Month() == p.Month()
      && p.SetIsUtc(v).DayOfWeek() == p.DayOfWeek()
      && p.SetIsUtc(v).Day() == p.Day()
      && p.SetIsUtc(v).Hours() == p.Hours()
      && p.SetIsUtc(v).Minutes() == p.Minutes()
      && p.SetIsUtc(v).Seconds() == p.Seconds()
  {
  }

  /** The getters DLDateTime exposes read its packed date. */
  datatype DLDateTime = DLDateTime(time64: U64, date: PackedDate) {
    function Year(): bv16 { date.Year() }
    function Month(): bv8 { date.Month() }
    function Day(): bv8 { date.Day() }
    function Hours(): bv8 { date.Hours() }
    function Minutes(): bv8 { date.Minutes() }
    function Seconds(): bv8 { date.Seconds() }
    function IsUtc(): bool { date.IsUtc() }
  }

  /** The packed date `DLDateTime::new` builds: a zero record, then one setter per field
      in the order the code calls them. The day of the week is never set. */
  function PackFields(
    year: bv16, month: bv8, day: bv8, hours: bv8, minutes: bv8, seconds: bv8,
    milliseconds: bv16, isUtc: bool): PackedDate
  {
    PackedDate(0)
      .SetYear(year).SetMonth(month).SetDay(day).SetHours(hours).SetMinutes(minutes)
      .SetSeconds(seconds).SetMillisecond(milliseconds).SetIsUtc(isUtc)
  }

  /** `DLDateTime::new`. A month above 12 makes `calculate_time64` index past its table
      and panic. */
  function New(
    year: bv16, month: bv8, day: bv8, hours: bv8, minutes: bv8, seconds: bv8,
    milliseconds: bv16, isUtc: bool): DLDateTime
    requires month <= 12
  {
    DLDateTime(
      CalculateTime64(year, month, day, hours, minutes, seconds, milliseconds),
      PackFields(year, month, day, hours, minutes, seconds, milliseconds, isUtc))
  }

  // One lemma per field: each getter sees its own setter's value, cut to the field's
  // width, and no other setter disturbs it.

  lemma PackedYear(y: bv16, mo: bv8, d: bv8, h: bv8, mi: bv8, s: bv8, ms: bv16, u: bool)
    ensures PackFields(y, mo, d, h, mi, s, ms, u).Year() == y & 0xFFF
  {
  }

  lemma PackedMillisecond(y: bv16, mo: bv8, d: bv8, h: bv8, mi: bv8, s: bv8, ms: bv16, u: bool)
    ensures PackFields(y, mo, d, h, mi, s, ms, u).Millisecond() == ms & 0x3FF
  {
  }

  lemma PackedMonth(y: bv16, mo: bv8, d: bv8, h: bv8, mi: bv8, s: bv8, ms: bv16, u: bool)
    ensures PackFields(y, mo, d, h, mi, s, ms, u).Month() == mo & 0xF
  {
  }

  lemma PackedDayOfWeek(y: bv16, mo: bv8, d: bv8, h: bv8, mi: bv8, s: bv8, ms: bv16, u: bool)
    ensures PackFields(y, mo, d, h, mi, s, ms, u).DayOfWeek() == 0
  {
  }

  lemma PackedDay(y: bv16, mo: bv8, d: bv8, h: bv8, mi: bv8, s: bv8, ms: bv16, u: bool)
    ensures PackFields(y, mo, d, h, mi, s, ms, u).Day() == d & 0x1F
  {
  }

  lemma PackedHours(y: bv16, mo: bv8, d: bv8, h: bv8, mi: bv8, s: bv8, ms: bv16, u: bool)
    ensures PackFields(y, mo, d, h, mi, s, ms, u).Hours() == h & 0x1F
  {
  }

  lemma PackedMinutes(y: bv16, mo: bv8, d: bv8, h: bv8, mi: bv8, s: bv8, ms: bv16, u: bool)
    ensures PackFields(y, mo, d, h, mi, s, ms, u).Minutes() == mi & 0x3F
  {
  }

  lemma PackedSeconds(y: bv16, mo: bv8, d: bv8, h: bv8, mi: bv8, s: bv8, ms: bv16, u: bool)
    ensures PackFields(y, mo, d, h, mi, s, ms, u).Seconds() == s & 0x3F
  {
  }

  lemma PackedIsUtc(y: bv16, mo: bv8, d: bv8, h: bv8, mi: bv8, s: bv8, ms: bv16, u: bool)
    ensures PackFields(y, mo, d, h, mi, s, ms, u).IsUtc() == u
  {
  }

  /** Every getter of a new `DLDateTime` returns its constructor argument whenever the
      argument fits the field (year 12 bits, millisecond 10, month 4, day 5, hours 5,
      minutes 6, seconds 6, is_utc 1), and otherwise the argument's low bits; the day of
      the week is left 0. */
  lemma NewFields(
    year: bv16, month: bv8, day: bv8, hours: bv8, minutes: bv8, seconds: bv8,
    milliseconds: bv16, isUtc: bool)
    requires month <= 12
    ensures var t := New(year, month, day, hours, minutes, seconds, milliseconds, isUtc);
      && t.Year() == year & 0xFFF
      && t.date.Millisecond() == milliseconds & 0x3FF
      && t.Month() == month
      && t.Day() == day & 0x1F
      && t.Hours() == hours & 0x1F
      && t.Minutes() == minutes & 0x3F
      && t.Seconds() == seconds & 0x3F
      && t.IsUtc() == isUtc
      && t.date.DayOfWeek() == 0
    ensures var t := New(year, month, day, hours, minutes, seconds, milliseconds, isUtc);
      && (year < 0x1000 ==> t.Year() == year)
      && (milliseconds < 0x400 ==> t.date.Millisecond() == milliseconds)
      && (day < 0x20 ==> t.Day() == day)
      && (hours < 0x20 ==> t.Hours() == hours)
      && (minutes < 0x40 ==> t.Minutes() == minutes)
      && (seconds < 0x40 ==> t.Seconds() == seconds)
  {
    PackedYear(year, month, day, hours, minutes, seconds, milliseconds, isUtc);
    PackedMillisecond(year, month, day, hours, minutes, seconds, milliseconds, isUtc);
    PackedMonth(year, month, day, hours, minutes, seconds, milliseconds, isUtc);
    PackedDayOfWeek(year, month, day, hours, minutes, seconds, milliseconds, isUtc);
    PackedDay(year, month, day, hours, minutes, seconds, milliseconds, isUtc);
    PackedHours(year, month, day, hours, minutes, seconds, milliseconds, isUtc);
    PackedMinutes(year, month, day, hours, minutes, seconds, milliseconds, isUtc);
    PackedSeconds(year, month, day, hours, minutes, seconds, milliseconds, isUtc);
    PackedIsUtc(year, month, day, hours, minutes, seconds, milliseconds, isUtc);
  }

  /** The `time64` of a new `DLDateTime` on a date from 1601 to 60054 is the FILETIME of
      that civil date and time of day. */
  lemma NewTime64(
    year: bv16, month: bv8, day: bv8, hours: bv8, minutes: bv8, seconds: bv8,
    milliseconds: bv16, isUtc: bool)
    requires 1601 <= year <= 60054 && 1 <= month <= 12 && 1 <= day
    ensures New(year, month, day, hours, minutes, seconds, milliseconds, isUtc).time64
      == FileTime(CivilDays(year as int, month as int, day as int),
                  hours as int, minutes as int, seconds as int, milliseconds as int)
  {
    CalculateTime64IsFileTime(year, month, day, hours, minutes, seconds, milliseconds);
  }
}
