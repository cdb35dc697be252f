/** Calendar days and their 'Y-m-d' rendering. Timestamps are whole seconds
    since 1970-01-01 00:00 UTC; a calendar day is a day number counted from
    that date. Time-zone conversion is not modelled: callers supply local
    days and hours directly. */
module Calendar {
  import Text

  type Timestamp = int
  type Day = int

  const SecondsPerDay: int := 86400

  /** The calendar day a stored timestamp falls on (SQL `DATE(created_at)`). */
  function DateOf(t: Timestamp): (d: Day)
    ensures d * SecondsPerDay <= t < (d + 1) * SecondsPerDay
  {
    t / SecondsPerDay
  }

  /** A proleptic Gregorian date. */
  datatype Civil = Civil(year: int, month: int, day: int)

  /** The Gregorian date of a day number (days since 1970-01-01), by the
      era/day-of-era decomposition. */
  function CivilFromDays(n: Day): (c: Civil)
    ensures 1 <= c.month <= 12 && 1 <= c.day <= 31
  {
    var z := n + 719468;
    var era := z / 146097;
    EraDate(era, z - era * 146097)
  }

  /** The date `doe` days into the 400-year era `era`, eras starting on
      March 1st of a year divisible by 400. */
  function EraDate(era: int, doe: int): (c: Civil)
    requires 0 <= doe < 146097
    ensures 1 <= c.month <= 12 && 1 <= c.day <= 31
  {
    var yoe := (doe - doe / 1460 + doe / 36524 - doe / 146096) / 365;
    MarchDate(era, yoe, doe - (365 * yoe + yoe / 4 - yoe / 100))
  }

  /** The date `doy` days into the March-based year `yoe` of era `era`. */
  function MarchDate(era: int, yoe: int, doy: int): Civil
  {
    var mp := (5 * doy + 2) / 153;
    var d := doy - (153 * mp + 2) / 5 + 1;
    var m := if mp < 10 then mp + 3 else mp - 9;
    var y := yoe + era * 400 + (if m <= 2 then 1 else 0);
    Civil(y, m, d)
  }

  /** A Gregorian leap year. */
  predicate IsLeap(y: int)
  {
    y % 4 == 0 && (y % 100 != 0 || y % 400 == 0)
  }

  /** The length of a month of the given year. */
  function DaysInMonth(y: int, m: int): int
  {
    if m == 2 then (if IsLeap(y) then 29 else 28)
    else if m == 4 || m == 6 || m == 9 || m == 11 then 30
    else 31
  }

  /** A date that exists on the calendar. */
  predicate ValidCivil(c: Civil)
  {
    1 <= c.month <= 12 && 1 <= c.day <= DaysInMonth(c.year, c.month)
  }

  /** Every day of an era names a date that exists: no 31st of a 30-day
      month, and the 29th of February only in a leap year. */
  lemma EraDateValid(era: int, doe: int)
    requires 0 <= doe < 146097
    ensures ValidCivil(EraDate(era, doe))
  {
    YearOfEra(doe);
    var yoe := (doe - doe / 1460 + doe / 36524 - doe / 146096) / 365;
    var doy := doe - (365 * yoe + yoe / 4 - yoe / 100);
    EraDateAt(era, doe, yoe, doy);
    assert doy == 365 ==> EndsOnLeapDay(yoe);
    MarchDateValid(era, yoe, doy);
  }

  /** A day of a March-based year of an era names a date that exists. */
  lemma MarchDateValid(era: int, yoe: int, doy: int)
    requires 0 <= yoe <= 399 && 0 <= doy <= 365
    requires doy == 365 ==> EndsOnLeapDay(yoe)
    ensures ValidCivil(MarchDate(era, yoe, doy))
  {
    MonthOfYear(doy);
    LeapShift(yoe + 1, era);
    LeapInEra(yoe);
  }

  /** Every day number names a date that exists. */
  lemma CivilFromDaysValid(n: Day)
    ensures ValidCivil(CivilFromDays(n))
  {
    var z := n + 719468;
    EraDateValid(z / 146097, z - z / 146097 * 146097);
  }

  /** The length of the month `mp` months after March. */
  function MarchMonthLength(mp: int): int
  {
    (153 * (mp + 1) + 2) / 5 - (153 * mp + 2) / 5
  }

  /** In a March-based year the day of the year splits into a month and a
      day within it; only the last month, February, may run to day 30. */
  lemma MonthOfYear(doy: int)
    requires 0 <= doy <= 365
    ensures var mp := (5 * doy + 2) / 153; var d := doy - (153 * mp + 2) / 5 + 1;
      && 0 <= mp <= 11 && 1 <= d
      && (mp < 11 ==> d <= MarchMonthLength(mp))
      && (mp == 11 ==> d == doy - 336)
  {
  }

  /** Within a 400-year era of 146097 days, starting on a March 1st: the
      year of the era lies in 0..399, the day of the (March-based) year in
      0..365, and day 365 exists only when the following January falls in a
      leap year. The day of the era splits into centuries of 36524 days and
      four-year cycles of 1461 days, the era's last day being the extra one. */
  lemma YearOfEra(doe: int)
    requires 0 <= doe <= 146096
    ensures var yoe := (doe - doe / 1460 + doe / 36524 - doe / 146096) / 365;
      var doy := doe - (365 * yoe + yoe / 4 - yoe / 100);
      && 0 <= yoe <= 399
      && 0 <= doy <= 365
      && (doy == 365 ==> (yoe + 1) % 4 == 0 && ((yoe + 1) % 100 != 0 || yoe + 1 == 400))
  {
    if doe == 146096 {
      assert (doe - doe / 1460 + doe / 36524 - doe / 146096) / 365 == 399;
    } else {
      var c := doe / 36524;
      var f := (doe - 36524 * c) / 1461;
      var r2 := doe - 36524 * c - 1461 * f;
      EraSplit(doe);
      YearOfCycle(c, f, r2, doe, doe - doe / 1460 + doe / 36524 - doe / 146096);
    }
  }

  /** A day of the era before its last splits into `c` centuries of 36524
      days, `f` four-year cycles of 1461 days and `r2` further days, and the
      quotients the year computation takes follow from the split. */
  lemma EraSplit(doe: int)
    requires 0 <= doe < 146096
    ensures var c := doe / 36524; var f := (doe - 36524 * c) / 1461; var r2 := doe - 36524 * c - 1461 * f;
      && 0 <= c <= 3 && 0 <= f <= 24 && 0 <= r2 <= 1460
      && (f == 24 ==> r2 < 1460)
      && doe == 36524 * c + 1461 * f + r2
      && doe / 1460 == 25 * c + f + (24 * c + f + r2) / 1460
      && doe / 36524 == c && doe / 146096 == 0
  {
    var c := doe / 36524;
    var f := (doe - 36524 * c) / 1461;
    var r2 := doe - 36524 * c - 1461 * f;
    assert doe == 1460 * (25 * c + f) + (24 * c + f + r2);
  }

  /** The year of the era and the day of the year, from the split of the
      day of the era. */
  lemma YearOfCycle(c: int, f: int, r2: int, doe: int, a: int)
    requires 0 <= c <= 3 && 0 <= f <= 24 && 0 <= r2 <= 1460 && (f == 24 ==> r2 < 1460)
    requires doe == 36524 * c + 1461 * f + r2
    requires a == doe - (25 * c + f + (24 * c + f + r2) / 1460) + c
    ensures var yoe := a / 365;
      var doy := doe - (365 * yoe + yoe / 4 - yoe / 100);
      && 0 <= yoe <= 399
      && 0 <= doy <= 365
      && (doy == 365 ==> (yoe + 1) % 4 == 0 && (yoe + 1) % 100 != 0)
  {
    var q := (24 * c + f + r2) / 1460;
    assert 0 <= q <= 1 && (r2 == 1460 ==> q == 1) && (q == 1 ==> r2 >= 1364);
    var x := r2 - q;
    YearInCycle(c, f, x, a);
    var yoe := 100 * c + 4 * f + x / 365;
    CycleDay(x, q, r2);
    if r2 == 1460 {
      YearEnd(c, f, yoe);
    }
  }

  /** The year of a four-year cycle and its century. */
  lemma YearInCycle(c: int, f: int, x: int, a: int)
    requires 0 <= c <= 3 && 0 <= f <= 24 && 0 <= x <= 1459
    requires a == 365 * (100 * c + 4 * f) + x
    ensures var yoe := a / 365;
      && yoe == 100 * c + 4 * f + x / 365
      && yoe / 4 == 25 * c + f
      && yoe / 100 == c
  {
  }

  /** The day of the year within a four-year cycle: only the cycle's fourth
      year reaches day 365. */
  lemma CycleDay(x: int, q: int, r2: int)
    requires 0 <= x <= 1459 && 0 <= q <= 1 && r2 == x + q
    requires r2 == 1460 ==> q == 1
    requires q == 1 ==> r2 >= 1364
    ensures 0 <= r2 - 365 * (x / 365) <= 365
    ensures r2 - 365 * (x / 365) == 365 ==> r2 == 1460 && x / 365 == 3
  {
  }

  /** The fourth year of a cycle other than a century's last is a leap
      year's predecessor. */
  lemma YearEnd(c: int, f: int, yoe: int)
    requires 0 <= c <= 3 && 0 <= f < 24 && yoe == 100 * c + 4 * f + 3
    ensures (yoe + 1) % 4 == 0 && (yoe + 1) % 100 != 0
  {
  }

  /** Whole eras do not change whether a year is a leap year. */
  lemma LeapShift(y: int, era: int)
    ensures IsLeap(y + era * 400) <==> IsLeap(y)
  {
    ShiftMod4(y, 100 * era);
    ShiftMod100(y, 4 * era);
    ShiftMod400(y, era);
  }

  /** Adding whole multiples of a modulus keeps the remainder. */
  lemma ShiftMod4(y: int, k: int)
    ensures (y + 4 * k) % 4 == y % 4
  {
  }

  lemma ShiftMod100(y: int, k: int)
    ensures (y + 100 * k) % 100 == y % 100
  {
  }

  lemma ShiftMod400(y: int, k: int)
    ensures (y + 400 * k) % 400 == y % 400
  {
  }

  /** The day number of a Gregorian date, the inverse decomposition: shift
      the year to start in March, split it into 400-year eras, and count the
      days of the era before the date. */
  function DaysFromCivil(c: Civil): Day
  {
    var y := if c.month <= 2 then c.year - 1 else c.year;
    var mp := if c.month > 2 then c.month - 3 else c.month + 9;
    MarchCount(y, mp, c.day)
  }

  /** The day number of day `d` of the month `mp` months after March in the
      March-based year `y`. */
  function MarchCount(y: int, mp: int, d: int): Day
  {
    var era := y / 400;
    var yoe := y - era * 400;
    var doy := (153 * mp + 2) / 5 + d - 1;
    var doe := yoe * 365 + yoe / 4 - yoe / 100 + doy;
    era * 146097 + doe - 719468
  }

  /** Counting the days of an era's date leads back to its day number. */
  lemma EraDateRoundTrip(era: int, doe: int)
    requires 0 <= doe < 146097
    ensures DaysFromCivil(EraDate(era, doe)) == era * 146097 + doe - 719468
  {
    var yoe := (doe - doe / 1460 + doe / 36524 - doe / 146096) / 365;
    var doy := doe - (365 * yoe + yoe / 4 - yoe / 100);
    YearOfEra(doe);
    EraDateAt(era, doe, yoe, doy);
    MarchDateCount(era, yoe, doy);
  }

  /** Counting the days of a date within a March-based year of an era. */
  lemma MarchDateCount(era: int, yoe: int, doy: int)
    requires 0 <= yoe <= 399 && 0 <= doy <= 365
    ensures DaysFromCivil(MarchDate(era, yoe, doy))
      == era * 146097 + 365 * yoe + yoe / 4 - yoe / 100 + doy - 719468
  {
    var mp := (5 * doy + 2) / 153;
    MonthOfYear(doy);
    var y := yoe + era * 400;
    assert y / 400 == era;
    assert DaysFromCivil(MarchDate(era, yoe, doy)) == MarchCount(y, mp, doy - (153 * mp + 2) / 5 + 1);
  }

  /** Distinct day numbers are distinct dates: counting the days of the date
      `CivilFromDays` gives leads back to the day number. */
  lemma CivilRoundTrip(n: Day)
    ensures DaysFromCivil(CivilFromDays(n)) == n
  {
    var z := n + 719468;
    EraDateRoundTrip(z / 146097, z - z / 146097 * 146097);
  }

  /** The March-based year `yoe` of an era ends on a February 29th. */
  predicate EndsOnLeapDay(yoe: int)
  {
    (yoe + 1) % 4 == 0 && ((yoe + 1) % 100 != 0 || yoe + 1 == 400)
  }

  /** Counting forward: a day of a four-year cycle split as `c` centuries,
      `f` cycles, `y1` years and `doy` days is split back the same way. */
  lemma CycleOfYear(c: int, f: int, y1: int, doy: int, doe: int)
    requires 0 <= c <= 3 && 0 <= f <= 24 && 0 <= y1 <= 3 && 0 <= doy <= 365
    requires doy == 365 ==> y1 == 3 && f != 24
    requires doe == 36524 * c + 1461 * f + 365 * y1 + doy
    ensures var r2 := 365 * y1 + doy; var q := (24 * c + f + r2) / 1460;
      && doe / 36524 == c && doe / 146096 == 0
      && doe / 1460 == 25 * c + f + q
      && (r2 - q) / 365 == y1
      && 0 <= r2 - q <= 1459
  {
    var r2 := 365 * y1 + doy;
    assert doe == 1460 * (25 * c + f) + (24 * c + f + r2);
  }

  /** A year of an era splits into centuries, four-year cycles and years;
      a year ending on February 29th is the last of its cycle, and only the
      era's last year ends a century on one. */
  lemma YearSplit(yoe: int)
    requires 0 <= yoe <= 399
    ensures var c := yoe / 100; var f := (yoe - 100 * c) / 4; var y1 := yoe - 100 * c - 4 * f;
      && 0 <= c <= 3 && 0 <= f <= 24 && 0 <= y1 <= 3
      && yoe / 4 == 25 * c + f
      && (EndsOnLeapDay(yoe) && yoe != 399 ==> y1 == 3 && f != 24)
  {
  }

  /** The year of the era and the day of the year are recovered from the
      day of the era they add up to. */
  lemma EraOfYear(yoe: int, doy: int)
    requires 0 <= yoe <= 399
    requires 0 <= doy <= 364 || (doy == 365 && EndsOnLeapDay(yoe))
    ensures var doe := 365 * yoe + yoe / 4 - yoe / 100 + doy;
      && 0 <= doe <= 146096
      && (doe - doe / 1460 + doe / 36524 - doe / 146096) / 365 == yoe
  {
    var doe := 365 * yoe + yoe / 4 - yoe / 100 + doy;
    if yoe == 399 && doy == 365 {
      LastDayOfEra(doe);
    } else {
      YearOfCycleDay(yoe, doy, doe);
    }
  }

  lemma LastDayOfEra(doe: int)
    requires doe == 146096
    ensures (doe - doe / 1460 + doe / 36524 - doe / 146096) / 365 == 399
  {
    assert doe / 1460 == 100 && doe / 36524 == 4 && doe / 146096 == 1;
  }

  lemma YearOfCycleDay(yoe: int, doy: int, doe: int)
    requires yoe != 399 || doy != 365
    requires 0 <= yoe <= 399
    requires 0 <= doy <= 364 || (doy == 365 && EndsOnLeapDay(yoe))
    requires doe == 365 * yoe + yoe / 4 - yoe / 100 + doy
    ensures 0 <= doe <= 146096
    ensures (doe - doe / 1460 + doe / 36524 - doe / 146096) / 365 == yoe
  {
    var c := yoe / 100;
    var f := (yoe - 100 * c) / 4;
    var y1 := yoe - 100 * c - 4 * f;
    YearSplit(yoe);
    assert doe == 36524 * c + 1461 * f + 365 * y1 + doy;
    CycleOfYear(c, f, y1, doy, doe);
    var r2 := 365 * y1 + doy;
    var q := (24 * c + f + r2) / 1460;
    var a := doe - doe / 1460 + doe / 36524 - doe / 146096;
    YearInCycle(c, f, r2 - q, a);
    assert a / 365 == 100 * c + 4 * f + y1;
  }

  /** The day of a March-based year that the month and day name gives back
      that month. */
  lemma MonthOfDay(mp: int, d: int)
    requires 0 <= mp <= 11 && 1 <= d
    requires mp < 11 ==> d <= MarchMonthLength(mp)
    requires mp == 11 ==> d <= 29
    ensures var doy := (153 * mp + 2) / 5 + d - 1;
      && 0 <= doy <= 365
      && (doy == 365 ==> mp == 11 && d == 29)
      && (5 * doy + 2) / 153 == mp
  {
  }

  /** A month other than February is as long as its place in the March-based
      year says. */
  lemma MonthLengths(y: int, m: int)
    requires 1 <= m <= 12 && m != 2
    ensures DaysInMonth(y, m) == MarchMonthLength(if m > 2 then m - 3 else m + 9)
  {
  }

  /** For a year of an era, being a leap year is decided within the era. */
  lemma LeapInEra(yoe: int)
    requires 0 <= yoe <= 399
    ensures IsLeap(yoe + 1) <==> EndsOnLeapDay(yoe)
  {
  }

  /** Every date that exists is the date of its own day number. */
  lemma CivilInverse(c: Civil)
    requires ValidCivil(c)
    ensures CivilFromDays(DaysFromCivil(c)) == c
  {
    var y := if c.month <= 2 then c.year - 1 else c.year;
    var era := y / 400;
    var mp := if c.month > 2 then c.month - 3 else c.month + 9;
    assert DaysFromCivil(c) == MarchCount(y, mp, c.day);
    InverseInEra(c, y, era, y - era * 400, mp, (153 * mp + 2) / 5 + c.day - 1);
  }

  lemma InverseInEra(c: Civil, y: int, era: int, yoe: int, mp: int, doy: int)
    requires ValidCivil(c)
    requires y == (if c.month <= 2 then c.year - 1 else c.year)
    requires era == y / 400 && yoe == y - era * 400
    requires mp == (if c.month > 2 then c.month - 3 else c.month + 9)
    requires doy == (153 * mp + 2) / 5 + c.day - 1
    ensures CivilFromDays(MarchCount(y, mp, c.day)) == c
  {
    assert 0 <= yoe <= 399 && c.year == yoe + era * 400 + (if c.month <= 2 then 1 else 0);
    DayOfMarchYear(c, era, yoe, mp, doy);
    EraDateOf(c, era, yoe, mp, doy);
    var doe := yoe * 365 + yoe / 4 - yoe / 100 + doy;
    MarchCountOf(y, mp, c.day, era, yoe, doe);
    DayNumberSplit(MarchCount(y, mp, c.day), era, doe);
  }

  /** The day number of a date in the March-based year `y`, from its era,
      its year of the era and its day of the era. */
  lemma MarchCountOf(y: int, mp: int, d: int, era: int, yoe: int, doe: int)
    requires era == y / 400 && yoe == y - era * 400
    requires doe == yoe * 365 + yoe / 4 - yoe / 100 + (153 * mp + 2) / 5 + d - 1
    ensures MarchCount(y, mp, d) + 719468 == era * 146097 + doe
  {
  }

  /** A date that exists falls on a day of its March-based year that the
      year has, and that day gives back its month. */
  lemma DayOfMarchYear(c: Civil, era: int, yoe: int, mp: int, doy: int)
    requires ValidCivil(c)
    requires 0 <= yoe <= 399 && c.year == yoe + era * 400 + (if c.month <= 2 then 1 else 0)
    requires mp == if c.month > 2 then c.month - 3 else c.month + 9
    requires doy == (153 * mp + 2) / 5 + c.day - 1
    ensures 0 <= doy <= 364 || (doy == 365 && EndsOnLeapDay(yoe))
    ensures (5 * doy + 2) / 153 == mp
  {
    if c.month != 2 {
      MonthLengths(c.year, c.month);
    } else {
      LeapShift(yoe + 1, era);
      LeapInEra(yoe);
    }
    MonthOfDay(mp, c.day);
  }

  /** The date an era's day is, given the year of the era, the day of the
      year and the month that make it up. */
  lemma EraDateOf(c: Civil, era: int, yoe: int, mp: int, doy: int)
    requires 0 <= yoe <= 399 && 0 <= mp <= 11
    requires 0 <= doy <= 364 || (doy == 365 && EndsOnLeapDay(yoe))
    requires doy == (153 * mp + 2) / 5 + c.day - 1 && (5 * doy + 2) / 153 == mp
    requires c.month == if mp < 10 then mp + 3 else mp - 9
    requires c.year == yoe + era * 400 + (if c.month <= 2 then 1 else 0)
    ensures var doe := yoe * 365 + yoe / 4 - yoe / 100 + doy;
      0 <= doe < 146097 && EraDate(era, doe) == c
  {
    EraOfYear(yoe, doy);
    var doe := yoe * 365 + yoe / 4 - yoe / 100 + doy;
    EraDateAt(era, doe, yoe, doy);
    MarchDateOf(c, era, yoe, mp, doy);
  }

  /** The date of a day of an era whose year and day of the year are known. */
  lemma EraDateAt(era: int, doe: int, yoe: int, doy: int)
    requires 0 <= doe < 146097
    requires (doe - doe / 1460 + doe / 36524 - doe / 146096) / 365 == yoe
    requires doe == 365 * yoe + yoe / 4 - yoe / 100 + doy
    ensures EraDate(era, doe) == MarchDate(era, yoe, doy)
  {
  }

  /** The date a day of a March-based year names, given its month. */
  lemma MarchDateOf(c: Civil, era: int, yoe: int, mp: int, doy: int)
    requires 0 <= mp <= 11
    requires doy == (153 * mp + 2) / 5 + c.day - 1 && (5 * doy + 2) / 153 == mp
    requires c.month == if mp < 10 then mp + 3 else mp - 9
    requires c.year == yoe + era * 400 + (if c.month <= 2 then 1 else 0)
    ensures MarchDate(era, yoe, doy) == c
  {
  }

  /** A day number whose offset from the first era start is `doe` days into
      era `era` is dated within that era. */
  lemma DayNumberSplit(n: Day, era: int, doe: int)
    requires 0 <= doe < 146097 && n + 719468 == era * 146097 + doe
    ensures CivilFromDays(n) == EraDate(era, doe)
  {
    assert (n + 719468) / 146097 == era;
  }

  /** The calendar day after `c`. */
  function NextDay(c: Civil): (r: Civil)
    ensures ValidCivil(c) ==> ValidCivil(r)
  {
    if c.day < DaysInMonth(c.year, c.month) then c.(day := c.day + 1)
    else if c.month < 12 then Civil(c.year, c.month + 1, 1)
    else Civil(c.year + 1, 1, 1)
  }

  /** The day after a date is counted one day later. */
  lemma NextDayCount(c: Civil)
    requires ValidCivil(c)
    ensures DaysFromCivil(NextDay(c)) == DaysFromCivil(c) + 1
  {
    if c.day < DaysInMonth(c.year, c.month) {
      DayAfterCount(c);
    } else if c.month == 2 {
      MarchFirstCount(c);
    } else {
      MonthAfterCount(c);
    }
  }

  lemma DayAfterCount(c: Civil)
    requires 1 <= c.month <= 12
    ensures DaysFromCivil(c.(day := c.day + 1)) == DaysFromCivil(c) + 1
  {
    var y := if c.month <= 2 then c.year - 1 else c.year;
    var mp := if c.month > 2 then c.month - 3 else c.month + 9;
    assert DaysFromCivil(c) == MarchCount(y, mp, c.day);
    assert DaysFromCivil(c.(day := c.day + 1)) == MarchCount(y, mp, c.day + 1);
  }

  lemma MarchFirstCount(c: Civil)
    requires c.month == 2 && c.day == DaysInMonth(c.year, 2)
    ensures DaysFromCivil(Civil(c.year, 3, 1)) == DaysFromCivil(c) + 1
  {
    var y := c.year - 1;
    assert DaysFromCivil(c) == MarchCount(y, 11, c.day);
    assert DaysFromCivil(Civil(c.year, 3, 1)) == MarchCount(y + 1, 0, 1);
    MarchYearLength(y);
  }

  lemma MonthAfterCount(c: Civil)
    requires 1 <= c.month <= 12 && c.month != 2 && c.day == DaysInMonth(c.year, c.month)
    ensures DaysFromCivil(NextDay(c)) == DaysFromCivil(c) + 1
  {
    var y := if c.month <= 2 then c.year - 1 else c.year;
    var mp := if c.month > 2 then c.month - 3 else c.month + 9;
    MonthLengths(c.year, c.month);
    assert DaysFromCivil(c) == MarchCount(y, mp, c.day);
    var next := if c.month < 12 then Civil(c.year, c.month + 1, 1) else Civil(c.year + 1, 1, 1);
    assert NextDay(c) == next;
    assert DaysFromCivil(next) == MarchCount(y, mp + 1, 1);
    NextMonthCount(y, mp);
  }

  /** The first of the next month of a March-based year comes right after
      the last day of the month before. */
  lemma NextMonthCount(y: int, mp: int)
    requires 0 <= mp < 11
    ensures MarchCount(y, mp + 1, 1) == MarchCount(y, mp, MarchMonthLength(mp)) + 1
  {
  }

  /** A March-based year has 365 days, one more when the February it ends
      with is a leap one; its last day is February 28th or 29th. */
  lemma MarchYearLength(y: int)
    ensures MarchCount(y + 1, 0, 1) == MarchCount(y, 11, if IsLeap(y + 1) then 29 else 28) + 1
  {
    var era := y / 400;
    var yoe := y - era * 400;
    LeapShift(yoe + 1, era);
    LeapInEra(yoe);
    if yoe == 399 {
      EraBoundary(y, era);
    } else {
      WithinEra(y, era, yoe);
    }
  }

  lemma EraBoundary(y: int, era: int)
    requires y == era * 400 + 399
    ensures MarchCount(y + 1, 0, 1) == MarchCount(y, 11, 29) + 1
  {
    assert (y + 1) / 400 == era + 1;
    assert y / 400 == era;
  }

  lemma WithinEra(y: int, era: int, yoe: int)
    requires 0 <= yoe < 399 && y == era * 400 + yoe
    ensures MarchCount(y + 1, 0, 1)
      == MarchCount(y, 11, if EndsOnLeapDay(yoe) then 29 else 28) + 1
  {
    assert (y + 1) / 400 == era;
    assert y / 400 == era;
    NextYearOfEra(yoe);
  }

  /** Days before the next year of an era: one more year's worth, and the
      extra day when the year ends on February 29th. */
  lemma NextYearOfEra(yoe: int)
    requires 0 <= yoe < 399
    ensures (yoe + 1) * 365 + (yoe + 1) / 4 - (yoe + 1) / 100
      == yoe * 365 + yoe / 4 - yoe / 100 + (if EndsOnLeapDay(yoe) then 366 else 365)
  {
  }

  /** Day `n + 1` falls on the calendar day after day `n`; with day 0 being
      1970-01-01 this fixes the date of every day number. */
  lemma Successor(n: Day)
    ensures CivilFromDays(n + 1) == NextDay(CivilFromDays(n))
  {
    var c := CivilFromDays(n);
    CivilFromDaysValid(n);
    CivilRoundTrip(n);
    NextDayCount(c);
    CivilInverse(NextDay(c));
  }

  /** `n` rendered with at least `width` digits, zero-padded on the left. */
  function Pad(n: nat, width: nat): (r: string)
    ensures |r| >= width
    ensures Text.AllDigits(r)
    decreases width
  {
    var digits := Text.NatToString(n);
    if |digits| >= width then digits else "0" + Pad(n, width - 1)
  }

  /** PHP's `format('Y-m-d')` of a date: a year of at least four digits
      ('-' before years before year 0), then a two-digit month and day. */
  function Render(c: Civil): (r: string)
    requires 1 <= c.month <= 12 && 1 <= c.day <= 31
    ensures |r| >= 10
  {
    YearText(c.year) + "-" + Pad(c.month, 2) + "-" + Pad(c.day, 2)
  }

  /** The 'Y' field: the year zero-padded to four digits, after a '-'
      for a year before year 0. */
  function YearText(y: int): (r: string)
    ensures |r| >= 4
    ensures y >= 0 ==> r == Pad(y, 4)
    ensures y < 0 ==> |r| >= 5 && r[0] == '-' && r[1..] == Pad(-y, 4)
  {
    if y < 0 then "-" + Pad(-y, 4) else Pad(y, 4)
  }

  /** The 'Y' field reads back as the year: its digits, after a '-' for a
      year before year 0. */
  lemma YearTextParses(y: int)
    ensures var r := YearText(y);
      && (y >= 0 ==> Text.AllDigits(r) && Text.ParseDigits(r) == y)
      && (y < 0 ==> |r| >= 5 && r[0] == '-' && Text.ParseDigits(r[1..]) == -y)
  {
    if y < 0 {
      NegativeYearParses(y);
    } else {
      PadParses(y, 4);
    }
  }

  lemma NegativeYearParses(y: int)
    requires y < 0
    ensures Text.ParseDigits(YearText(y)[1..]) == -y
  {
    var m: nat := -y;
    var p := Pad(m, 4);
    assert YearText(y) == "-" + p;
    assert YearText(y)[1..] == p;
    PadDigits(m, p);
  }

  lemma PadDigits(m: nat, p: string)
    requires p == Pad(m, 4)
    ensures Text.ParseDigits(p) == m
  {
    PadParses(m, 4);
  }

  /** The 'Y-m-d' rendering of a day number. */
  function DateString(n: Day): (r: string)
    ensures |r| >= 10
  {
    Render(CivilFromDays(n))
  }

  lemma {:induction false} ParseLeadingZero(x: string)
    ensures Text.ParseDigits("0" + x) == Text.ParseDigits(x)
    decreases |x|
  {
    if |x| > 0 {
      assert ("0" + x)[..|"0" + x| - 1] == "0" + x[..|x| - 1];
      ParseLeadingZero(x[..|x| - 1]);
    } else {
      assert ("0" + x)[..0] == "";
    }
  }

  /** Zero-padding does not change the number a rendering denotes. */
  lemma {:induction false} PadParses(n: nat, width: nat)
    ensures Text.ParseDigits(Pad(n, width)) == n
    decreases width
  {
    var digits := Text.NatToString(n);
    if |digits| < width {
      assert Pad(n, width) == "0" + Pad(n, width - 1);
      PadParses(n, width - 1);
      ParseLeadingZero(Pad(n, width - 1));
    } else {
      assert Pad(n, width) == digits;
      Text.NatToStringRoundTrip(n);
    }
  }

  /** A number below 100 pads to exactly two digits. */
  lemma PadTwo(n: nat)
    requires n < 100
    ensures |Pad(n, 2)| == 2
  {
  }

  lemma JoinFields(year: string, month: string, day: string)
    requires |month| == 2 && |day| == 2
    ensures var r := year + "-" + month + "-" + day;
      && r[|r| - 6] == '-' && r[|r| - 3] == '-'
      && r[..|r| - 6] == year && r[|r| - 5..|r| - 3] == month && r[|r| - 2..] == day
      && (|year| >= 1 ==> r[0] == year[0] && r[1..|r| - 6] == year[1..])
  {
  }

  /** `r` reads as "Y-MM-DD" for the date `c`: a year of at least four
      digits, signed only when negative, then the month and day, each field
      reading back as the date's year, month and day. */
  predicate ReadsBackAs(r: string, c: Civil)
  {
    && |r| >= 10
    && r[|r| - 6] == '-' && r[|r| - 3] == '-'
    && (c.year >= 0 ==> Text.AllDigits(r[..|r| - 6]) && Text.ParseDigits(r[..|r| - 6]) == c.year)
    && (c.year < 0 ==> |r| >= 11 && r[0] == '-' && Text.ParseDigits(r[1..|r| - 6]) == -c.year)
    && Text.ParseDigits(r[|r| - 5..|r| - 3]) == c.month
    && Text.ParseDigits(r[|r| - 2..]) == c.day
  }

  /** The rendering of a date reads back as that date. */
  lemma RenderFields(c: Civil)
    requires 1 <= c.month <= 12 && 1 <= c.day <= 31
    ensures ReadsBackAs(Render(c), c)
  {
    var y, mo, d := YearText(c.year), Pad(c.month, 2), Pad(c.day, 2);
    PadTwo(c.month);
    PadTwo(c.day);
    PadParses(c.month, 2);
    PadParses(c.day, 2);
    YearTextParses(c.year);
    assert Render(c) == y + "-" + mo + "-" + d;
    JoinFields(y, mo, d);
  }

  /** The rendering of a day number reads back as the date it falls on. */
  lemma DateStringFields(n: Day)
    ensures ReadsBackAs(DateString(n), CivilFromDays(n))
  {
    var c := CivilFromDays(n);
    assert DateString(n) == Render(c);
    RenderFields(c);
  }

  /** Day 0 is 1970-01-01. */
  lemma EpochIsJanuaryFirst1970()
    ensures CivilFromDays(0) == Civil(1970, 1, 1)
  {
    var z := 719468;
    assert z / 146097 == 4;
    assert z - 4 * 146097 == 135080;
    assert (135080 - 135080 / 1460 + 135080 / 36524 - 135080 / 146096) / 365 == 369;
    assert 135080 - (365 * 369 + 369 / 4 - 369 / 100) == 306;
    assert (5 * 306 + 2) / 153 == 10;
    assert 306 - (153 * 10 + 2) / 5 + 1 == 1;
  }
}
