/** The proleptic Gregorian calendar, and the day-count conversion that both
    the capture stamps and the build date use. */
module Calendar {

  datatype Date = Date(year: int, month: int, day: int)

  // ----- The calendar, from its rules alone -----

  predicate IsLeap(year: int) {
    year % 4 == 0 && (year % 100 != 0 || year % 400 == 0)
  }

  function YearLength(year: int): int {
    if IsLeap(year) then 366 else 365
  }

  function MonthLength(year: int, month: int): int {
    if month == 2 then (if IsLeap(year) then 29 else 28)
    else if month in {4, 6, 9, 11} then 30
    else 31
  }

  ghost predicate IsDate(d: Date) {
    1 <= d.month <= 12 && 1 <= d.day <= MonthLength(d.year, d.month)
  }

  /** The day after `d`: next in the month, first of the next month, or New Year. */
  function NextDay(d: Date): Date {
    if d.day < MonthLength(d.year, d.month) then d.(day := d.day + 1)
    else if d.month < 12 then Date(d.year, d.month + 1, 1)
    else Date(d.year + 1, 1, 1)
  }

  predicate Before(a: Date, b: Date) {
    || a.year < b.year
    || (a.year == b.year && a.month < b.month)
    || (a.year == b.year && a.month == b.month && a.day < b.day)
  }

  const EPOCH := Date(1970, 1, 1)

  // ----- Counting days since the epoch, one year and one month at a time -----

  function DaysBeforeYear(year: int): int
    decreases if year < 1970 then 1970 - year else year - 1970
  {
    if year == 1970 then 0
    else if year > 1970 then DaysBeforeYear(year - 1) + YearLength(year - 1)
    else DaysBeforeYear(year + 1) - YearLength(year)
  }

  function DaysBeforeMonth(year: int, month: int): int
    decreases month
  {
    if month <= 1 then 0 else DaysBeforeMonth(year, month - 1) + MonthLength(year, month - 1)
  }

  /** Days from 1970-01-01 to `d`, negative before it. */
  function DayNumber(d: Date): int {
    DaysBeforeYear(d.year) + DaysBeforeMonth(d.year, d.month) + d.day - 1
  }

  // ----- The conversion, as the source computes it -----

  /** Rust's integer division, which truncates toward zero. */
  function TruncDiv(a: int, b: int): int
    requires b > 0
  {
    if a >= 0 then a / b else -((-a) / b)
  }

  /** The two divisions Hinnant's method does on a possibly negative number. */
  function EraOf(z: int): int {
    TruncDiv(if z >= 0 then z else z - 146096, 146097)
  }

  function YearOfEra(doe: int): int {
    TruncDiv(doe - TruncDiv(doe, 1460) + TruncDiv(doe, 36524) - TruncDiv(doe, 146096), 365)
  }

  function DayOfYear(doe: int, yoe: int): int {
    doe - (365 * yoe + TruncDiv(yoe, 4) - TruncDiv(yoe, 100))
  }

  /** The month and day `doy` days after 1 March of `year`; January and February belong to the next. */
  function DateInShiftedYear(year: int, doy: int): Date {
    var mp := TruncDiv(5 * doy + 2, 153);
    var day := doy - TruncDiv(153 * mp + 2, 5) + 1;
    var month := if mp < 10 then mp + 3 else mp - 9;
    Date(if month <= 2 then year + 1 else year, month, day)
  }

  /** `civil_from_days` of the capture module. */
  function CivilFromDays(days: int): Date {
    var z := days + 719468;
    var era := EraOf(z);
    DateInEra(era, z - era * 146097)
  }

  function DateInEra(era: int, doe: int): Date {
    var yoe := YearOfEra(doe);
    DateInShiftedYear(yoe + era * 400, DayOfYear(doe, yoe))
  }

  // ----- Its proof -----

  lemma Step4(y: int)
    ensures y / 4 - (y - 1) / 4 == if y % 4 == 0 then 1 else 0
  {
  }

  lemma Step100(y: int)
    ensures y / 100 - (y - 1) / 100 == if y % 100 == 0 then 1 else 0
  {
  }

  lemma Step400(y: int)
    ensures y / 400 - (y - 1) / 400 == if y % 400 == 0 then 1 else 0
  {
  }

  lemma Multiples(y: int)
    ensures y % 100 == 0 ==> y % 4 == 0
    ensures y % 400 == 0 ==> y % 100 == 0
  {
    if y % 100 == 0 {
      By4(y, 25 * (y / 100), 0);
    }
    if y % 400 == 0 {
      By100(y, 4 * (y / 400), 0);
    }
  }

  lemma YearLengthByQuotients(year: int)
    ensures YearLength(year)
         == 365 + year / 4 - (year - 1) / 4 - year / 100 + (year - 1) / 100 + year / 400 - (year - 1) / 400
  {
    Step4(year);
    Step100(year);
    Step400(year);
    Multiples(year);
  }

  ghost function YearsFormula(year: int): int {
    365 * (year - 1970) + (year - 1) / 4 - (year - 1) / 100 + (year - 1) / 400 - 477
  }

  lemma {:induction false} YearsClosedForm(year: int)
    ensures DaysBeforeYear(year) == YearsFormula(year)
    decreases if year < 1970 then 1970 - year else year - 1970
  {
    if year > 1970 {
      YearsClosedForm(year - 1);
      YearLengthByQuotients(year - 1);
    } else if year < 1970 {
      YearsClosedForm(year + 1);
      YearLengthByQuotients(year);
    }
  }

  /** The three day counts the source divides a day of an era by. */
  lemma EraQuotients(doe: int, c: int, a: int, b: int)
    requires 0 <= c <= 3 && 0 <= a <= 24 && 0 <= b <= 1460
    requires a == 24 && c < 3 ==> b <= 1459
    requires doe == 36524 * c + 1461 * a + b
    ensures doe / 1460 == 25 * c + a + if 24 * c + a + b >= 1460 then 1 else 0
    ensures doe / 36524 == if doe == 146096 then 4 else c
    ensures doe / 146096 == if doe == 146096 then 1 else 0
  {
  }

  /** The source drops the leap days before a day, so that 365 days make a year. */
  lemma YearDays(c: int, a: int, b: int, k: int, e: int)
    requires 0 <= c <= 3 && 0 <= a <= 24 && 0 <= b <= 1460
    requires a == 24 && c < 3 ==> b <= 1459
    requires k == if b == 1460 then 3 else b / 365
    requires e == 365 * (100 * c + 4 * a) + b - if 24 * c + a + b >= 1460 then 1 else 0
    ensures e >= 0 && e / 365 == 100 * c + 4 * a + k
  {
    var y := 100 * c + 4 * a + k;
    assert 365 * y <= e < 365 * y + 365;
  }

  /** Where a day of an era falls: century `c`, four-year group `a` of it, day `b` of the group. */
  lemma YearOfEraIs(c: int, a: int, b: int, k: int)
    requires 0 <= c <= 3 && 0 <= a <= 24 && 0 <= b <= 1460
    requires a == 24 && c < 3 ==> b <= 1459
    requires k == if b == 1460 then 3 else b / 365
    ensures YearOfEra(36524 * c + 1461 * a + b) == 100 * c + 4 * a + k
    ensures DayOfYear(36524 * c + 1461 * a + b, 100 * c + 4 * a + k) == b - 365 * k
  {
    var doe := 36524 * c + 1461 * a + b;
    EraQuotients(doe, c, a, b);
    var y := 100 * c + 4 * a + k;
    YearDays(c, a, b, k, doe - doe / 1460 + doe / 36524 - doe / 146096);
    By4(y, 25 * c + a, k);
    By100(y, c, 4 * a + k);
  }

  lemma MonthStarts(year: int, month: int)
    requires 1 <= month <= 12
    ensures DaysBeforeMonth(year, month)
         == [0, 31, 59, 90, 120, 151, 181, 212, 243, 273, 304, 334][month - 1]
          + if month > 2 && IsLeap(year) then 1 else 0
  {
    assert DaysBeforeMonth(year, 3) == 59 + if IsLeap(year) then 1 else 0 by {
      assert DaysBeforeMonth(year, 2) == 31;
    }
    if month > 3 {
      MonthStarts(year, month - 1);
    }
  }

  lemma By4(y: int, q: int, r: int)
    requires y == 4 * q + r && 0 <= r < 4
    ensures y % 4 == r && y / 4 == q
  {
  }

  lemma By100(y: int, q: int, r: int)
    requires y == 100 * q + r && 0 <= r < 100
    ensures y % 100 == r && y / 100 == q
  {
  }

  lemma By400(y: int, q: int, r: int)
    requires y == 400 * q + r && 0 <= r < 400
    ensures y % 400 == r && y / 400 == q
  {
  }

  /** The last year of a four-year group holds the leap day, except at three centuries of four. */
  lemma LeapDayYear(era: int, c: int, a: int, y: int)
    requires 0 <= c <= 3 && 0 <= a <= 24 && (a == 24 ==> c == 3)
    requires y == 400 * era + 100 * c + 4 * a + 4
    ensures IsLeap(y)
  {
    By4(y, 100 * era + 25 * c + a + 1, 0);
    if a == 24 {
      By400(y, era + 1, 0);
    } else {
      By100(y, 4 * era + c, 4 * a + 4);
    }
  }

  /** 1 March of year `y`, 306 days before the next New Year, starts the source's shifted year. */
  lemma MarchFirst(era: int, c: int, a: int, k: int, y: int)
    requires 0 <= c <= 3 && 0 <= a <= 24 && 0 <= k <= 3
    requires y == 400 * era + 100 * c + 4 * a + k
    ensures DaysBeforeYear(y + 1) - 306 == 146097 * era + 36524 * c + 1461 * a + 365 * k - 719468
  {
    YearsClosedForm(y + 1);
    By4(y, 100 * era + 25 * c + a, k);
    By100(y, 4 * era + c, 4 * a + k);
    By400(y, era, 100 * c + 4 * a + k);
  }

  const SHIFTED_STARTS: seq<int> := [0, 31, 61, 92, 122, 153, 184, 214, 245, 275, 306, 337, 366]

  lemma MonthOfShiftedYear(doy: int, mp: int)
    requires 0 <= doy <= 365 && mp == (5 * doy + 2) / 153
    ensures 0 <= mp <= 11 && (153 * mp + 2) / 5 == SHIFTED_STARTS[mp]
    ensures SHIFTED_STARTS[mp] <= doy < SHIFTED_STARTS[mp + 1]
  {
  }

  /** The months of a shifted year, by the days of the two calendar years it spans. */
  lemma ShiftedMonthStart(y: int, mp: int)
    requires 0 <= mp <= 11
    ensures var (year, month) := if mp < 10 then (y, mp + 3) else (y + 1, mp - 9);
      && DaysBeforeYear(year) + DaysBeforeMonth(year, month) == DaysBeforeYear(y + 1) - 306 + SHIFTED_STARTS[mp]
      && MonthLength(year, month) == SHIFTED_STARTS[mp + 1] - SHIFTED_STARTS[mp] - if mp == 11 && !IsLeap(y + 1) then 1 else 0
  {
    hide IsLeap;
    var (year, month) := if mp < 10 then (y, mp + 3) else (y + 1, mp - 9);
    MonthStarts(year, month);
    assert DaysBeforeYear(y + 1) == DaysBeforeYear(y) + YearLength(y);
  }

  /** The month and day the source reads off a day of the shifted year. */
  lemma ShiftedMonth(doy: int, y: int)
    requires 0 <= doy <= 365
    requires doy == 365 ==> IsLeap(y + 1)
    ensures IsDate(DateInShiftedYear(y, doy))
    ensures DayNumber(DateInShiftedYear(y, doy)) == DaysBeforeYear(y + 1) - 306 + doy
  {
    hide IsLeap, DaysBeforeYear, DaysBeforeMonth, MonthLength;
    var mp := (5 * doy + 2) / 153;
    MonthOfShiftedYear(doy, mp);
    ShiftedMonthStart(y, mp);
  }

  lemma SplitEra(doe: int) returns (c: int, a: int, b: int, k: int)
    requires 0 <= doe < 146097
    ensures 0 <= c <= 3 && 0 <= a <= 24 && 0 <= b <= 1460 && (a == 24 && c < 3 ==> b <= 1459)
    ensures k == (if b == 1460 then 3 else b / 365) && doe == 36524 * c + 1461 * a + b
  {
    c := if doe == 146096 then 3 else doe / 36524;
    var r := doe - 36524 * c;
    a, b := r / 1461, r % 1461;
    k := if b == 1460 then 3 else b / 365;
  }

  lemma YearOfEraBounds(doe: int)
    requires 0 <= doe < 146097
    ensures 0 <= YearOfEra(doe) <= 399 && 0 <= DayOfYear(doe, YearOfEra(doe)) <= 365
  {
    var c, a, b, k := SplitEra(doe);
    YearOfEraIs(c, a, b, k);
  }

  /** The conversion, step by step, on a day split into era, century, group and year. */
  lemma CivilOfSplit(days: int, era: int, c: int, a: int, b: int, k: int)
    requires 0 <= c <= 3 && 0 <= a <= 24 && 0 <= b <= 1460 && (a == 24 && c < 3 ==> b <= 1459)
    requires k == (if b == 1460 then 3 else b / 365)
    requires days + 719468 == 146097 * era + (36524 * c + 1461 * a + b)
    ensures CivilFromDays(days) == DateInShiftedYear(400 * era + 100 * c + 4 * a + k, b - 365 * k)
  {
    hide YearOfEra, DayOfYear, DateInShiftedYear, CivilFromDays;
    EraSplit(days, era, 36524 * c + 1461 * a + b);
    YearOfEraIs(c, a, b, k);
  }

  lemma EraSplit(days: int, era: int, doe: int)
    requires 0 <= doe < 146097 && days + 719468 == 146097 * era + doe
    ensures CivilFromDays(days) == DateInEra(era, doe)
  {
    hide DateInEra, YearOfEra, DayOfYear, DateInShiftedYear;
    EraIsFloor(days + 719468);
  }

  lemma SplitIsThatDay(era: int, c: int, a: int, b: int, k: int)
    requires 0 <= c <= 3 && 0 <= a <= 24 && 0 <= b <= 1460 && (a == 24 && c < 3 ==> b <= 1459)
    requires k == (if b == 1460 then 3 else b / 365)
    ensures var d := DateInShiftedYear(400 * era + 100 * c + 4 * a + k, b - 365 * k);
            IsDate(d) && DayNumber(d) == 146097 * era + 36524 * c + 1461 * a + b - 719468
  {
    var y := 400 * era + 100 * c + 4 * a + k;
    MarchFirst(era, c, a, k, y);
    if b - 365 * k == 365 {
      LeapDayYear(era, c, a, y + 1);
    }
    ShiftedMonth(b - 365 * k, y);
  }

  /** For every day count, the conversion yields a real date, and the one that many days from the epoch. */
  lemma CivilIsThatDay(days: int)
    ensures IsDate(CivilFromDays(days)) && DayNumber(CivilFromDays(days)) == days
  {
    var era := (days + 719468) / 146097;
    var c, a, b, k := SplitEra((days + 719468) % 146097);
    SplitIsThatDay(era, c, a, b, k);
    CivilOfSplit(days, era, c, a, b, k);
  }

  lemma EraIsFloor(z: int)
    ensures EraOf(z) == z / 146097
  {
    if z < 0 {
      var q, m := z / 146097, z % 146097;
      assert 146096 - z == 146097 * (-q) + (146096 - m);
    }
  }

  // ----- DayNumber is a bijection from dates to integers -----

  lemma {:induction false} YearsIncrease(a: int, b: int)
    requires a <= b
    ensures DaysBeforeYear(b) >= DaysBeforeYear(a) + 365 * (b - a)
    decreases b - a
  {
    if a < b {
      YearsIncrease(a, b - 1);
      assert DaysBeforeYear(b) == DaysBeforeYear(b - 1) + YearLength(b - 1);
    }
  }

  lemma {:induction false} MonthsIncrease(year: int, a: int, b: int)
    requires 1 <= a < b <= 12
    ensures DaysBeforeMonth(year, a) + MonthLength(year, a) <= DaysBeforeMonth(year, b)
    decreases b - a
  {
    if a + 1 < b {
      MonthsIncrease(year, a, b - 1);
    }
  }

  lemma DayOfYearBounds(d: Date)
    requires IsDate(d)
    ensures 0 <= DaysBeforeMonth(d.year, d.month) + d.day - 1 < YearLength(d.year)
  {
    MonthStarts(d.year, d.month);
  }

  lemma DayNumberOrders(a: Date, b: Date)
    requires IsDate(a) && IsDate(b) && Before(a, b)
    ensures DayNumber(a) < DayNumber(b)
  {
    DayOfYearBounds(a);
    DayOfYearBounds(b);
    if a.year < b.year {
      YearsIncrease(a.year + 1, b.year);
      assert DaysBeforeYear(a.year + 1) == DaysBeforeYear(a.year) + YearLength(a.year);
    } else if a.month < b.month {
      MonthsIncrease(a.year, a.month, b.month);
    }
  }

  /** The other direction of the inverse: a date counted into days converts back to itself. */
  lemma DateOfItsDayNumber(d: Date)
    requires IsDate(d)
    ensures CivilFromDays(DayNumber(d)) == d
  {
    var e := CivilFromDays(DayNumber(d));
    CivilIsThatDay(DayNumber(d));
    if Before(d, e) {
      DayNumberOrders(d, e);
    } else if Before(e, d) {
      DayNumberOrders(e, d);
    }
  }

  /** Later days are later dates. */
  lemma CivilOrders(m: int, n: int)
    requires m < n
    ensures Before(CivilFromDays(m), CivilFromDays(n))
  {
    CivilIsThatDay(m);
    CivilIsThatDay(n);
    var a, b := CivilFromDays(m), CivilFromDays(n);
    if Before(b, a) {
      DayNumberOrders(b, a);
    }
  }

  lemma NextDayIsADate(d: Date)
    requires IsDate(d)
    ensures IsDate(NextDay(d)) && DayNumber(NextDay(d)) == DayNumber(d) + 1
  {
    if d.day == MonthLength(d.year, d.month) && d.month == 12 {
      MonthStarts(d.year, 12);
      assert DaysBeforeYear(d.year + 1) == DaysBeforeYear(d.year) + YearLength(d.year);
    }
  }

  lemma CivilAtTheEpoch()
    ensures CivilFromDays(0) == EPOCH
  {
    assert DayNumber(EPOCH) == 0;
    DateOfItsDayNumber(EPOCH);
  }

  lemma ConversionOf(d: Date, days: int)
    requires IsDate(d) && DayNumber(d) == days
    ensures CivilFromDays(days) == d
  {
    DateOfItsDayNumber(d);
  }

  lemma DayAfter(d: Date, days: int)
    requires IsDate(d) && DayNumber(d) == days
    ensures CivilFromDays(days + 1) == NextDay(d)
  {
    NextDayIsADate(d);
    ConversionOf(NextDay(d), days + 1);
  }

  /** One day more is always the calendar's next day; with day 0 being the epoch, this fixes the
      conversion on every day count, before and after 1970, by the calendar's rules alone. */
  lemma CivilFollowsTheCalendar(days: int)
    ensures CivilFromDays(days + 1) == NextDay(CivilFromDays(days))
  {
    CivilIsThatDay(days);
    DayAfter(CivilFromDays(days), days);
  }
}
